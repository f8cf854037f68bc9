/**
 * `getRouteSegments` (core.js): turns a route id such as `_auth.($lang).[sitemap.xml]` into the
 * URL template React Router matches (`:lang?/sitemap.xml`). A four-state character machine builds
 * each segment twice: the display text that goes into the URL and the raw text of the file name.
 */
module Segments {
  import opened Wrappers
  import opened JsString
  import opened RouteErrors
  import SegmentSeparator

  const ParamPrefixChar: char := '$'
  const EscapeStart: char := '['
  const EscapeEnd: char := ']'
  const OptionalStart: char := '('
  const OptionalEnd: char := ')'

  datatype ScanState = Normal | Escape | Optional | OptionalEscape

  /**
   * The scanner's variables: `state`, the display and raw text of the segment being read
   * (`routeSegment`, `rawRouteSegment`) and the segments pushed so far.
   */
  datatype Scan = Scan(state: ScanState, segment: string, raw: string, segments: seq<string>, raws: seq<string>)

  const Start := Scan(Normal, "", "", [], [])

  /**
   * `pushRouteSegment(segment, rawSegment)`: an empty display segment is dropped; a raw segment
   * containing `*` or `:`, or one containing `/`, is an error; otherwise both are appended.
   */
  function Push(segments: seq<string>, raws: seq<string>, segment: string, raw: string, routeId: string)
    : Result<(seq<string>, seq<string>), RouteError>
  {
    if segment == "" then Success((segments, raws))
    else if '*' in raw then Failure(UnsupportedCharacter(raw, routeId, '*'))
    else if ':' in raw then Failure(UnsupportedCharacter(raw, routeId, ':'))
    else if '/' in raw then Failure(UnsupportedCharacter(segment, routeId, '/'))
    else Success((segments + [segment], raws + [raw]))
  }

  /** The display text a `$` at the start of a segment stands for: a splat when it ends the id, else a parameter. */
  function ParamText(last: bool): string {
    if last then "*" else ":"
  }

  /** Reading the character `c` (`last` when it is the final character of `routeId`). */
  function Step(sc: Scan, c: char, last: bool, routeId: string): Result<Scan, RouteError> {
    match sc.state
    case Normal =>
      if SegmentSeparator.IsSeparatorChar(c) then
        var pushed :- Push(sc.segments, sc.raws, sc.segment, sc.raw, routeId);
        Success(Scan(Normal, "", "", pushed.0, pushed.1))
      else if c == EscapeStart then Success(sc.(state := Escape, raw := sc.raw + [c]))
      else if c == OptionalStart then Success(sc.(state := Optional, raw := sc.raw + [c]))
      else if sc.segment == "" && c == ParamPrefixChar then
        Success(sc.(segment := sc.segment + ParamText(last), raw := sc.raw + [c]))
      else Success(sc.(segment := sc.segment + [c], raw := sc.raw + [c]))
    case Escape =>
      if c == EscapeEnd then Success(sc.(state := Normal, raw := sc.raw + [c]))
      else Success(sc.(segment := sc.segment + [c], raw := sc.raw + [c]))
    case Optional =>
      if c == OptionalEnd then Success(sc.(state := Normal, segment := sc.segment + "?", raw := sc.raw + [c]))
      else if c == EscapeStart then Success(sc.(state := OptionalEscape, raw := sc.raw + [c]))
      else if sc.segment == "" && c == ParamPrefixChar then
        Success(sc.(segment := sc.segment + ParamText(last), raw := sc.raw + [c]))
      else Success(sc.(segment := sc.segment + [c], raw := sc.raw + [c]))
    case OptionalEscape =>
      if c == EscapeEnd then Success(sc.(state := Optional, raw := sc.raw + [c]))
      else Success(sc.(segment := sc.segment + [c], raw := sc.raw + [c]))
  }

  /**
   * What the pushed segments and the segment being read always satisfy: the lists are aligned,
   * no pushed segment is empty or holds `/`, no pushed raw segment holds a reserved character,
   * and a `/` in the display text is also in the raw text.
   */
  predicate WellFormed(sc: Scan) {
    |sc.segments| == |sc.raws| &&
    (forall k :: 0 <= k < |sc.segments| ==>
      sc.segments[k] != "" && '/' !in sc.segments[k] && '*' !in sc.raws[k] && ':' !in sc.raws[k]) &&
    ('/' in sc.segment ==> '/' in sc.raw)
  }

  /** The scanner after reading the first `i` characters of `routeId`, or the error it threw. */
  function ScanTo(routeId: string, i: nat): Result<Scan, RouteError>
    requires i <= |routeId|
  {
    if i == 0 then Success(Start)
    else
      var sc :- ScanTo(routeId, i - 1);
      Step(sc, routeId[i - 1], i == |routeId|, routeId)
  }

  /** The display and raw segments after the final push, before `_index` handling. */
  function AllSegments(routeId: string): Result<(seq<string>, seq<string>), RouteError> {
    var sc :- ScanTo(routeId, |routeId|);
    Push(sc.segments, sc.raws, sc.segment, sc.raw, routeId)
  }

  /** Every scanner state the id reaches is well formed: pushing only ever appends checked segments. */
  lemma {:induction false} ScanWellFormed(routeId: string, i: nat)
    requires i <= |routeId| && ScanTo(routeId, i).Success?
    ensures WellFormed(ScanTo(routeId, i).value)
    decreases i
  {
    if i > 0 {
      ScanWellFormed(routeId, i - 1);
    }
  }

  /** The final lists are aligned, and no display segment is empty or holds `/`. */
  lemma AllSegmentsShape(routeId: string)
    requires AllSegments(routeId).Success?
    ensures var (segments, raws) := AllSegments(routeId).value;
      |segments| == |raws| && forall k :: 0 <= k < |segments| ==> segments[k] != "" && '/' !in segments[k]
  {
    ScanWellFormed(routeId, |routeId|);
  }

  /** A pathless layout segment: its display starts with `_`, and so does its raw text once the first `(` is removed. */
  predicate Pathless(segment: string, raw: string) {
    StartsWith(segment, "_") && StartsWith(RemoveFirst(raw, OptionalStart), "_")
  }

  /** A segment's URL text: a trailing `_` that is in both display and raw text is removed. */
  function Visible(segment: string, raw: string): string {
    if EndsWith(segment, "_") && EndsWith(raw, "_") then SliceTo(segment, -1) else segment
  }

  /** The `result` list: every segment that is not pathless, in its visible form. */
  function Shown(segments: seq<string>, raws: seq<string>): seq<string>
    requires |segments| == |raws|
  {
    if segments == [] then []
    else
      var n := |segments| - 1;
      Shown(segments[..n], raws[..n]) + (if Pathless(segments[n], raws[n]) then [] else [Visible(segments[n], raws[n])])
  }

  /** The segments of the URL template; an id ending in `_index` loses its last display segment. */
  function RouteSegmentList(routeId: string): Result<seq<string>, RouteError> {
    var (segments, raws) :- AllSegments(routeId);
    AllSegmentsShape(routeId);
    var kept := if EndsWith(routeId, "_index") && |segments| > 0 then segments[..|segments| - 1] else segments;
    Success(Shown(kept, raws[..|kept|]))
  }

  /** `getRouteSegments(routeId)`: the segments joined with `/`, or `undefined` when none is left. */
  function RouteSegments(routeId: string): Result<Option<string>, RouteError> {
    var parts :- RouteSegmentList(routeId);
    Success(if |parts| > 0 then Some(Join(parts, "/")) else None)
  }

  /** For an id that does not end in `_index`, the template is made of every pushed segment. */
  lemma TemplateOfSegments(routeId: string, segments: seq<string>, raws: seq<string>)
    requires AllSegments(routeId) == Success((segments, raws)) && !EndsWith(routeId, "_index")
    ensures |segments| == |raws|
    ensures var parts := Shown(segments, raws);
      RouteSegments(routeId) == Success(if |parts| > 0 then Some(Join(parts, "/")) else None)
  {
    AllSegmentsShape(routeId);
    assert raws[..|segments|] == raws;
  }

  /** For an id ending in `_index`, the template is made of every pushed segment but the last. */
  lemma TemplateOfIndexSegments(routeId: string, segments: seq<string>, raws: seq<string>)
    requires AllSegments(routeId) == Success((segments, raws)) && EndsWith(routeId, "_index") && |segments| >= 1
    ensures |segments| == |raws|
    ensures var n := |segments| - 1; var parts := Shown(segments[..n], raws[..n]);
      RouteSegments(routeId) == Success(if |parts| > 0 then Some(Join(parts, "/")) else None)
  {
    AllSegmentsShape(routeId);
  }

  /** Once the scanner has thrown, reading further characters does not change the error. */
  lemma {:induction false} FailureSticks(routeId: string, i: nat, j: nat)
    requires i <= j <= |routeId| && ScanTo(routeId, i).Failure?
    ensures ScanTo(routeId, j) == ScanTo(routeId, i)
    decreases j
  {
    if j > i {
      FailureSticks(routeId, i, j - 1);
    }
  }

  /** The scanner loop of `getRouteSegments`: reads `routeId` character by character. */
  method ScanRouteId(routeId: string) returns (r: Result<Scan, RouteError>)
    ensures r == ScanTo(routeId, |routeId|)
  {
    var routeSegments: seq<string> := [];
    var rawRouteSegments: seq<string> := [];
    var state := Normal;
    var index := 0;
    var routeSegment := "";
    var rawRouteSegment := "";
    while index < |routeId|
      invariant 0 <= index <= |routeId|
      invariant ScanTo(routeId, index) == Success(Scan(state, routeSegment, rawRouteSegment, routeSegments, rawRouteSegments))
    {
      var ch := routeId[index];
      index := index + 1;
      match state {
        case Normal =>
          SegmentSeparator.SeparatorCharAgrees(ch);
          if SegmentSeparator.IsSegmentSeparator(Some([ch])) {
            var pushed := Push(routeSegments, rawRouteSegments, routeSegment, rawRouteSegment, routeId);
            if pushed.Failure? {
              FailureSticks(routeId, index, |routeId|);
              return Failure(pushed.error);
            }
            routeSegments, rawRouteSegments := pushed.value.0, pushed.value.1;
            routeSegment := "";
            rawRouteSegment := "";
            state := Normal;
          } else if ch == EscapeStart {
            state := Escape;
            rawRouteSegment := rawRouteSegment + [ch];
          } else if ch == OptionalStart {
            state := Optional;
            rawRouteSegment := rawRouteSegment + [ch];
          } else if routeSegment == "" && ch == ParamPrefixChar {
            if index == |routeId| {
              routeSegment := routeSegment + "*";
            } else {
              routeSegment := routeSegment + ":";
            }
            rawRouteSegment := rawRouteSegment + [ch];
          } else {
            routeSegment := routeSegment + [ch];
            rawRouteSegment := rawRouteSegment + [ch];
          }
        case Escape =>
          if ch == EscapeEnd {
            state := Normal;
            rawRouteSegment := rawRouteSegment + [ch];
          } else {
            routeSegment := routeSegment + [ch];
            rawRouteSegment := rawRouteSegment + [ch];
          }
        case Optional =>
          if ch == OptionalEnd {
            routeSegment := routeSegment + "?";
            rawRouteSegment := rawRouteSegment + [ch];
            state := Normal;
          } else if ch == EscapeStart {
            state := OptionalEscape;
            rawRouteSegment := rawRouteSegment + [ch];
          } else if routeSegment == "" && ch == ParamPrefixChar {
            if index == |routeId| {
              routeSegment := routeSegment + "*";
            } else {
              routeSegment := routeSegment + ":";
            }
            rawRouteSegment := rawRouteSegment + [ch];
          } else {
            routeSegment := routeSegment + [ch];
            rawRouteSegment := rawRouteSegment + [ch];
          }
        case OptionalEscape =>
          if ch == EscapeEnd {
            state := Optional;
            rawRouteSegment := rawRouteSegment + [ch];
          } else {
            routeSegment := routeSegment + [ch];
            rawRouteSegment := rawRouteSegment + [ch];
          }
      }
    }
    return Success(Scan(state, routeSegment, rawRouteSegment, routeSegments, rawRouteSegments));
  }

  /** The post-processing loop of `getRouteSegments`: drops pathless segments and trailing `_`. */
  method ShowSegments(routeSegments: seq<string>, rawRouteSegments: seq<string>) returns (result: seq<string>)
    requires |routeSegments| <= |rawRouteSegments|
    ensures result == Shown(routeSegments, rawRouteSegments[..|routeSegments|])
  {
    result := [];
    var i := 0;
    while i < |routeSegments|
      invariant 0 <= i <= |routeSegments| <= |rawRouteSegments|
      invariant result == Shown(routeSegments[..i], rawRouteSegments[..i])
    {
      var segment := routeSegments[i];
      var rawSegment := rawRouteSegments[i];
      assert routeSegments[..i + 1][..i] == routeSegments[..i];
      assert rawRouteSegments[..i + 1][..i] == rawRouteSegments[..i];
      i := i + 1;
      // skip pathless layout segments
      if StartsWith(segment, "_") && StartsWith(RemoveFirst(rawSegment, OptionalStart), "_") {
        continue;
      }
      // remove trailing slash
      if EndsWith(segment, "_") && EndsWith(rawSegment, "_") {
        result := result + [SliceTo(segment, -1)];
      } else {
        result := result + [segment];
      }
    }
    assert routeSegments[..i] == routeSegments;
  }

  /** `getRouteSegments(routeId)`: scan, push the last segment, drop it again for `_index`, post-process, join. */
  method GetRouteSegments(routeId: string) returns (r: Result<Option<string>, RouteError>)
    ensures r == RouteSegments(routeId)
  {
    var scanned := ScanRouteId(routeId);
    if scanned.Failure? {
      return Failure(scanned.error);
    }
    var sc := scanned.value;
    // process remaining segment
    var pushed := Push(sc.segments, sc.raws, sc.segment, sc.raw, routeId);
    if pushed.Failure? {
      return Failure(pushed.error);
    }
    var (routeSegments, rawRouteSegments) := pushed.value;
    AllSegmentsShape(routeId);
    if EndsWith(routeId, "_index") && |routeSegments| > 0 {
      routeSegments := routeSegments[..|routeSegments| - 1];
    }
    var result := ShowSegments(routeSegments, rawRouteSegments);
    r := Success(if |result| > 0 then Some(Join(result, "/")) else None);
  }

  /** Every segment of a template is free of `/`, so splitting the joined template gives the segments back. */
  lemma {:induction false} ShownSlashFree(segments: seq<string>, raws: seq<string>)
    requires |segments| == |raws|
    requires forall k :: 0 <= k < |segments| ==> '/' !in segments[k]
    ensures forall k :: 0 <= k < |Shown(segments, raws)| ==> '/' !in Shown(segments, raws)[k]
    decreases |segments|
  {
    if segments != [] {
      var n := |segments| - 1;
      ShownSlashFree(segments[..n], raws[..n]);
      var v := Visible(segments[n], raws[n]);
      assert forall x :: x in v ==> x in segments[n];
    }
  }

  /**
   * The URL template splits on `/` into exactly the surviving segments: no segment carries a `/`
   * of its own, and `undefined` stands for an empty list.
   */
  lemma TemplateSplitsIntoSegments(routeId: string)
    requires RouteSegmentList(routeId).Success?
    ensures var parts := RouteSegmentList(routeId).value;
      (forall k :: 0 <= k < |parts| ==> '/' !in parts[k]) &&
      RouteSegments(routeId) == Success(if |parts| > 0 then Some(Join(parts, "/")) else None) &&
      (|parts| > 0 ==> Split(Join(parts, "/"), '/') == parts)
  {
    var (segments, raws) := AllSegments(routeId).value;
    AllSegmentsShape(routeId);
    var kept := if EndsWith(routeId, "_index") && |segments| > 0 then segments[..|segments| - 1] else segments;
    assert forall k :: 0 <= k < |kept| ==> kept[k] == segments[k];
    ShownSlashFree(kept, raws[..|kept|]);
    var parts := RouteSegmentList(routeId).value;
    if |parts| > 0 {
      SplitJoin(parts, '/');
    }
  }

  /**
   * Once a `*` or `:` of the id has been read, it sits in the raw text of a non-empty segment
   * that has not been pushed yet: every attempt to push it has thrown.
   */
  lemma {:induction false} ReservedCharPending(routeId: string, i: nat, c: char)
    requires i <= |routeId| && (c == '*' || c == ':') && c in routeId[..i] && ScanTo(routeId, i).Success?
    ensures c in ScanTo(routeId, i).value.raw && ScanTo(routeId, i).value.segment != ""
    decreases i
  {
    var sc := ScanTo(routeId, i - 1).value;
    assert routeId[..i] == routeId[..i - 1] + [routeId[i - 1]];
    if c in routeId[..i - 1] {
      ReservedCharPending(routeId, i - 1, c);
    }
  }

  /** `*` and `:` anywhere in an id make `getRouteSegments` throw, even inside `[...]`. */
  lemma ReservedCharRejected(routeId: string, c: char)
    requires (c == '*' || c == ':') && c in routeId
    ensures RouteSegments(routeId).Failure?
  {
    if ScanTo(routeId, |routeId|).Success? {
      assert routeId[..|routeId|] == routeId;
      ReservedCharPending(routeId, |routeId|, c);
    }
  }

  /**
   * A `/` read inside `[...]` or `(...)` lands in both texts of the pending segment; from then on
   * that segment keeps its `/` and stays non-empty, since pushing it would throw.
   */
  lemma {:induction false} SlashPending(routeId: string, i: nat, j: nat)
    requires i < j <= |routeId| && ScanTo(routeId, i).Success? && ScanTo(routeId, i).value.state != Normal
    requires routeId[i] == '/' && ScanTo(routeId, j).Success?
    ensures '/' in ScanTo(routeId, j).value.raw && ScanTo(routeId, j).value.segment != ""
    decreases j
  {
    if j > i + 1 {
      SlashPending(routeId, i, j - 1);
    }
  }

  /** A `/` inside brackets or parentheses makes `getRouteSegments` throw. */
  lemma SlashInBracketsRejected(routeId: string, i: nat)
    requires i < |routeId| && ScanTo(routeId, i).Success? && ScanTo(routeId, i).value.state != Normal
    requires routeId[i] == '/'
    ensures RouteSegments(routeId).Failure?
  {
    if ScanTo(routeId, |routeId|).Success? {
      SlashPending(routeId, i, |routeId|);
    }
  }

  /** The characters that state `state` appends verbatim to both the display and the raw text. */
  predicate Appends(state: ScanState, c: char) {
    match state
    case Normal => !SegmentSeparator.IsSeparatorChar(c) && c != EscapeStart && c != OptionalStart && c != ParamPrefixChar
    case Escape => c != EscapeEnd
    case Optional => c != OptionalEnd && c != EscapeStart && c != ParamPrefixChar
    case OptionalEscape => c != EscapeEnd
  }

  /** The scanner after one more character is one `Step` further. */
  lemma Next(routeId: string, i: nat, sc: Scan)
    requires i < |routeId| && ScanTo(routeId, i) == Success(sc)
    ensures ScanTo(routeId, i + 1) == Step(sc, routeId[i], i + 1 == |routeId|, routeId)
  {
  }

  /** A `]` that ends the id closes the brackets. */
  lemma CloseEscape(routeId: string, n: nat, sc: Scan)
    requires n + 1 == |routeId| && ScanTo(routeId, n) == Success(sc) && sc.state == Escape && routeId[n] == EscapeEnd
    ensures ScanTo(routeId, |routeId|) == Success(sc.(state := Normal, raw := sc.raw + [EscapeEnd]))
  {
    Next(routeId, n, sc);
  }

  /** A `)` that ends the id closes the optional segment, which gains its `?`. */
  lemma CloseOptional(routeId: string, n: nat, sc: Scan)
    requires n + 1 == |routeId| && ScanTo(routeId, n) == Success(sc) && sc.state == Optional && routeId[n] == OptionalEnd
    ensures ScanTo(routeId, |routeId|)
         == Success(sc.(state := Normal, segment := sc.segment + "?", raw := sc.raw + [OptionalEnd]))
  {
    Next(routeId, n, sc);
  }

  /** A character the state appends verbatim extends both texts by itself and nothing else. */
  lemma StepAppends(sc: Scan, c: char, last: bool, routeId: string)
    requires Appends(sc.state, c)
    ensures Step(sc, c, last, routeId).Success?
    ensures var n := Step(sc, c, last, routeId).value;
      n.state == sc.state && n.segment == sc.segment + [c] && n.raw == sc.raw + [c] &&
      n.segments == sc.segments && n.raws == sc.raws
  {
  }

  /**
   * A `$` that opens a still-empty segment outside brackets becomes `*` when it is the last
   * character of the id and `:` otherwise; the raw text keeps the `$`.
   */
  lemma ParamStep(routeId: string, i: nat, sc: Scan)
    requires i < |routeId| && ScanTo(routeId, i) == Success(sc)
    requires (sc.state == Normal || sc.state == Optional) && sc.segment == "" && routeId[i] == ParamPrefixChar
    ensures ScanTo(routeId, i + 1).Success?
    ensures var n := ScanTo(routeId, i + 1).value;
      n.state == sc.state && n.segment == (if i + 1 == |routeId| then "*" else ":") &&
      n.raw == sc.raw + [ParamPrefixChar] && n.segments == sc.segments && n.raws == sc.raws
  {
    Next(routeId, i, sc);
  }

  /** A separator outside brackets pushes the pending segment, when it passes the checks, and starts a new one. */
  lemma SeparatorStep(routeId: string, i: nat, sc: Scan)
    requires i < |routeId| && ScanTo(routeId, i) == Success(sc) && sc.state == Normal
    requires SegmentSeparator.IsSeparatorChar(routeId[i])
    requires sc.segment != "" && '*' !in sc.raw && ':' !in sc.raw && '/' !in sc.raw
    ensures ScanTo(routeId, i + 1).Success?
    ensures var n := ScanTo(routeId, i + 1).value;
      n.state == Normal && n.segment == "" && n.raw == "" &&
      n.segments == sc.segments + [sc.segment] && n.raws == sc.raws + [sc.raw]
  {
    Next(routeId, i, sc);
  }

  /** A run of such characters is copied into both texts and leaves the state alone. */
  lemma {:induction false} AppendRun(routeId: string, i: nat, j: nat, sc: Scan)
    requires i <= j <= |routeId| && ScanTo(routeId, i) == Success(sc)
    requires forall k :: i <= k < j ==> Appends(sc.state, routeId[k])
    ensures ScanTo(routeId, j).Success?
    ensures var n := ScanTo(routeId, j).value;
      n.state == sc.state && n.segment == sc.segment + routeId[i..j] && n.raw == sc.raw + routeId[i..j] &&
      n.segments == sc.segments && n.raws == sc.raws
    decreases j
  {
    if j > i {
      AppendRun(routeId, i, j - 1, sc);
      var m := ScanTo(routeId, j - 1).value;
      Next(routeId, j - 1, m);
      StepAppends(m, routeId[j - 1], j == |routeId|, routeId);
      assert routeId[i..j] == routeId[i..j - 1] + [routeId[j - 1]];
    }
  }

  /** Reading `[w]` leaves one unpushed segment: display `w`, raw text `[w]`. */
  lemma ScanEscaped(w: string)
    requires EscapeEnd !in w
    ensures var id := [EscapeStart] + w + [EscapeEnd];
      ScanTo(id, |id|) == Success(Scan(Normal, w, id, [], []))
  {
    var id := [EscapeStart] + w + [EscapeEnd];
    Next(id, 0, Start);
    assert id[0] == EscapeStart;
    var s1 := ScanTo(id, 1).value;
    assert s1.state == Escape && s1.segment == "" && s1.raw == [EscapeStart] && s1.segments == [] && s1.raws == [];
    assert id[1..1 + |w|] == w;
    AppendRun(id, 1, 1 + |w|, s1);
    var s2 := ScanTo(id, 1 + |w|).value;
    assert s2 == Scan(Escape, w, [EscapeStart] + w, [], []);
    CloseEscape(id, 1 + |w|, s2);
  }

  /** Reading `(w)` leaves one unpushed segment: display `w?`, raw text `(w)`. */
  lemma ScanOptional(w: string)
    requires OptionalEnd !in w && EscapeStart !in w && ParamPrefixChar !in w
    ensures var id := [OptionalStart] + w + [OptionalEnd];
      ScanTo(id, |id|) == Success(Scan(Normal, w + "?", id, [], []))
  {
    var id := [OptionalStart] + w + [OptionalEnd];
    Next(id, 0, Start);
    assert id[0] == OptionalStart;
    var s1 := ScanTo(id, 1).value;
    assert s1.state == Optional && s1.segment == "" && s1.raw == [OptionalStart] && s1.segments == [] && s1.raws == [];
    assert id[1..1 + |w|] == w;
    AppendRun(id, 1, 1 + |w|, s1);
    var s2 := ScanTo(id, 1 + |w|).value;
    assert s2 == Scan(Optional, w, [OptionalStart] + w, [], []);
    CloseOptional(id, 1 + |w|, s2);
  }

  /** An id read as one pending segment, with none pushed before it, pushes that segment alone. */
  lemma SingleSegment(routeId: string, segment: string)
    requires ScanTo(routeId, |routeId|) == Success(Scan(Normal, segment, routeId, [], []))
    requires segment != "" && '*' !in routeId && ':' !in routeId && '/' !in routeId
    ensures AllSegments(routeId) == Success(([segment], [routeId]))
  {
    assert [] + [segment] == [segment] && [] + [routeId] == [routeId];
  }

  /** A segment in `[...]` is taken verbatim, separators included, and the brackets are dropped. */
  lemma EscapedSegment(w: string)
    requires w != "" && EscapeEnd !in w && '*' !in w && ':' !in w && '/' !in w
    ensures RouteSegments([EscapeStart] + w + [EscapeEnd]) == Success(Some(w))
  {
    var id := [EscapeStart] + w + [EscapeEnd];
    ScanEscaped(w);
    SingleSegment(id, w);
    assert !EndsWith(id, "_index") by {
      assert id[|id| - 1] != "_index"[5];
    }
    TemplateOfSegments(id, [w], [id]);
    assert !Pathless(w, id) by {
      assert RemoveFirst(id, OptionalStart)[0] == EscapeStart;
    }
    assert Shown([w], [id]) == [w];
  }

  /** The one segment `w?` read from `(w)` is shown as is, unless `w` starts with `_`. */
  lemma ShownOptional(w: string)
    requires w != ""
    ensures Shown([w + "?"], [[OptionalStart] + w + [OptionalEnd]]) == if w[0] == '_' then [] else [w + "?"]
  {
    var id := [OptionalStart] + w + [OptionalEnd];
    assert RemoveFirst(id, OptionalStart) == w + [OptionalEnd] by {
      assert id[0] == OptionalStart && id[1..] == w + [OptionalEnd];
    }
    assert (w + "?")[0] == w[0] && (w + [OptionalEnd])[0] == w[0];
    assert Pathless(w + "?", id) <==> w[0] == '_';
    assert !EndsWith(w + "?", "_");
    assert Shown([w + "?"], [id]) == if w[0] == '_' then [] else [w + "?"];
  }

  /**
   * A segment in `(...)` is optional: its text gains a `?`, unless it starts with `_`, in which
   * case it is a pathless layout segment and nothing is left.
   */
  lemma OptionalSegment(w: string)
    requires w != "" && OptionalEnd !in w && EscapeStart !in w && ParamPrefixChar !in w
    requires '*' !in w && ':' !in w && '/' !in w
    ensures RouteSegments([OptionalStart] + w + [OptionalEnd]) == Success(if w[0] == '_' then None else Some(w + "?"))
  {
    var id := [OptionalStart] + w + [OptionalEnd];
    ScanOptional(w);
    SingleSegment(id, w + "?");
    assert !EndsWith(id, "_index") by {
      assert id[|id| - 1] != "_index"[5];
    }
    TemplateOfSegments(id, [w + "?"], [id]);
    ShownOptional(w);
  }
}
