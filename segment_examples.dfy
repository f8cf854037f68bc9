/**
 * Route ids from the flat-routes test table and the URL templates `getRouteSegments` gives them.
 * Each shape is proved once for every id of that shape, then instantiated with the table's id.
 */
module SegmentExamples {
  import opened Wrappers
  import opened JsString
  import opened Segments

  /** A character with no meaning to the scanner: copied as-is in every state and accepted by the push checks. */
  predicate Plain(c: char) {
    c != '/' && c != '.' && c != '\\' && c != EscapeStart && c != EscapeEnd && c != OptionalStart &&
    c != OptionalEnd && c != ParamPrefixChar && c != '*' && c != ':'
  }

  lemma PlainAppends(id: string, i: nat, j: nat, state: ScanState)
    requires i <= j <= |id| && forall k :: i <= k < j ==> Plain(id[k])
    ensures forall k :: i <= k < j ==> Appends(state, id[k])
  {
  }

  lemma PlainFree(w: string)
    requires forall k :: 0 <= k < |w| ==> Plain(w[k])
    ensures '*' !in w && ':' !in w && '/' !in w && OptionalStart !in w
  {
  }

  /** A slice is its first character, the inside and its last character. */
  lemma SliceAround(id: string, i: nat, n: nat)
    requires i < n < |id|
    ensures id[i..n + 1] == [id[i]] + id[i + 1..n] + [id[n]]
  {
  }

  /** A plain name that starts with `_` is a pathless layout segment. */
  lemma LayoutPathless(l: string)
    requires |l| > 0 && l[0] == '_' && forall k :: 0 <= k < |l| ==> Plain(l[k])
    ensures Pathless(l, l)
  {
    PlainFree(l);
    assert l[..1] == "_";
  }

  /** `$` alone is a splat. */
  lemma SplatAlone()
    ensures RouteSegments("$") == Success(Some("*"))
  {
    ParamStep("$", 0, Start);
    var s1 := ScanTo("$", 1).value;
    assert s1.segment == "*" && s1.raw == "$" && s1.segments == [] && s1.raws == [];
    assert |"$"| == 1;
    assert "$" == [ParamPrefixChar] && '*' !in "$" && ':' !in "$" && '/' !in "$";
    assert [] + ["*"] == ["*"] && [] + ["$"] == ["$"];
    assert Push([], [], "*", "$", "$") == Success((["*"], ["$"]));
    assert AllSegments("$") == Success((["*"], ["$"]));
    assert !EndsWith("$", "_index");
    assert !Pathless("*", "$");
    assert Shown(["*"], ["$"]) == ["*"];
  }

  /** Reading `_layout.$name`: the layout segment is pushed, the parameter is pending. */
  lemma PathlessThenParamScan(id: string, n: nat)
    requires 0 < n && n + 2 < |id| && id[n] == '.' && id[n + 1] == ParamPrefixChar
    requires forall k :: 0 <= k < n ==> Plain(id[k])
    requires forall k :: n + 2 <= k < |id| ==> Plain(id[k])
    ensures ScanTo(id, |id|).Success?
    ensures var sc := ScanTo(id, |id|).value;
      sc.segment == ":" + id[n + 2..] && sc.raw == "$" + id[n + 2..] &&
      sc.segments == [id[..n]] && sc.raws == [id[..n]]
  {
    PlainAppends(id, 0, n, Normal);
    PlainAppends(id, n + 2, |id|, Normal);
    PlainFree(id[..n]);
    AppendRun(id, 0, n, Start);
    var s1 := ScanTo(id, n).value;
    SeparatorStep(id, n, s1);
    var s2 := ScanTo(id, n + 1).value;
    ParamStep(id, n + 1, s2);
    var s3 := ScanTo(id, n + 2).value;
    assert s1.segment == id[..n] == s1.raw;
    assert s3.segments == [s1.segment] && s3.raws == [s1.raw];
    assert s3.segment == ":" && s3.raw == "$";
    AppendRun(id, n + 2, |id|, s3);
  }

  /** `_layout.$name`: the pathless layout segment disappears and the parameter is `:name`. */
  lemma PathlessThenParam(id: string, n: nat)
    requires 0 < n && n + 2 < |id| && id[0] == '_' && id[n] == '.' && id[n + 1] == ParamPrefixChar
    requires forall k :: 0 <= k < n ==> Plain(id[k])
    requires forall k :: n + 2 <= k < |id| ==> Plain(id[k])
    requires id[|id| - 1] != '_' && !EndsWith(id, "_index")
    ensures RouteSegments(id) == Success(Some(":" + id[n + 2..]))
  {
    PathlessThenParamScan(id, n);
    var rest := id[n + 2..];
    PlainFree(rest);
    PlainFree(id[..n]);
    var segment := ":" + rest;
    var raw := "$" + rest;
    assert '*' !in raw && ':' !in raw && '/' !in raw;
    var pushed := Push([id[..n]], [id[..n]], segment, raw, id);
    assert [id[..n]] + [segment] == [id[..n], segment] && [id[..n]] + [raw] == [id[..n], raw];
    assert pushed == Success(([id[..n], segment], [id[..n], raw]));
    assert AllSegments(id) == pushed;
    assert Pathless(id[..n], id[..n]);
    assert !Pathless(segment, raw);
    assert !EndsWith(segment, "_") by {
      assert segment[|segment| - 1] == id[|id| - 1];
    }
    assert [id[..n], segment][..1] == [id[..n]] && [id[..n], raw][..1] == [id[..n]];
    assert Shown([id[..n]], [id[..n]]) == [];
    assert Shown([id[..n], segment], [id[..n], raw]) == [segment];
    assert [id[..n], raw][..2] == [id[..n], raw];
    assert RouteSegmentList(id) == Success([segment]);
    assert Join([segment], "/") == segment;
  }

  /** `_about.$splat` (a parameter after a pathless layout) gives `:splat`. */
  lemma AboutSplat()
    ensures RouteSegments("_about.$splat") == Success(Some(":splat"))
  {
    var id := "_about.$splat";
    assert |id| == 13 && id[0] == '_' && id[6] == '.' && id[7] == ParamPrefixChar && id[12] != '_';
    assert forall k :: 0 <= k < 6 ==> Plain(id[k]);
    assert forall k :: 8 <= k < 13 ==> Plain(id[k]);
    assert !EndsWith(id, "_index") by {
      assert id[7..][0] != "_index"[0];
    }
    assert ":" + id[8..] == ":splat";
    PathlessThenParam(id, 6);
  }

  /** From a segment start, `name` followed by a separator pushes `name` as both display and raw text. */
  lemma PlainThenSeparator(id: string, i: nat, n: nat, sc: Scan)
    requires i < n < |id| && ScanTo(id, i) == Success(sc)
    requires sc.state == Normal && sc.segment == "" && sc.raw == ""
    requires (forall k :: i <= k < n ==> Plain(id[k])) && id[n] == '.'
    ensures ScanTo(id, n + 1).Success?
    ensures var r := ScanTo(id, n + 1).value;
      r.state == Normal && r.segment == "" && r.raw == "" &&
      r.segments == sc.segments + [id[i..n]] && r.raws == sc.raws + [id[i..n]]
  {
    PlainAppends(id, i, n, Normal);
    PlainFree(id[i..n]);
    AppendRun(id, i, n, sc);
    var s1 := ScanTo(id, n).value;
    assert s1.segment == id[i..n] == s1.raw;
    SeparatorStep(id, n, s1);
  }

  /** From a segment start, `(name)` leaves the pending segment `name?` with raw text `(name)`. */
  lemma OptionalScan(id: string, i: nat, n: nat, sc: Scan)
    requires i + 1 < n < |id| && ScanTo(id, i) == Success(sc)
    requires sc.state == Normal && sc.segment == "" && sc.raw == ""
    requires id[i] == OptionalStart && (forall k :: i + 1 <= k < n ==> Plain(id[k])) && id[n] == OptionalEnd
    ensures ScanTo(id, n + 1).Success?
    ensures var r := ScanTo(id, n + 1).value;
      r.state == Normal && r.segment == id[i + 1..n] + "?" && r.raw == id[i..n + 1] &&
      r.segments == sc.segments && r.raws == sc.raws
  {
    Next(id, i, sc);
    var s1 := ScanTo(id, i + 1).value;
    assert s1.state == Optional && s1.segment == "" && s1.raw == [OptionalStart];
    PlainAppends(id, i + 1, n, Optional);
    AppendRun(id, i + 1, n, s1);
    var s2 := ScanTo(id, n).value;
    Next(id, n, s2);
    var s3 := ScanTo(id, n + 1).value;
    assert s3.raw == [OptionalStart] + id[i + 1..n] + [OptionalEnd];
    SliceAround(id, i, n);
  }

  /** From a segment start, `(name)` followed by a separator pushes `name?`, with raw text `(name)`. */
  lemma OptionalThenSeparator(id: string, i: nat, n: nat, sc: Scan)
    requires i + 1 < n && n + 1 < |id| && ScanTo(id, i) == Success(sc)
    requires sc.state == Normal && sc.segment == "" && sc.raw == ""
    requires id[i] == OptionalStart && (forall k :: i + 1 <= k < n ==> Plain(id[k])) && id[n] == OptionalEnd && id[n + 1] == '.'
    ensures ScanTo(id, n + 2).Success?
    ensures var r := ScanTo(id, n + 2).value;
      r.state == Normal && r.segment == "" && r.raw == "" &&
      r.segments == sc.segments + [id[i + 1..n] + "?"] && r.raws == sc.raws + [id[i..n + 1]]
  {
    OptionalScan(id, i, n, sc);
    var s := ScanTo(id, n + 1).value;
    PlainFree(id[i + 1..n]);
    assert forall x :: x in s.raw ==> x == OptionalStart || x == OptionalEnd || x in id[i + 1..n] by {
      assert s.raw == [OptionalStart] + id[i + 1..n] + [OptionalEnd];
    }
    SeparatorStep(id, n + 1, s);
  }

  lemma BracketedFree(id: string, i: nat)
    requires i + 3 < |id| && id[i] == OptionalStart && id[i + 1] == ParamPrefixChar && id[|id| - 1] == OptionalEnd
    requires forall k :: i + 2 <= k < |id| - 1 ==> Plain(id[k])
    ensures '*' !in id[i..] && ':' !in id[i..] && '/' !in id[i..]
  {
    assert forall k :: i <= k < |id| ==> id[k] != '*' && id[k] != ':' && id[k] != '/';
  }

  /** From a segment start, a final `($name)` leaves the pending segment `:name?` with raw text `($name)`. */
  lemma OptionalParamAtEnd(id: string, i: nat, sc: Scan)
    requires i + 3 < |id| && ScanTo(id, i) == Success(sc)
    requires sc.state == Normal && sc.segment == "" && sc.raw == ""
    requires id[i] == OptionalStart && id[i + 1] == ParamPrefixChar && id[|id| - 1] == OptionalEnd
    requires forall k :: i + 2 <= k < |id| - 1 ==> Plain(id[k])
    ensures ScanTo(id, |id|).Success?
    ensures var r := ScanTo(id, |id|).value;
      r.state == Normal && r.segment == ":" + id[i + 2..|id| - 1] + "?" && r.raw == id[i..] &&
      r.segments == sc.segments && r.raws == sc.raws
    ensures '*' !in id[i..] && ':' !in id[i..] && '/' !in id[i..]
  {
    var name := id[i + 2..|id| - 1];
    BracketedFree(id, i);
    OptionalParamRun(id, i, sc);
    CloseOptional(id, |id| - 1, Scan(Optional, ":" + name, [OptionalStart, ParamPrefixChar] + name, sc.segments, sc.raws));
    assert id[i..] == [OptionalStart, ParamPrefixChar] + name + [OptionalEnd];
  }

  /** From a segment start, `($` and the name after it up to the last character are read inside the parentheses. */
  lemma OptionalParamRun(id: string, i: nat, sc: Scan)
    requires i + 3 < |id| && ScanTo(id, i) == Success(sc)
    requires sc.state == Normal && sc.segment == "" && sc.raw == ""
    requires id[i] == OptionalStart && id[i + 1] == ParamPrefixChar
    requires forall k :: i + 2 <= k < |id| - 1 ==> Plain(id[k])
    ensures ScanTo(id, |id| - 1) == Success(Scan(Optional, ":" + id[i + 2..|id| - 1],
      [OptionalStart, ParamPrefixChar] + id[i + 2..|id| - 1], sc.segments, sc.raws))
  {
    OpenOptionalParam(id, i, sc);
    assert sc.raw + [OptionalStart, ParamPrefixChar] == [OptionalStart, ParamPrefixChar];
    var s2 := Scan(Optional, ":", [OptionalStart, ParamPrefixChar], sc.segments, sc.raws);
    PlainAppends(id, i + 2, |id| - 1, Optional);
    AppendRun(id, i + 2, |id| - 1, s2);
  }

  /** From a segment start, `($` followed by more text opens an optional parameter. */
  lemma OpenOptionalParam(id: string, i: nat, sc: Scan)
    requires i + 2 < |id| && ScanTo(id, i) == Success(sc)
    requires sc.state == Normal && sc.segment == "" && id[i] == OptionalStart && id[i + 1] == ParamPrefixChar
    ensures ScanTo(id, i + 2) == Success(Scan(Optional, ":", sc.raw + [OptionalStart, ParamPrefixChar], sc.segments, sc.raws))
  {
    Next(id, i, sc);
    var s1 := ScanTo(id, i + 1).value;
    assert s1 == Scan(Optional, "", sc.raw + [OptionalStart], sc.segments, sc.raws);
    var j := i + 1;
    ParamStep(id, j, s1);
    assert sc.raw + [OptionalStart] + [ParamPrefixChar] == sc.raw + [OptionalStart, ParamPrefixChar];
  }

  /** Reading `(name).$` pushes `name?` and then the splat `*`. */
  lemma OptionalThenSplatSegments(id: string, n: nat)
    requires 1 < n && |id| == n + 3 && id[0] == OptionalStart && id[n] == OptionalEnd
    requires (forall k :: 1 <= k < n ==> Plain(id[k])) && id[n + 1] == '.' && id[n + 2] == ParamPrefixChar
    ensures AllSegments(id) == Success(([id[1..n] + "?", "*"], [id[..n + 1], "$"]))
  {
    OptionalThenSeparator(id, 0, n, Start);
    var s := ScanTo(id, n + 2).value;
    ParamStep(id, n + 2, s);
    var a := id[1..n] + "?";
    var ra := id[..n + 1];
    assert s.segments == [a] && s.raws == [ra];
    assert [a] + ["*"] == [a, "*"] && [ra] + ["$"] == [ra, "$"];
    var sc := ScanTo(id, |id|).value;
    assert sc.segment == "*" && sc.raw == [ParamPrefixChar];
    assert '*' !in sc.raw && ':' !in sc.raw && '/' !in sc.raw;
  }

  /** `(name).$`: an optional segment followed by a splat. */
  lemma OptionalThenSplat(id: string, n: nat)
    requires 1 < n && |id| == n + 3 && id[0] == OptionalStart && id[1] != '_' && id[n] == OptionalEnd
    requires (forall k :: 1 <= k < n ==> Plain(id[k])) && id[n + 1] == '.' && id[n + 2] == ParamPrefixChar
    ensures RouteSegments(id) == Success(Some(id[1..n] + "?" + "/" + "*"))
  {
    OptionalThenSplatSegments(id, n);
    var a := id[1..n] + "?";
    var ra := id[..n + 1];
    var segments := [a, "*"];
    var raws := [ra, "$"];
    assert !EndsWith(id, "_index") by {
      assert id[|id| - 1] != "_index"[5];
    }
    TemplateOfSegments(id, segments, raws);
    assert a[0] == id[1];
    assert !Pathless(a, ra) && !EndsWith(a, "_");
    assert !Pathless("*", "$") && !EndsWith("*", "_");
    assert segments[..1] == [a] && raws[..1] == [ra];
    assert Shown([a], [ra]) == [a] by {
      assert [a][..0] == [] && [ra][..0] == [];
    }
    assert Shown(segments, raws) == segments;
    assert Join(segments, "/") == a + "/" + "*";
  }

  /** `(routes).$`, a splat after an optional segment, gives the optional `routes?` followed by the splat `*`. */
  lemma OptionalRoutesSplat()
    ensures RouteSegments("(routes).$") == Success(Some("routes?/*"))
  {
    var id := "(routes).$";
    assert |id| == 10 && id[0] == OptionalStart && id[1] != '_' && id[7] == OptionalEnd && id[8] == '.' && id[9] == ParamPrefixChar;
    assert forall k :: 1 <= k < 7 ==> Plain(id[k]);
    assert id[1..7] + "?" + "/" + "*" == "routes?/*";
    OptionalThenSplat(id, 7);
  }

  /** Reading `(name)._layout.($param)` pushes `name?`, `_layout` and `:param?`. */
  lemma OptionalLayoutOptionalParamSegments(id: string, n: nat, m: nat)
    requires 1 < n && n + 2 < m && m + 4 < |id| && id[0] == OptionalStart && id[n] == OptionalEnd
    requires (forall k :: 1 <= k < n ==> Plain(id[k])) && id[n + 1] == '.'
    requires (forall k :: n + 2 <= k < m ==> Plain(id[k])) && id[m] == '.'
    requires id[m + 1] == OptionalStart && id[m + 2] == ParamPrefixChar && id[|id| - 1] == OptionalEnd
    requires forall k :: m + 3 <= k < |id| - 1 ==> Plain(id[k])
    ensures AllSegments(id) == Success((
      [id[1..n] + "?", id[n + 2..m], ":" + id[m + 3..|id| - 1] + "?"],
      [id[..n + 1], id[n + 2..m], id[m + 1..]]))
  {
    OptionalThenSeparator(id, 0, n, Start);
    var s1 := ScanTo(id, n + 2).value;
    PlainThenSeparator(id, n + 2, m, s1);
    var s2 := ScanTo(id, m + 1).value;
    OptionalParamAtEnd(id, m + 1, s2);
    var a := id[1..n] + "?";
    var ra := id[..n + 1];
    var l := id[n + 2..m];
    var c := ":" + id[m + 3..|id| - 1] + "?";
    var rc := id[m + 1..];
    assert s1.segments == [a] && s1.raws == [ra];
    assert s2.segments == [a, l] && s2.raws == [ra, l];
    assert [a, l] + [c] == [a, l, c] && [ra, l] + [rc] == [ra, l, rc];
  }

  /** Post-processing a visible segment, a pathless layout and another visible segment. */
  lemma ShownVisibleLayoutVisible(a: string, ra: string, l: string, c: string, rc: string)
    requires !Pathless(a, ra) && !EndsWith(a, "_") && Pathless(l, l) && !Pathless(c, rc) && !EndsWith(c, "_")
    ensures Shown([a, l, c], [ra, l, rc]) == [a, c]
  {
    assert [a, l, c][..2] == [a, l] && [ra, l, rc][..2] == [ra, l];
    assert [a, l][..1] == [a] && [ra, l][..1] == [ra];
    assert Shown([a], [ra]) == [a] by {
      assert [a][..0] == [] && [ra][..0] == [];
    }
  }

  /** `(name)._layout.($param)`: the optional segment and the optional parameter survive, the layout does not. */
  lemma OptionalLayoutOptionalParam(id: string, n: nat, m: nat)
    requires 1 < n && n + 2 < m && m + 4 < |id| && id[0] == OptionalStart && id[1] != '_' && id[n] == OptionalEnd
    requires (forall k :: 1 <= k < n ==> Plain(id[k])) && id[n + 1] == '.' && id[n + 2] == '_'
    requires (forall k :: n + 2 <= k < m ==> Plain(id[k])) && id[m] == '.'
    requires id[m + 1] == OptionalStart && id[m + 2] == ParamPrefixChar && id[|id| - 1] == OptionalEnd
    requires forall k :: m + 3 <= k < |id| - 1 ==> Plain(id[k])
    ensures RouteSegments(id) == Success(Some((id[1..n] + "?") + "/" + (":" + id[m + 3..|id| - 1] + "?")))
  {
    OptionalLayoutOptionalParamSegments(id, n, m);
    var a := id[1..n] + "?";
    var ra := id[..n + 1];
    var l := id[n + 2..m];
    var c := ":" + id[m + 3..|id| - 1] + "?";
    var rc := id[m + 1..];
    assert !EndsWith(id, "_index") by {
      assert id[|id| - 1] != "_index"[5];
    }
    TemplateOfSegments(id, [a, l, c], [ra, l, rc]);
    assert a[0] == id[1] && l[0] == '_';
    PlainFree(l);
    assert !Pathless(a, ra) && !EndsWith(a, "_");
    assert Pathless(l, l);
    assert !Pathless(c, rc) && !EndsWith(c, "_");
    ShownVisibleLayoutVisible(a, ra, l, c, rc);
    assert Join([a, c], "/") == a + "/" + c;
  }

  /** The shape of the id `(nested)._layout.($slug)`. */
  lemma NestedLayoutShape(id: string)
    requires id == "(nested)._layout.($slug)"
    ensures |id| == 24 && id[0] == OptionalStart && id[1] != '_' && id[7] == OptionalEnd && id[8] == '.' && id[9] == '_'
    ensures id[16] == '.' && id[17] == OptionalStart && id[18] == ParamPrefixChar && id[23] == OptionalEnd
    ensures id[1..7] == "nested" && id[19..23] == "slug"
  {
    assert id[1] == 'n' && id[2] == 'e' && id[3] == 's' && id[4] == 't' && id[5] == 'e' && id[6] == 'd';
    assert id[19] == 's' && id[20] == 'l' && id[21] == 'u' && id[22] == 'g';
  }

  /** The names in `(nested)._layout.($slug)` are plain. */
  lemma NestedLayoutPlain(id: string)
    requires id == "(nested)._layout.($slug)"
    ensures |id| == 24
    ensures (forall k :: 1 <= k < 7 ==> Plain(id[k])) && (forall k :: 9 <= k < 16 ==> Plain(id[k]))
    ensures forall k :: 19 <= k < 23 ==> Plain(id[k])
  {
  }

  /** `(nested)._layout.($slug)` gives `nested?/:slug?`. */
  lemma NestedLayoutOptionalParam()
    ensures RouteSegments("(nested)._layout.($slug)") == Success(Some("nested?/:slug?"))
  {
    var id := "(nested)._layout.($slug)";
    NestedLayoutShape(id);
    NestedLayoutPlain(id);
    assert ("nested" + "?") + "/" + (":" + "slug" + "?") == "nested?/:slug?";
    OptionalLayoutOptionalParam(id, 7, 16);
  }

  /** From a segment start, a final `[text]` leaves the pending segment `text` with raw text `[text]`. */
  lemma EscapedAtEnd(id: string, i: nat, sc: Scan)
    requires i + 2 < |id| && ScanTo(id, i) == Success(sc)
    requires sc.state == Normal && sc.segment == "" && sc.raw == ""
    requires id[i] == EscapeStart && id[|id| - 1] == EscapeEnd
    requires forall k :: i + 1 <= k < |id| - 1 ==> id[k] != EscapeEnd
    ensures ScanTo(id, |id|).Success?
    ensures var r := ScanTo(id, |id|).value;
      r.state == Normal && r.segment == id[i + 1..|id| - 1] && r.raw == id[i..] &&
      r.segments == sc.segments && r.raws == sc.raws
  {
    var w := id[i + 1..|id| - 1];
    EscapedRun(id, i, sc);
    CloseEscape(id, |id| - 1, Scan(Escape, w, [EscapeStart] + w, sc.segments, sc.raws));
    SliceAround(id, i, |id| - 1);
    assert id[i..|id|] == id[i..];
  }

  /** From a segment start, `[` and the text after it up to the last character are read inside brackets. */
  lemma EscapedRun(id: string, i: nat, sc: Scan)
    requires i + 2 < |id| && ScanTo(id, i) == Success(sc)
    requires sc.state == Normal && sc.segment == "" && sc.raw == "" && id[i] == EscapeStart
    requires forall k :: i + 1 <= k < |id| - 1 ==> id[k] != EscapeEnd
    ensures ScanTo(id, |id| - 1)
         == Success(Scan(Escape, id[i + 1..|id| - 1], [EscapeStart] + id[i + 1..|id| - 1], sc.segments, sc.raws))
  {
    Next(id, i, sc);
    var s1 := ScanTo(id, i + 1).value;
    assert s1 == Scan(Escape, "", [EscapeStart], sc.segments, sc.raws);
    AppendRun(id, i + 1, |id| - 1, s1);
    assert "" + id[i + 1..|id| - 1] == id[i + 1..|id| - 1];
  }

  /** Reading `_layout.[text]` pushes the layout and then `text`, brackets dropped. */
  lemma PathlessThenEscapedSegments(id: string, n: nat)
    requires 0 < n && n + 3 < |id| && id[n] == '.' && id[n + 1] == EscapeStart && id[|id| - 1] == EscapeEnd
    requires forall k :: 0 <= k < n ==> Plain(id[k])
    requires forall k :: n + 2 <= k < |id| - 1 ==> id[k] != EscapeEnd && id[k] != '*' && id[k] != ':' && id[k] != '/'
    ensures AllSegments(id) == Success(([id[..n], id[n + 2..|id| - 1]], [id[..n], id[n + 1..]]))
  {
    PlainThenSeparator(id, 0, n, Start);
    var s1 := ScanTo(id, n + 1).value;
    EscapedAtEnd(id, n + 1, s1);
    var w := id[n + 2..|id| - 1];
    var rw := id[n + 1..];
    assert s1.segments == [id[..n]] && s1.raws == [id[..n]];
    assert [id[..n]] + [w] == [id[..n], w] && [id[..n]] + [rw] == [id[..n], rw];
    assert forall k :: n + 1 <= k < |id| ==> id[k] != '*' && id[k] != ':' && id[k] != '/';
    assert '*' !in rw && ':' !in rw && '/' !in rw;
  }

  /** Post-processing a pathless layout followed by a visible segment. */
  lemma ShownLayoutVisible(l: string, c: string, rc: string)
    requires Pathless(l, l) && !Pathless(c, rc) && Visible(c, rc) == c
    ensures Shown([l, c], [l, rc]) == [c]
  {
    assert [l, c][..1] == [l] && [l, rc][..1] == [l];
    assert Shown([l], [l]) == [] by {
      assert [l][..0] == [];
    }
  }

  /** `_layout.[text]`: the layout disappears and the escaped text, separators and all, is the template. */
  lemma PathlessThenEscaped(id: string, n: nat)
    requires 0 < n && n + 3 < |id| && id[0] == '_' && id[n] == '.' && id[n + 1] == EscapeStart && id[|id| - 1] == EscapeEnd
    requires forall k :: 0 <= k < n ==> Plain(id[k])
    requires forall k :: n + 2 <= k < |id| - 1 ==> id[k] != EscapeEnd && id[k] != '*' && id[k] != ':' && id[k] != '/'
    ensures RouteSegments(id) == Success(Some(id[n + 2..|id| - 1]))
  {
    PathlessThenEscapedSegments(id, n);
    var l := id[..n];
    var w := id[n + 2..|id| - 1];
    var rw := id[n + 1..];
    assert !EndsWith(id, "_index") by {
      assert id[|id| - 1] != "_index"[5];
    }
    TemplateOfSegments(id, [l, w], [l, rw]);
    LayoutPathless(l);
    assert !Pathless(w, rw) by {
      assert RemoveFirst(rw, OptionalStart)[0] == EscapeStart;
    }
    assert !EndsWith(rw, "_") by {
      assert rw[|rw| - 1] == EscapeEnd;
    }
    ShownLayoutVisible(l, w, rw);
  }

  /** `_about.[.]` gives `.`: an escaped dot is a literal dot, not a separator. */
  lemma AboutEscapedDot()
    ensures RouteSegments("_about.[.]") == Success(Some("."))
  {
    var id := "_about.[.]";
    assert |id| == 10 && id[0] == '_' && id[6] == '.' && id[7] == EscapeStart && id[8] == '.' && id[9] == EscapeEnd;
    assert forall k :: 0 <= k < 6 ==> Plain(id[k]);
    assert id[8..9] == ".";
    PathlessThenEscaped(id, 6);
  }

  /** Reading `name._index` pushes `name` and then `_index`. */
  lemma IndexSegments(id: string, n: nat)
    requires 0 < n && n + 1 < |id| && id[n] == '.'
    requires (forall k :: 0 <= k < n ==> Plain(id[k])) && (forall k :: n + 1 <= k < |id| ==> Plain(id[k]))
    ensures AllSegments(id) == Success(([id[..n], id[n + 1..]], [id[..n], id[n + 1..]]))
  {
    PlainThenSeparator(id, 0, n, Start);
    var s1 := ScanTo(id, n + 1).value;
    PlainAppends(id, n + 1, |id|, Normal);
    AppendRun(id, n + 1, |id|, s1);
    var w := id[n + 1..];
    assert id[n + 1..|id|] == w;
    PlainFree(w);
    assert s1.segments == [id[..n]] && s1.raws == [id[..n]];
    var s2 := ScanTo(id, |id|).value;
    assert s2.segment == w && s2.raw == w && s2.segments == [id[..n]] && s2.raws == [id[..n]];
    assert [id[..n]] + [w] == [id[..n], w];
  }

  /**
   * `name._index`: the `_index` segment is dropped, so the template is `name`, or nothing at all
   * when `name` is a pathless layout.
   */
  lemma IndexRoute(id: string, n: nat)
    requires 0 < n && n + 1 < |id| && id[n] == '.' && id[n - 1] != '_' && EndsWith(id, "_index")
    requires (forall k :: 0 <= k < n ==> Plain(id[k])) && (forall k :: n + 1 <= k < |id| ==> Plain(id[k]))
    ensures RouteSegments(id) == Success(if id[0] == '_' then None else Some(id[..n]))
  {
    IndexSegments(id, n);
    var l := id[..n];
    var segments := [l, id[n + 1..]];
    var raws := [l, id[n + 1..]];
    AllSegmentsShape(id);
    assert segments[..1] == [l] && raws[..1] == [l];
    PlainFree(l);
    assert Pathless(l, l) <==> id[0] == '_';
    assert !EndsWith(l, "_");
    assert [l][..0] == [];
    assert Shown([l], [l]) == if id[0] == '_' then [] else [l];
  }

  /** `_landing._index` gives no template: the index route of a pathless layout. */
  lemma LandingIndex()
    ensures RouteSegments("_landing._index") == Success(None)
  {
    var id := "_landing._index";
    assert |id| == 15 && id[0] == '_' && id[8] == '.' && id[7] == 'g';
    assert forall k :: 0 <= k < 8 ==> Plain(id[k]);
    assert forall k :: 9 <= k < 15 ==> Plain(id[k]);
    assert id[9] == '_' && id[10] == 'i' && id[11] == 'n' && id[12] == 'd' && id[13] == 'e' && id[14] == 'x';
    assert EndsWith(id, "_index");
    IndexRoute(id, 8);
  }
}
