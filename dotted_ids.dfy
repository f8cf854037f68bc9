/**
 * Route ids made of plain words joined by `.`, each word possibly opened by `$`: the shape of
 * most ids the two conventions produce. Each word becomes one segment, and a `$` that opens a
 * word turns into `:` (or `*` when it is the id's last character).
 */
module DottedIds {
  import opened Wrappers
  import opened JsString
  import opened Segments
  import opened SegmentExamples

  /** A word of a dotted id: non-empty, plain characters, except that it may open with `$`. */
  predicate Word(w: string) {
    w != "" && (Plain(w[0]) || w[0] == ParamPrefixChar) && forall k :: 1 <= k < |w| ==> Plain(w[k])
  }

  /** Every one of `ws` is a word. */
  predicate Words(ws: seq<string>) {
    forall k :: 0 <= k < |ws| ==> Word(ws[k])
  }

  /** The first of several words is a word, and the others are words. */
  lemma WordsSplit(ws: seq<string>)
    requires |ws| >= 1 && Words(ws)
    ensures Word(ws[0]) && Words(ws[1..])
  {
    forall k | 0 <= k < |ws| - 1 ensures Word(ws[1..][k]) {
      assert ws[1..][k] == ws[k + 1];
    }
  }

  /** The display text of a word: an opening `$` becomes a parameter, or a splat when it ends the id. */
  function Display(w: string, last: bool): string
    requires w != ""
  {
    if w[0] == ParamPrefixChar then ParamText(last && |w| == 1) + w[1..] else w
  }

  /** The display texts of the words, the last one read as ending the id. */
  function Displays(ws: seq<string>): (ds: seq<string>)
    requires |ws| >= 1 && Words(ws)
    ensures |ds| == |ws|
    decreases |ws|
  {
    WordsSplit(ws);
    if |ws| == 1 then [Display(ws[0], true)]
    else [Display(ws[0], false)] + Displays(ws[1..])
  }

  /** Reading one word from an empty segment leaves its display and raw text pending. */
  lemma WordRun(id: string, i: nat, w: string, segments: seq<string>, raws: seq<string>)
    requires i + |w| <= |id| && id[i..i + |w|] == w && Word(w)
    requires ScanTo(id, i) == Success(Scan(Normal, "", "", segments, raws))
    ensures ScanTo(id, i + |w|) == Success(Scan(Normal, Display(w, i + |w| == |id|), w, segments, raws))
  {
    var j := i + |w|;
    assert forall k :: i + 1 <= k < j ==> Plain(id[k]) by {
      forall k | i + 1 <= k < j ensures Plain(id[k]) {
        assert id[k] == w[k - i];
      }
    }
    assert id[i] == w[0];
    if w[0] == ParamPrefixChar {
      var sc := Scan(Normal, "", "", segments, raws);
      ParamStep(id, i, sc);
      var s1 := ScanTo(id, i + 1).value;
      assert s1 == Scan(Normal, ParamText(i + 1 == |id|), [ParamPrefixChar], segments, raws);
      PlainAppends(id, i + 1, j, Normal);
      AppendRun(id, i + 1, j, s1);
      assert id[i + 1..j] == w[1..];
      assert [ParamPrefixChar] + w[1..] == w;
      assert (i + 1 == |id|) == (j == |id| && |w| == 1);
      var s2 := ScanTo(id, j).value;
      assert s2.segment == ParamText(i + 1 == |id|) + w[1..];
      assert s2.raw == w;
      assert s2.state == Normal && s2.segments == segments && s2.raws == raws;
    } else {
      assert Plain(id[i]);
      PlainAppends(id, i, j, Normal);
      AppendRun(id, i, j, Scan(Normal, "", "", segments, raws));
      assert "" + id[i..j] == w;
      assert Display(w, j == |id|) == w;
    }
  }

  /** A word's display text is never empty, and its raw text passes the push checks. */
  lemma WordPushes(w: string, last: bool)
    requires Word(w)
    ensures Display(w, last) != "" && '*' !in w && ':' !in w && '/' !in w
  {
    assert forall c :: c in w ==> c == w[0] || c in w[1..];
  }

  /** The last word of the id is pushed by the final push. */
  lemma LastWord(id: string, w: string, i: nat, segments: seq<string>, raws: seq<string>)
    requires Word(w) && i <= |id| && id[i..] == w
    requires ScanTo(id, i) == Success(Scan(Normal, "", "", segments, raws))
    ensures AllSegments(id) == Success((segments + [Display(w, true)], raws + [w]))
  {
    var j := i + |w|;
    assert id[i..j] == w && j == |id|;
    WordRun(id, i, w, segments, raws);
    WordPushes(w, true);
    var d := Display(w, true);
    assert ScanTo(id, |id|) == Success(Scan(Normal, d, w, segments, raws));
    assert Push(segments, raws, d, w, id) == Success((segments + [d], raws + [w]));
  }

  /** A word followed by `.` is pushed by the separator, leaving an empty segment after the dot. */
  lemma WordThenDot(id: string, w: string, i: nat, segments: seq<string>, raws: seq<string>)
    requires Word(w) && i + |w| < |id| && id[i..i + |w|] == w && id[i + |w|] == '.'
    requires ScanTo(id, i) == Success(Scan(Normal, "", "", segments, raws))
    ensures ScanTo(id, i + |w| + 1) == Success(Scan(Normal, "", "", segments + [Display(w, false)], raws + [w]))
  {
    var j := i + |w|;
    WordRun(id, i, w, segments, raws);
    WordPushes(w, false);
    var sc := ScanTo(id, j).value;
    SeparatorStep(id, j, sc);
  }

  /** The text from `i` on is the first word, a dot, and the other words. */
  lemma DottedSplit(id: string, ws: seq<string>, i: nat)
    requires |ws| >= 2 && i <= |id| && id[i..] == Join(ws, ".")
    ensures var j := i + |ws[0]|; j < |id| && id[i..j] == ws[0] && id[j] == '.' && id[j + 1..] == Join(ws[1..], ".")
  {
    var w := ws[0];
    var rest := Join(ws[1..], ".");
    assert id[i..] == w + "." + rest;
    assert id[i..][..|w|] == w;
  }

  /** From an empty segment at `i`, the words that make up the rest of the id are pushed one by one. */
  lemma {:induction false} WordsFrom(id: string, ws: seq<string>, i: nat, segments: seq<string>, raws: seq<string>)
    requires |ws| >= 1 && Words(ws)
    requires i <= |id| && id[i..] == Join(ws, ".")
    requires ScanTo(id, i) == Success(Scan(Normal, "", "", segments, raws))
    ensures AllSegments(id) == Success((segments + Displays(ws), raws + ws))
    decreases |ws|
  {
    var w := ws[0];
    WordsSplit(ws);
    if |ws| == 1 {
      LastWord(id, w, i, segments, raws);
      assert Displays(ws) == [Display(w, true)] && ws == [w];
    } else {
      var j := i + |w|;
      DottedSplit(id, ws, i);
      WordThenDot(id, w, i, segments, raws);
      var tail := ws[1..];
      WordsFrom(id, tail, j + 1, segments + [Display(w, false)], raws + [w]);
      DisplaysCons(ws);
      Regroup(segments, Display(w, false), Displays(tail));
      Regroup(raws, w, tail);
      assert [w] + tail == ws;
    }
  }

  /** The displays of several words: the first, not the last of the id, then the others'. */
  lemma DisplaysCons(ws: seq<string>)
    requires |ws| >= 2 && Words(ws)
    ensures Words(ws[1..]) && Displays(ws) == [Display(ws[0], false)] + Displays(ws[1..])
  {
    WordsSplit(ws);
  }

  /** A concatenation regrouped around one element. */
  lemma Regroup<T>(a: seq<T>, x: T, b: seq<T>)
    ensures a + [x] + b == a + ([x] + b)
  {
  }

  /** A dotted id pushes one segment per word: its display text, beside the word itself. */
  lemma DottedSegments(id: string, ws: seq<string>)
    requires |ws| >= 1 && Words(ws) && id == Join(ws, ".")
    ensures AllSegments(id) == Success((Displays(ws), ws))
  {
    assert id[0..] == id;
    assert ScanTo(id, 0) == Success(Scan(Normal, "", "", [], []));
    WordsFrom(id, ws, 0, [], []);
    assert [] + Displays(ws) == Displays(ws) && [] + ws == ws;
  }

  // ----- The URL template of a dotted id -----

  /**
   * A word's text in the URL: a trailing `_` is dropped, and an opening `$` becomes `:` (a lone
   * `$` becomes `*` when it ends the id).
   */
  function WordUrl(w: string, last: bool): string
    requires w != ""
  {
    if w == [ParamPrefixChar] then ParamText(last)
    else
      var core := if w[|w| - 1] == '_' then w[..|w| - 1] else w;
      if w[0] == ParamPrefixChar then ":" + core[1..] else core
  }

  /** The URL texts of the words, leaving out the pathless ones that open with `_`. */
  function Urls(ws: seq<string>, ends: bool): (us: seq<string>)
    requires Words(ws)
    ensures |us| <= |ws|
    decreases |ws|
  {
    if ws == [] then []
    else
      WordsSplit(ws);
      (if ws[0][0] == '_' then [] else [WordUrl(ws[0], ends && |ws| == 1)]) + Urls(ws[1..], ends)
  }

  /** The display texts of the words; the last one ends the id when `ends` holds. */
  function DisplayTexts(ws: seq<string>, ends: bool): (ds: seq<string>)
    requires Words(ws)
    ensures |ds| == |ws|
    decreases |ws|
  {
    if ws == [] then []
    else
      WordsSplit(ws);
      [Display(ws[0], ends && |ws| == 1)] + DisplayTexts(ws[1..], ends)
  }

  /** A single word is dropped when it opens with `_`, and otherwise shown as its URL text. */
  lemma WordShown(w: string, last: bool)
    requires Word(w)
    ensures Shown([Display(w, last)], [w]) == if w[0] == '_' then [] else [WordUrl(w, last)]
  {
    var d := Display(w, last);
    ShownOne(d, w);
    assert OptionalStart !in w by {
      assert forall c :: c in w ==> c == w[0] || c in w[1..];
    }
    assert RemoveFirst(w, OptionalStart) == w;
    if w[0] == ParamPrefixChar {
      assert !Pathless(d, w) by {
        assert d[0] != '_';
      }
      if |w| > 1 {
        assert d == ":" + w[1..];
        assert d[|d| - 1] == w[|w| - 1];
        if w[|w| - 1] == '_' {
          assert Visible(d, w) == d[..|d| - 1];
          assert d[..|d| - 1] == ":" + w[..|w| - 1][1..];
        }
      } else {
        assert w == [ParamPrefixChar] && d == ParamText(last);
        assert !EndsWith(d, "_");
      }
    } else {
      assert d == w;
      assert Pathless(d, w) <==> w[0] == '_';
    }
  }

  /** One segment is shown unless it is pathless. */
  lemma ShownOne(d: string, r: string)
    ensures Shown([d], [r]) == if Pathless(d, r) then [] else [Visible(d, r)]
  {
    var none: seq<string> := [];
    assert [d][..0] == none && [r][..0] == none;
  }

  /** `Shown` of a list is that of all but its last segment, then the last one's contribution. */
  lemma ShownSnoc(s: seq<string>, r: seq<string>, d: string, x: string)
    requires |s| == |r|
    ensures Shown(s + [d], r + [x]) == Shown(s, r) + (if Pathless(d, x) then [] else [Visible(d, x)])
  {
    assert (s + [d])[..|s|] == s && (r + [x])[..|r|] == r;
  }

  /** `Shown` of a concatenation is the concatenation of `Shown`. */
  lemma {:induction false} ShownAppend(s1: seq<string>, r1: seq<string>, s2: seq<string>, r2: seq<string>)
    requires |s1| == |r1| && |s2| == |r2|
    ensures Shown(s1 + s2, r1 + r2) == Shown(s1, r1) + Shown(s2, r2)
    decreases |s2|
  {
    if s2 == [] {
      assert s1 + s2 == s1 && r1 + r2 == r1;
    } else {
      var n := |s2| - 1;
      var s2', r2' := s2[..n], r2[..n];
      var d, x := s2[n], r2[n];
      assert s2 == s2' + [d] && r2 == r2' + [x];
      var a, b := s1 + s2', r1 + r2';
      assert s1 + s2 == a + [d] && r1 + r2 == b + [x];
      ShownAppend(s1, r1, s2', r2');
      ShownSnoc(a, b, d, x);
      ShownSnoc(s2', r2', d, x);
    }
  }

  /** The displays the scanner produces are the display texts with the last word ending the id. */
  lemma {:induction false} DisplaysAreTexts(ws: seq<string>)
    requires |ws| >= 1 && Words(ws)
    ensures Displays(ws) == DisplayTexts(ws, true)
    decreases |ws|
  {
    WordsSplit(ws);
    if |ws| > 1 {
      DisplaysAreTexts(ws[1..]);
    } else {
      assert ws[1..] == [];
    }
  }

  /** Dropping the last word leaves display texts none of which ends the id. */
  lemma {:induction false} DisplayTextsInit(ws: seq<string>)
    requires |ws| >= 1 && Words(ws)
    ensures Words(ws[..|ws| - 1])
    ensures DisplayTexts(ws, true)[..|ws| - 1] == DisplayTexts(ws[..|ws| - 1], false)
    decreases |ws|
  {
    WordsSplit(ws);
    var init := ws[..|ws| - 1];
    assert Words(init) by {
      forall k | 0 <= k < |init| ensures Word(init[k]) {
        assert init[k] == ws[k];
      }
    }
    if |ws| > 1 {
      var tail := ws[1..];
      DisplayTextsInit(tail);
      assert init[1..] == tail[..|tail| - 1];
      assert init[0] == ws[0];
    }
  }

  /** Showing the display texts of words gives their URL texts, the pathless words left out. */
  lemma {:induction false} ShownTexts(ws: seq<string>, ends: bool)
    requires Words(ws)
    ensures Shown(DisplayTexts(ws, ends), ws) == Urls(ws, ends)
    decreases |ws|
  {
    if ws != [] {
      WordsSplit(ws);
      var d := Display(ws[0], ends && |ws| == 1);
      ShownTexts(ws[1..], ends);
      ShownAppend([d], [ws[0]], DisplayTexts(ws[1..], ends), ws[1..]);
      WordShown(ws[0], ends && |ws| == 1);
      assert [ws[0]] + ws[1..] == ws;
    }
  }

  /**
   * The URL template of a dotted id that does not end in `_index`: the URL texts of its words,
   * pathless words left out, joined with `/`; `undefined` when every word is pathless.
   */
  lemma DottedTemplate(id: string, ws: seq<string>)
    requires |ws| >= 1 && Words(ws) && id == Join(ws, ".") && !EndsWith(id, "_index")
    ensures var us := Urls(ws, true);
      RouteSegments(id) == Success(if |us| > 0 then Some(Join(us, "/")) else None)
  {
    DottedSegments(id, ws);
    TemplateOfSegments(id, Displays(ws), ws);
    DisplaysAreTexts(ws);
    ShownTexts(ws, true);
  }

  /**
   * The URL template of a dotted id ending in `_index`: its last word gives no segment, and the
   * others are shown as for any dotted id, none of them ending the id.
   */
  lemma DottedIndexTemplate(id: string, ws: seq<string>)
    requires |ws| >= 1 && Words(ws) && id == Join(ws, ".") && EndsWith(id, "_index")
    ensures Words(ws[..|ws| - 1])
    ensures var us := Urls(ws[..|ws| - 1], false);
      RouteSegments(id) == Success(if |us| > 0 then Some(Join(us, "/")) else None)
  {
    var n := |ws| - 1;
    DottedSegments(id, ws);
    TemplateOfIndexSegments(id, Displays(ws), ws);
    DisplaysAreTexts(ws);
    DisplayTextsInit(ws);
    ShownTexts(ws[..n], false);
  }

  /** A word that is shown as itself: no `$` opening it, no `_` at either end. */
  predicate Literal(w: string) {
    Word(w) && w[0] != ParamPrefixChar && w[0] != '_' && w[|w| - 1] != '_'
  }

  /** Literal words are all shown, each as itself. */
  lemma {:induction false} LiteralUrls(ws: seq<string>, ends: bool)
    requires forall k :: 0 <= k < |ws| ==> Literal(ws[k])
    ensures Words(ws) && Urls(ws, ends) == ws
    decreases |ws|
  {
    if ws != [] {
      assert Literal(ws[0]);
      LiteralUrls(ws[1..], ends);
      assert [ws[0]] + ws[1..] == ws;
    }
  }

  /**
   * An id of literal words separated by `.`, not ending in `_index`, has as template the same
   * words separated by `/`.
   */
  lemma LiteralTemplate(id: string, ws: seq<string>)
    requires |ws| >= 1 && (forall k :: 0 <= k < |ws| ==> Literal(ws[k])) && id == Join(ws, ".")
    requires !EndsWith(id, "_index")
    ensures RouteSegments(id) == Success(Some(Join(ws, "/")))
  {
    LiteralUrls(ws, true);
    DottedTemplate(id, ws);
  }
}
