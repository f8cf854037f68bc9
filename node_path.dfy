/**
 * The two functions of Node's `path` module (posix flavour) that `getRouteIds` calls on
 * slash-normalised file names: `path.basename` and `path.extname`.
 */
module NodePath {
  import opened Wrappers
  import opened JsString

  /** The part of `s` after its last `sep`, or all of `s` when there is none. */
  function AfterLast(s: string, sep: char): (r: string)
    ensures sep !in r
    ensures EndsWith(s, r)
    decreases |s|
  {
    if s == [] then ""
    else if s[|s| - 1] == sep then ""
    else AfterLast(s[..|s| - 1], sep) + [s[|s| - 1]]
  }

  /** A character other than the separator extends the text after the last separator. */
  lemma AfterLastSnoc(t: string, c: char, sep: char)
    requires c != sep
    ensures AfterLast(t + [c], sep) == AfterLast(t, sep) + [c]
  {
    assert (t + [c])[..|t|] == t;
  }

  /** What follows the last separator is the text after it. */
  lemma {:induction false} AfterLastSep(a: string, b: string, sep: char)
    requires sep !in b
    ensures AfterLast(a + [sep] + b, sep) == b
    decreases |b|
  {
    if b == [] {
      assert a + [sep] + b == a + [sep];
    } else {
      var b' := b[..|b| - 1];
      var c := b[|b| - 1];
      assert b == b' + [c];
      assert a + [sep] + b == (a + [sep] + b') + [c];
      assert c != sep by {
        assert c in b;
      }
      AfterLastSep(a, b', sep);
      AfterLastSnoc(a + [sep] + b', c, sep);
    }
  }

  /** The basename of a path ending in a separator and a non-empty name without one is that name. */
  lemma BasenameAfterSep(a: string, b: string)
    requires b != "" && '/' !in b
    ensures Basename(a + "/" + b) == b
  {
    var s := a + "/" + b;
    assert s[|s| - 1] == b[|b| - 1];
    assert b[|b| - 1] in b;
    assert s == a + ['/'] + b;
    AfterLastSep(a, b, '/');
  }

  /** A string without the separator is all of its own tail. */
  lemma {:induction false} AfterLastNone(s: string, sep: char)
    requires sep !in s
    ensures AfterLast(s, sep) == s
    decreases |s|
  {
    if s != [] {
      var init := s[..|s| - 1];
      assert s == init + [s[|s| - 1]];
      assert s[|s| - 1] in s;
      assert forall x :: x in init ==> x in s;
      AfterLastNone(init, sep);
    }
  }

  /** A non-empty name without `/` is its own basename. */
  lemma BasenameOfName(b: string)
    requires b != "" && '/' !in b
    ensures Basename(b) == b
  {
    assert b[|b| - 1] in b;
    AfterLastNone(b, '/');
  }

  /** The last path part joined on with `/` is the basename, however many folders come before it. */
  lemma BasenameOfJoin(folders: seq<string>, name: string)
    requires name != "" && '/' !in name
    ensures Basename(Join(folders + [name], "/")) == name
  {
    if folders == [] {
      assert folders + [name] == [name];
      BasenameOfName(name);
    } else {
      JoinSnoc(folders, name, "/");
      BasenameAfterSep(Join(folders, "/"), name);
    }
  }

  /** The index of the last `c` in `s`, if any. */
  function LastIndexOf(s: string, c: char): (r: Option<nat>)
    ensures r.None? <==> c !in s
    ensures r.Some? ==> r.value < |s| && s[r.value] == c && c !in s[r.value + 1..]
    decreases |s|
  {
    if s == [] then None
    else if s[|s| - 1] == c then Some(|s| - 1)
    else LastIndexOf(s[..|s| - 1], c)
  }

  /** `path.basename(p)`: the last `/`-separated part once trailing slashes are dropped. */
  function Basename(p: string): (r: string)
    ensures '/' !in r
    decreases |p|
  {
    if p == [] then ""
    else if p[|p| - 1] == '/' then Basename(p[..|p| - 1])
    else AfterLast(p, '/')
  }

  /** The last `c` is the one followed by a text without `c`. */
  lemma {:induction false} LastIndexOfBefore(a: string, c: char, b: string)
    requires c !in b
    ensures LastIndexOf(a + [c] + b, c) == Some(|a|)
    decreases |b|
  {
    if b == [] {
      assert a + [c] + b == a + [c];
    } else {
      var b' := b[..|b| - 1];
      var s := a + [c] + b;
      assert s[..|s| - 1] == a + [c] + b';
      assert b[|b| - 1] in b;
      assert forall x :: x in b' ==> x in b;
      LastIndexOfBefore(a, c, b');
    }
  }

  /** A name with a non-empty text before its last `.` has the extension that runs from that `.`. */
  lemma ExtensionOfName(base: string, ext: string)
    requires base != "" && ext != "" && '.' !in ext
    ensures ExtensionOf(base + "." + ext) == "." + ext
  {
    var b := base + "." + ext;
    assert b == base + ['.'] + ext;
    LastIndexOfBefore(base, '.', ext);
    assert b != ".." by {
      assert |b| >= 3;
    }
    assert b[|base|..] == "." + ext;
  }

  /**
   * The extension of the basename `b`: from its last `.` on, except that there is none when `b`
   * has no `.`, when that `.` is its first character, or when `b` is `..`.
   */
  function ExtensionOf(b: string): (r: string)
    ensures EndsWith(b, r)
    ensures r == "" || (r[0] == '.' && '.' !in r[1..])
    ensures r != "" <==> '.' in b && LastIndexOf(b, '.').value > 0 && b != ".."
  {
    match LastIndexOf(b, '.')
    case None => ""
    case Some(d) =>
      if d == 0 || b == ".." then ""
      else
        assert b[d..][1..] == b[d + 1..];
        b[d..]
  }

  /** `path.extname(p)`: the extension of the basename. */
  function Extname(p: string): (r: string)
    ensures EndsWith(Basename(p), r)
    ensures r == "" || (r[0] == '.' && '.' !in r[1..])
    ensures r != "" <==> '.' in Basename(p) && LastIndexOf(Basename(p), '.').value > 0 && Basename(p) != ".."
  {
    ExtensionOf(Basename(p))
  }
}
