/** isSegmentSeparator.js: the characters that end a route segment. */
module SegmentSeparator {
  import opened Wrappers

  /** `path.win32.sep`, which is a backslash on every platform. */
  const Win32Sep: char := '\\'

  /**
   * `isSegmentSeparator(checkChar)`: `undefined` (None) and "" are not separators; otherwise the
   * argument must be exactly one of "/", "." or the Windows separator.
   */
  function IsSegmentSeparator(checkChar: Option<string>): bool {
    match checkChar
    case None => false
    case Some(s) => s != "" && (s == "/" || s == "." || s == [Win32Sep])
  }

  /** The same test on a single character, the only kind of argument the route-id scanner passes. */
  function IsSeparatorChar(c: char): bool {
    c == '/' || c == '.' || c == Win32Sep
  }

  /** Asking about the one-character string `[c]` is asking whether `c` is a separator character. */
  lemma SeparatorCharAgrees(c: char)
    ensures IsSegmentSeparator(Some([c])) == IsSeparatorChar(c)
  {
    if c == '/' {
      assert [c] == "/";
    } else if c == '.' {
      assert [c] == ".";
    } else if c != Win32Sep {
      assert [c] != "/" && [c] != "." && [c] != [Win32Sep] by {
        assert [c][0] == c;
      }
    }
  }

  /** A separator is a single character, and the three separator characters are exactly the ones accepted. */
  lemma SeparatorCharacterization(checkChar: Option<string>)
    ensures IsSegmentSeparator(checkChar) <==>
      exists c :: checkChar == Some([c]) && (c == '/' || c == '.' || c == '\\')
  {
    if IsSegmentSeparator(checkChar) {
      var s := checkChar.value;
      assert s == [s[0]];
    }
  }

  /** Strings of two or more characters, such as "./", are never separators. */
  lemma LongStringsAreNotSeparators(s: string)
    requires |s| >= 2
    ensures !IsSegmentSeparator(Some(s))
  {
  }
}
