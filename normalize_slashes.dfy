/** normalizeSlashes.js: rewrites Windows separators to forward slashes. */
module Slashes {
  import opened JsString
  import SegmentSeparator

  /** `file.split(path.win32.sep).join("/")`. */
  function NormalizeSlashes(file: string): string {
    Join(Split(file, SegmentSeparator.Win32Sep), "/")
  }

  /**
   * The result has the input's length; a backslash at position i becomes "/" at i and every other
   * character stays where it is.
   */
  lemma {:induction false} NormalizeSlashesPointwise(file: string)
    ensures |NormalizeSlashes(file)| == |file|
    ensures forall i :: 0 <= i < |file| ==>
      NormalizeSlashes(file)[i] == if file[i] == '\\' then '/' else file[i]
    decreases |file|
  {
    if file != [] {
      NormalizeSlashesPointwise(file[1..]);
      var rest := Split(file[1..], '\\');
      if file[0] == '\\' {
        assert Split(file, '\\') == [""] + rest;
        assert ([""] + rest)[1..] == rest;
        assert NormalizeSlashes(file) == "/" + NormalizeSlashes(file[1..]);
      } else {
        JoinCons(file[0], rest[0], rest[1..], "/");
        assert [rest[0]] + rest[1..] == rest;
        assert NormalizeSlashes(file) == [file[0]] + NormalizeSlashes(file[1..]);
      }
    }
  }

  /** No backslash survives normalisation. */
  lemma NormalizeSlashesNoBackslash(file: string)
    ensures '\\' !in NormalizeSlashes(file)
  {
    NormalizeSlashesPointwise(file);
  }

  /** A path without backslashes is returned unchanged. */
  lemma NormalizeSlashesIdentity(file: string)
    requires '\\' !in file
    ensures NormalizeSlashes(file) == file
  {
    NormalizeSlashesPointwise(file);
  }

  /** Normalising twice is the same as normalising once. */
  lemma NormalizeSlashesIdempotent(file: string)
    ensures NormalizeSlashes(NormalizeSlashes(file)) == NormalizeSlashes(file)
  {
    NormalizeSlashesNoBackslash(file);
    NormalizeSlashesIdentity(NormalizeSlashes(file));
  }
}
