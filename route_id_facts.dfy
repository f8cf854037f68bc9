/**
 * What `getRouteIds` keeps and what it reports, stated id by id over the files in the order they
 * are given: the first non-empty file of an id wins, every later file of that id is listed after
 * it in the id's collision report, and the sorted output holds each id once, longest first.
 */
module RouteIdFacts {
  import opened Wrappers
  import opened ConflictMessages
  import opened RouteIds
  import opened JsString
  import opened NodePath
  import opened Slashes

  /** The files, in input order, of the first `n` labelled entries whose id is `id`. */
  function FilesFor(labelled: seq<RouteEntry>, n: nat, id: string): (fs: seq<string>)
    requires n <= |labelled|
    ensures |fs| <= n
    decreases n
  {
    if n == 0 then []
    else FilesFor(labelled, n - 1, id) + (if labelled[n - 1].0 == id then [labelled[n - 1].1] else [])
  }

  /** The position of the first non-empty file of `fs`, or `|fs|` when every one is empty. */
  function FirstFilled(fs: seq<string>): (w: nat)
    ensures w <= |fs|
    ensures w < |fs| ==> fs[w] != ""
    ensures forall k :: 0 <= k < w ==> fs[k] == ""
    decreases |fs|
  {
    if fs == [] || fs[0] != "" then 0 else 1 + FirstFilled(fs[1..])
  }

  /**
   * The file `routeIds` ends up holding for an id whose files are `fs`: the first non-empty one
   * (`if (conflict)` is false for an empty file name, which is then overwritten), or the last file
   * when all are empty.
   */
  function KeptFile(fs: seq<string>): string
    requires fs != []
  {
    if FirstFilled(fs) < |fs| then fs[FirstFilled(fs)] else fs[|fs| - 1]
  }

  /** The files an id's collision report lists: the winner and every file after it. */
  function Conflicting(fs: seq<string>): seq<string> {
    fs[FirstFilled(fs)..]
  }

  /** The table holds, for `id`, exactly what its files `fs` call for. */
  predicate Tracks(t: IdTable, id: string, fs: seq<string>) {
    (id in t.files <==> fs != []) &&
    (id in t.files && fs != [] ==> t.files[id] == KeptFile(fs)) &&
    (id in t.conflicts <==> FirstFilled(fs) + 1 < |fs|) &&
    (id in t.conflicts ==> t.conflicts[id] == Conflicting(fs))
  }

  lemma {:induction false} FirstFilledSnoc(fs: seq<string>, f: string)
    ensures FirstFilled(fs + [f]) == if FirstFilled(fs) < |fs| || f != "" then FirstFilled(fs) else |fs| + 1
    decreases |fs|
  {
    if fs == [] {
      assert [] + [f] == [f];
    } else if fs[0] == "" {
      FirstFilledSnoc(fs[1..], f);
      assert (fs + [f])[1..] == fs[1..] + [f];
    }
  }

  /** One turn of the loop keeps every id's entry in step with its files. */
  lemma RecordTracks(t: IdTable, x: string, f: string, id: string, fs: seq<string>)
    requires Tracks(t, id, fs)
    ensures Tracks(Record(t, x, f), id, fs + (if x == id then [f] else []))
  {
    if x == id {
      var fs' := fs + [f];
      FirstFilledSnoc(fs, f);
      var w := FirstFilled(fs);
      if id in t.files && t.files[id] != "" {
        assert w < |fs|;
        if id !in t.conflicts {
          assert fs[w..] == [fs[w]];
        }
        assert fs'[w..] == fs[w..] + [f];
      }
    } else {
      assert fs + [] == fs;
    }
  }

  /** After `n` files, every id's entries in the two maps are what its files call for. */
  lemma {:induction false} CollectTracks(labelled: seq<RouteEntry>, n: nat, id: string)
    requires n <= |labelled|
    ensures Tracks(Collect(labelled, n), id, FilesFor(labelled, n, id))
    decreases n
  {
    if n > 0 {
      CollectTracks(labelled, n - 1, id);
      RecordTracks(Collect(labelled, n - 1), labelled[n - 1].0, labelled[n - 1].1, id, FilesFor(labelled, n - 1, id));
    }
  }

  /** The position of the first of the first `n` entries whose id is `id`, or `n` when there is none. */
  function FirstIndex(labelled: seq<RouteEntry>, n: nat, id: string): (f: nat)
    requires n <= |labelled|
    ensures f <= n
    ensures f < n ==> labelled[f].0 == id
    ensures forall k :: 0 <= k < f ==> labelled[k].0 != id
    decreases n
  {
    if n == 0 then 0
    else
      var f := FirstIndex(labelled, n - 1, id);
      if f < n - 1 then f else if labelled[n - 1].0 == id then n - 1 else n
  }

  /** An id has files exactly when some entry has it. */
  lemma {:induction false} FilesForFirstIndex(labelled: seq<RouteEntry>, n: nat, id: string)
    requires n <= |labelled|
    ensures FilesFor(labelled, n, id) == [] <==> FirstIndex(labelled, n, id) == n
    decreases n
  {
    if n > 0 {
      FilesForFirstIndex(labelled, n - 1, id);
    }
  }

  /** `order` lists ids met among the first `n` entries, in the order each was first met. */
  ghost predicate MetInOrder(labelled: seq<RouteEntry>, n: nat, order: seq<string>)
    requires n <= |labelled|
  {
    (forall i :: 0 <= i < |order| ==> FirstIndex(labelled, n, order[i]) < n) &&
    (forall i, j :: 0 <= i < j < |order| ==> FirstIndex(labelled, n, order[i]) < FirstIndex(labelled, n, order[j]))
  }

  /** One more entry keeps the ids met so far in order, and its id, when new, comes last. */
  lemma MetInOrderStep(labelled: seq<RouteEntry>, n: nat, order: seq<string>)
    requires n < |labelled| && MetInOrder(labelled, n, order)
    ensures MetInOrder(labelled, n + 1, order)
    ensures FirstIndex(labelled, n, labelled[n].0) == n ==> MetInOrder(labelled, n + 1, order + [labelled[n].0])
  {
    forall i | 0 <= i < |order| ensures FirstIndex(labelled, n + 1, order[i]) == FirstIndex(labelled, n, order[i]) {
    }
  }

  /** `routeIds` keeps its ids in the order each was first met, which `Array.from` then follows. */
  lemma {:induction false} CollectOrder(labelled: seq<RouteEntry>, n: nat)
    requires n <= |labelled|
    ensures MetInOrder(labelled, n, Collect(labelled, n).order)
    decreases n
  {
    if n > 0 {
      CollectOrder(labelled, n - 1);
      var t := Collect(labelled, n - 1);
      var x := labelled[n - 1].0;
      MetInOrderStep(labelled, n - 1, t.order);
      if x !in t.files {
        CollectTracks(labelled, n - 1, x);
        FilesForFirstIndex(labelled, n - 1, x);
      }
    }
  }

  // ----- The sorted output -----

  /** Entries of the same id length come in increasing `rank` of their ids. */
  predicate TiesBy(es: seq<RouteEntry>, rank: string -> nat) {
    forall i, j :: 0 <= i < j < |es| && |es[i].0| == |es[j].0| ==> rank(es[i].0) < rank(es[j].0)
  }

  /** Dropping the first entry keeps the ties ordered, and the first entry ranks before its ties. */
  lemma TiesTail(es: seq<RouteEntry>, rank: string -> nat)
    requires es != [] && TiesBy(es, rank)
    ensures TiesBy(es[1..], rank)
    ensures forall x :: x in es[1..] && |x.0| == |es[0].0| ==> rank(es[0].0) < rank(x.0)
  {
    forall i, j | 0 <= i < j < |es[1..]| && |es[1..][i].0| == |es[1..][j].0|
      ensures rank(es[1..][i].0) < rank(es[1..][j].0)
    {
      assert es[1..][i] == es[i + 1] && es[1..][j] == es[j + 1];
    }
    forall x | x in es[1..] && |x.0| == |es[0].0| ensures rank(es[0].0) < rank(x.0) {
      var m :| 0 <= m < |es[1..]| && es[1..][m] == x;
      assert es[m + 1] == x;
    }
  }

  /** An entry that ranks before all its ties can go in front. */
  lemma TiesCons(e: RouteEntry, es: seq<RouteEntry>, rank: string -> nat)
    requires TiesBy(es, rank)
    requires forall x :: x in es && |x.0| == |e.0| ==> rank(e.0) < rank(x.0)
    ensures TiesBy([e] + es, rank)
  {
    var r := [e] + es;
    forall i, j | 0 <= i < j < |r| && |r[i].0| == |r[j].0| ensures rank(r[i].0) < rank(r[j].0) {
      assert r[j] == es[j - 1];
      if i > 0 {
        assert r[i] == es[i - 1];
      }
    }
  }

  /** The insertion adds `e` and nothing else. */
  lemma {:induction false} InsertByLengthMembers(e: RouteEntry, sorted: seq<RouteEntry>)
    ensures forall x :: x in InsertByLength(e, sorted) <==> x == e || x in sorted
    decreases |sorted|
  {
    if !(sorted == [] || |e.0| >= |sorted[0].0|) {
      InsertByLengthMembers(e, sorted[1..]);
      assert sorted == [sorted[0]] + sorted[1..];
    }
  }

  lemma {:induction false} InsertByLengthTies(e: RouteEntry, sorted: seq<RouteEntry>, rank: string -> nat)
    requires TiesBy(sorted, rank)
    requires forall x :: x in sorted && |x.0| == |e.0| ==> rank(e.0) < rank(x.0)
    ensures TiesBy(InsertByLength(e, sorted), rank)
    decreases |sorted|
  {
    if sorted == [] || |e.0| >= |sorted[0].0| {
      TiesCons(e, sorted, rank);
    } else {
      TiesTail(sorted, rank);
      InsertByLengthTies(e, sorted[1..], rank);
      InsertByLengthMembers(e, sorted[1..]);
      TiesCons(sorted[0], InsertByLength(e, sorted[1..]), rank);
    }
  }

  /** The sort keeps the order of the entries of each id length. */
  lemma {:induction false} SortKeepsTies(es: seq<RouteEntry>, rank: string -> nat)
    requires TiesBy(es, rank)
    ensures TiesBy(SortByIdLength(es), rank)
    decreases |es|
  {
    if es != [] {
      TiesTail(es, rank);
      SortKeepsTies(es[1..], rank);
      SortByIdLengthFacts(es[1..]);
      forall x | x in SortByIdLength(es[1..]) && |x.0| == |es[0].0| ensures rank(es[0].0) < rank(x.0) {
        assert x in multiset(SortByIdLength(es[1..]));
      }
      InsertByLengthTies(es[0], SortByIdLength(es[1..]), rank);
    }
  }

  /** An entry occurs at most once in pairs with distinct ids. */
  lemma {:induction false} UniqueCount(es: seq<RouteEntry>, x: RouteEntry)
    requires UniqueIds(es)
    ensures multiset(es)[x] <= 1
    decreases |es|
  {
    if es != [] {
      UniqueCount(es[1..], x);
      assert es == [es[0]] + es[1..];
      if es[0] == x {
        assert x !in es[1..];
      }
    }
  }

  /** Reordering pairs with distinct ids keeps them distinct. */
  lemma UniqueIdsPermutation(a: seq<RouteEntry>, b: seq<RouteEntry>)
    requires multiset(a) == multiset(b) && UniqueIds(a)
    ensures UniqueIds(b)
  {
    forall i, j | 0 <= i < j < |b| ensures b[i].0 != b[j].0 {
      assert b[i] in multiset(a) && b[j] in multiset(a);
      var p :| 0 <= p < |a| && a[p] == b[i];
      var q :| 0 <= q < |a| && a[q] == b[j];
      if p == q {
        assert b == b[..i] + [b[i]] + b[i + 1..j] + [b[j]] + b[j + 1..];
        UniqueCount(a, b[i]);
      }
    }
  }

  /** The entries `getRouteIds` sorts: one per id, in the order the ids were first met. */
  lemma KeptEntriesFacts(labelled: seq<RouteEntry>)
    ensures var es := KeptEntries(labelled);
      UniqueIds(es) && TiesBy(es, id => FirstIndex(labelled, |labelled|, id))
  {
    var n := |labelled|;
    var t := Collect(labelled, n);
    CollectValid(labelled, n);
    CollectOrder(labelled, n);
  }

  /** An entry is listed exactly when its id was met and its file is the one kept for the id. */
  lemma KeptEntriesMembers(labelled: seq<RouteEntry>, e: RouteEntry)
    ensures var fs := FilesFor(labelled, |labelled|, e.0);
      e in KeptEntries(labelled) <==> fs != [] && e.1 == KeptFile(fs)
  {
    var n := |labelled|;
    var t := Collect(labelled, n);
    CollectValid(labelled, n);
    CollectTracks(labelled, n, e.0);
    var es := TableEntries(t.order, t.files);
    if e in es {
      var k :| 0 <= k < |es| && es[k] == e;
      assert t.order[k] == e.0;
    }
    var fs := FilesFor(labelled, n, e.0);
    if fs != [] && e.1 == KeptFile(fs) {
      var k :| 0 <= k < |t.order| && t.order[k] == e.0;
      assert es[k] == e;
    }
  }

  /** `getRouteIds` returns every id once, longest first. */
  lemma IdsUnique(labelled: seq<RouteEntry>)
    ensures UniqueIds(IdsOfLabels(labelled).0)
    ensures LongestFirst(IdsOfLabels(labelled).0)
  {
    var es := KeptEntries(labelled);
    KeptEntriesFacts(labelled);
    SortByIdLengthFacts(es);
    UniqueIdsPermutation(es, SortByIdLength(es));
  }

  /** The pairs `getRouteIds` returns are the ids met, each with the file that won it. */
  lemma IdsKept(labelled: seq<RouteEntry>, e: RouteEntry)
    ensures var fs := FilesFor(labelled, |labelled|, e.0);
      e in IdsOfLabels(labelled).0 <==> fs != [] && e.1 == KeptFile(fs)
  {
    var es := KeptEntries(labelled);
    SortByIdLengthFacts(es);
    assert e in SortByIdLength(es) <==> e in multiset(es);
    KeptEntriesMembers(labelled, e);
  }

  /** Ids of the same length come out in the order in which they were first met. */
  lemma IdsStable(labelled: seq<RouteEntry>)
    ensures var sorted := IdsOfLabels(labelled).0;
      forall i, j :: 0 <= i < j < |sorted| && |sorted[i].0| == |sorted[j].0| ==>
        FirstIndex(labelled, |labelled|, sorted[i].0) < FirstIndex(labelled, |labelled|, sorted[j].0)
  {
    var es := KeptEntries(labelled);
    KeptEntriesFacts(labelled);
    SortKeepsTies(es, id => FirstIndex(labelled, |labelled|, id));
  }

  /** The `k`-th report is the message for the `k`-th conflicting id. */
  lemma {:induction false} ConflictReportsAt(conflictOrder: seq<string>, conflicts: map<string, seq<string>>, k: nat)
    requires forall id :: id in conflictOrder ==> id in conflicts
    requires k < |conflictOrder|
    ensures ConflictReports(conflictOrder, conflicts)[k] == RouteIdConflictMessage(conflictOrder[k], conflicts[conflictOrder[k]])
    decreases k
  {
    if k > 0 {
      ConflictReportsAt(conflictOrder[1..], conflicts, k - 1);
    }
  }

  /**
   * One id-collision report per id that more than one file claimed, none for any other id. An id's
   * report lists the file that won it, then every later file that claimed it, in input order.
   */
  lemma IdsReports(labelled: seq<RouteEntry>)
    ensures var reports := IdsOfLabels(labelled).1;
      var t := Collect(labelled, |labelled|);
      |reports| == |t.conflictOrder| && Distinct(t.conflictOrder) &&
      (forall id :: id in t.conflictOrder <==> FirstFilled(FilesFor(labelled, |labelled|, id)) + 1 < |FilesFor(labelled, |labelled|, id)|) &&
      forall k :: 0 <= k < |reports| ==>
        reports[k] == RouteIdConflictMessage(t.conflictOrder[k], Conflicting(FilesFor(labelled, |labelled|, t.conflictOrder[k])))
  {
    var n := |labelled|;
    var t := Collect(labelled, n);
    CollectValid(labelled, n);
    var reports := IdsOfLabels(labelled).1;
    assert reports == ConflictReports(t.conflictOrder, t.conflicts);
    forall id ensures id in t.conflictOrder <==> FirstFilled(FilesFor(labelled, n, id)) + 1 < |FilesFor(labelled, n, id)| {
      CollectTracks(labelled, n, id);
    }
    forall k | 0 <= k < |reports|
      ensures reports[k] == RouteIdConflictMessage(t.conflictOrder[k], Conflicting(FilesFor(labelled, n, t.conflictOrder[k])))
    {
      CollectTracks(labelled, n, t.conflictOrder[k]);
      ConflictReportsAt(t.conflictOrder, t.conflicts, k);
    }
  }

  // ----- The id of one file -----

  /** Folders none of which ends in `+` give no ancestor names and are all kept as plain folders. */
  lemma {:induction false} NoAncestorFolders(segments: seq<string>)
    requires forall k :: 0 <= k < |segments| ==> !IsAncestorFolder(segments[k])
    ensures AncestorNames(segments) == [] && PlainFolders(segments) == segments
    decreases |segments|
  {
    if segments != [] {
      NoAncestorFolders(segments[1..]);
      assert [segments[0]] + segments[1..] == segments;
    }
  }

  /** A path without `+` has no ancestor folder. */
  lemma PlusFreeParts(p: string)
    requires '+' !in p
    ensures forall k :: 0 <= k < |Split(p, '/')| ==> !IsAncestorFolder(Split(p, '/')[k])
  {
    var parts := Split(p, '/');
    SplitPartsWithin(p, '/');
  }

  /** Cutting the extension and suffix off a file without `+` leaves a path without `+`. */
  lemma CutPlusFree(file: string, suffix: string)
    requires '+' !in file
    ensures '+' !in WithoutExtension(file, suffix)
  {
    WithoutExtensionLength(file, suffix);
    var p := WithoutExtension(file, suffix);
    assert p == file[..|p|];
    assert forall x :: x in file[..|p|] ==> x in file;
  }

  /** A path with no ancestor folder is named by its basename when there is no prefix to strip. */
  lemma IdOfPlainPath(p: string)
    requires forall k :: 0 <= k < |Split(p, '/')| ==> !IsAncestorFolder(Split(p, '/')[k])
    ensures IdOfPath(p, "") == Basename(p)
  {
    NoAncestorFolders(Split(p, '/'));
    assert SliceFrom(Basename(p), 0) == Basename(p);
  }

  /** A path without `+` stays as it is unless it is an index file more than one folder deep. */
  lemma KeptPath(p: string, indexNames: seq<string>)
    requires '+' !in p
    requires Basename(p) in indexNames ==> |Split(p, '/')| <= 2
    ensures CollapseIndexFolder(p, indexNames) == p
  {
    PlusFreeParts(p);
    NoAncestorFolders(Split(p, '/'));
  }

  /** Folders joined with `/`, the last of them non-empty, have that last folder as basename. */
  lemma JoinedBasename(kept: seq<string>)
    requires |kept| >= 2 && kept[|kept| - 1] != ""
    requires forall k :: 0 <= k < |kept| ==> '/' !in kept[k]
    ensures Basename(Join(kept, "/")) == kept[|kept| - 1]
  {
    var last := kept[|kept| - 1];
    var init := kept[..|kept| - 1];
    assert init + [last] == kept;
    JoinSnoc(init, last, "/");
    BasenameAfterSep(Join(init, "/"), last);
  }

  /** An index file more than one folder deep collapses into its folder, named by that folder. */
  lemma CollapsedPath(p: string, indexNames: seq<string>)
    requires '+' !in p
    requires var parts := Split(p, '/');
      Basename(p) in indexNames && |parts| > 2 && parts[|parts| - 2] != ""
    ensures var parts := Split(p, '/'); var q := CollapseIndexFolder(p, indexNames);
      Basename(q) == parts[|parts| - 2] && Split(q, '/') == parts[..|parts| - 1]
  {
    var parts := Split(p, '/');
    PlusFreeParts(p);
    NoAncestorFolders(parts);
    var kept := parts[..|parts| - 1];
    assert CollapseIndexFolder(p, indexNames) == Join(kept, "/");
    SplitPartsFree(p, '/');
    assert forall k :: 0 <= k < |kept| ==> '/' !in kept[k];
    SplitJoin(kept, '/');
    JoinedBasename(kept);
  }

  /**
   * A file with no backslash, no `+` folder and no prefix to strip is named by its basename once
   * the extension and suffix are cut off, unless it is an index file more than one folder deep.
   */
  lemma IdIsBasename(file: string, suffix: string, indexNames: seq<string>)
    requires '\\' !in file && '+' !in file
    requires Basename(WithoutExtension(file, suffix)) in indexNames ==> |Split(WithoutExtension(file, suffix), '/')| <= 2
    ensures RouteIdOf(file, "", suffix, indexNames) == Basename(WithoutExtension(file, suffix))
  {
    NormalizeSlashesIdentity(file);
    var p := WithoutExtension(file, suffix);
    CutPlusFree(file, suffix);
    KeptPath(p, indexNames);
    PlusFreeParts(p);
    IdOfPlainPath(p);
  }

  /**
   * An index file more than one folder deep, with no backslash, no `+` folder and no prefix to
   * strip, is named by the folder that holds it.
   */
  lemma IndexFileNamesFolder(file: string, suffix: string, indexNames: seq<string>)
    requires '\\' !in file && '+' !in file
    requires var parts := Split(WithoutExtension(file, suffix), '/');
      Basename(WithoutExtension(file, suffix)) in indexNames && |parts| > 2 && parts[|parts| - 2] != ""
    ensures var parts := Split(WithoutExtension(file, suffix), '/');
      RouteIdOf(file, "", suffix, indexNames) == parts[|parts| - 2]
  {
    NormalizeSlashesIdentity(file);
    var p := WithoutExtension(file, suffix);
    var parts := Split(p, '/');
    CutPlusFree(file, suffix);
    CollapsedPath(p, indexNames);
    PlusFreeParts(p);
    var q := CollapseIndexFolder(p, indexNames);
    assert forall k :: 0 <= k < |Split(q, '/')| ==> !IsAncestorFolder(Split(q, '/')[k]) by {
      assert Split(q, '/') == parts[..|parts| - 1];
    }
    IdOfPlainPath(q);
  }

  /** The file `folders/stem` + `suffix` + `.` + `ext`, as the conventions name their route files. */
  function FileName(folders: seq<string>, stem: string, suffix: string, ext: string): string {
    Join(folders + [stem + suffix + "." + ext], "/")
  }

  /** The path parts, the stem, the suffix and the extension, none holding a `/` or a backslash. */
  predicate PlainParts(folders: seq<string>, stem: string, suffix: string, ext: string) {
    (forall k :: 0 <= k < |folders| ==> '/' !in folders[k] && '\\' !in folders[k]) &&
    stem != "" && '/' !in stem && '\\' !in stem && !IsAncestorFolder(stem) &&
    '/' !in suffix && '\\' !in suffix &&
    ext != "" && '.' !in ext && '/' !in ext && '\\' !in ext
  }

  /** Such a file has no backslash, so normalising its slashes leaves it as it is. */
  lemma FileNameNormal(folders: seq<string>, stem: string, suffix: string, ext: string)
    requires PlainParts(folders, stem, suffix, ext)
    ensures NormalizeSlashes(FileName(folders, stem, suffix, ext)) == FileName(folders, stem, suffix, ext)
  {
    var name := stem + suffix + "." + ext;
    assert '\\' !in name;
    assert forall k :: 0 <= k < |folders + [name]| ==> '\\' !in (folders + [name])[k] by {
      forall k | 0 <= k < |folders + [name]| ensures '\\' !in (folders + [name])[k] {
        if k < |folders| {
          assert (folders + [name])[k] == folders[k];
        }
      }
    }
    JoinAvoids(folders + [name], "/", '\\');
    NormalizeSlashesIdentity(FileName(folders, stem, suffix, ext));
  }

  /** The extension of such a file is `.` + `ext`. */
  lemma FileNameExtname(folders: seq<string>, stem: string, suffix: string, ext: string)
    requires PlainParts(folders, stem, suffix, ext)
    ensures Extname(FileName(folders, stem, suffix, ext)) == "." + ext
  {
    var name := stem + suffix + "." + ext;
    assert '/' !in name;
    BasenameOfJoin(folders, name);
    assert name == (stem + suffix) + "." + ext;
    ExtensionOfName(stem + suffix, ext);
  }

  /** Such a file is the path of its folders and stem, then the suffix and the extension. */
  lemma FileNameSplits(folders: seq<string>, stem: string, suffix: string, ext: string)
    ensures FileName(folders, stem, suffix, ext) == Join(folders + [stem], "/") + suffix + "." + ext
  {
    var name := stem + suffix + "." + ext;
    if folders == [] {
      assert folders + [name] == [name] && folders + [stem] == [stem];
    } else {
      JoinSnoc(folders, name, "/");
      JoinSnoc(folders, stem, "/");
    }
  }

  /** Cutting the extension and the suffix off such a file leaves its folders and its stem. */
  lemma CutFileName(folders: seq<string>, stem: string, suffix: string, ext: string)
    requires PlainParts(folders, stem, suffix, ext)
    ensures WithoutExtension(NormalizeSlashes(FileName(folders, stem, suffix, ext)), suffix) == Join(folders + [stem], "/")
  {
    var file := FileName(folders, stem, suffix, ext);
    var p := Join(folders + [stem], "/");
    FileNameNormal(folders, stem, suffix, ext);
    FileNameExtname(folders, stem, suffix, ext);
    FileNameSplits(folders, stem, suffix, ext);
    assert |file| == |p| + |suffix| + 1 + |ext|;
    assert file[..|p|] == p;
  }

  /** The parts of the cut file, split on `/`, are its folders and its stem. */
  lemma CutFileParts(folders: seq<string>, stem: string)
    requires forall k :: 0 <= k < |folders| ==> '/' !in folders[k]
    requires stem != "" && '/' !in stem
    ensures Split(Join(folders + [stem], "/"), '/') == folders + [stem]
    ensures Basename(Join(folders + [stem], "/")) == stem
  {
    assert forall k :: 0 <= k < |folders + [stem]| ==> '/' !in (folders + [stem])[k] by {
      forall k | 0 <= k < |folders + [stem]| ensures '/' !in (folders + [stem])[k] {
        if k < |folders| {
          assert (folders + [stem])[k] == folders[k];
        }
      }
    }
    SplitJoin(folders + [stem], '/');
    BasenameOfJoin(folders, stem);
  }

  /**
   * The id of a file that does not collapse into its folder: the names of its `+` folders, in
   * order and with the `+` cut off, then its stem less as many characters as the prefix has,
   * joined with `.`.
   */
  lemma IdOfFile(folders: seq<string>, stem: string, suffix: string, ext: string, prefix: string, indexNames: seq<string>)
    requires PlainParts(folders, stem, suffix, ext)
    requires stem in indexNames ==> |PlainFolders(folders)| <= 1
    ensures RouteIdOf(FileName(folders, stem, suffix, ext), prefix, suffix, indexNames)
         == Join(AncestorNames(folders) + [SliceFrom(stem, |prefix|)], ".")
  {
    var file := FileName(folders, stem, suffix, ext);
    var p := Join(folders + [stem], "/");
    CutFileName(folders, stem, suffix, ext);
    FileNotCollapsed(folders, stem, indexNames);
    assert RouteIdOf(file, prefix, suffix, indexNames) == IdOfPath(p, prefix);
    IdOfCutFile(folders, stem, prefix);
  }

  /** The id of the cut path of a file: its `+` folder names, then its stem less the prefix's length. */
  lemma IdOfCutFile(folders: seq<string>, stem: string, prefix: string)
    requires forall k :: 0 <= k < |folders| ==> '/' !in folders[k]
    requires stem != "" && '/' !in stem && !IsAncestorFolder(stem)
    ensures IdOfPath(Join(folders + [stem], "/"), prefix) == Join(AncestorNames(folders) + [SliceFrom(stem, |prefix|)], ".")
  {
    CutFileParts(folders, stem);
    IdOfParts(Join(folders + [stem], "/"), folders, stem, prefix);
  }

  /** A path whose parts are `folders` then a last part that is not a `+` folder. */
  lemma IdOfParts(p: string, folders: seq<string>, stem: string, prefix: string)
    requires Split(p, '/') == folders + [stem] && Basename(p) == stem && !IsAncestorFolder(stem)
    ensures IdOfPath(p, prefix) == Join(AncestorNames(folders) + [SliceFrom(stem, |prefix|)], ".")
  {
    AncestorNamesAppend(folders, [stem]);
    assert AncestorNames([stem]) == [] by {
      assert [stem][1..] == [];
    }
    assert AncestorNames(folders) + [] == AncestorNames(folders);
    assert IdOfPath(p, prefix) == Join(AncestorNames(folders + [stem]) + [SliceFrom(stem, |prefix|)], ".");
  }

  /** The cut path of a file stays as it is unless its stem is an index name under two plain folders. */
  lemma FileNotCollapsed(folders: seq<string>, stem: string, indexNames: seq<string>)
    requires forall k :: 0 <= k < |folders| ==> '/' !in folders[k]
    requires stem != "" && '/' !in stem && !IsAncestorFolder(stem)
    requires stem in indexNames ==> |PlainFolders(folders)| <= 1
    ensures CollapseIndexFolder(Join(folders + [stem], "/"), indexNames) == Join(folders + [stem], "/")
  {
    CutFileParts(folders, stem);
    PlainFoldersAppend(folders, [stem]);
    assert PlainFolders([stem]) == [stem];
  }


  /**
   * The id of an index file under at least two plain folders: the file stands for the last of
   * them, whose name, less as many characters as the prefix has, is the whole id. The `+`
   * folders are filtered out with the index name, so they leave no ancestor names.
   */
  lemma IdOfIndexFile(folders: seq<string>, stem: string, suffix: string, ext: string, prefix: string, indexNames: seq<string>)
    requires PlainParts(folders, stem, suffix, ext)
    requires stem in indexNames
    requires var kept := PlainFolders(folders); |kept| >= 2 && kept[|kept| - 1] != ""
    ensures var kept := PlainFolders(folders);
      RouteIdOf(FileName(folders, stem, suffix, ext), prefix, suffix, indexNames) == SliceFrom(kept[|kept| - 1], |prefix|)
  {
    var p := Join(folders + [stem], "/");
    var kept := PlainFolders(folders);
    CutFileName(folders, stem, suffix, ext);
    CutFileParts(folders, stem);
    PlainFoldersAppend(folders, [stem]);
    assert (kept + [stem])[..|kept|] == kept;
    var q := Join(kept, "/");
    assert CollapseIndexFolder(p, indexNames) == q;
    PlainFoldersMembers(folders);
    assert forall k :: 0 <= k < |kept| ==> kept[k] in kept;
    assert forall k :: 0 <= k < |kept| ==> '/' !in kept[k] && !IsAncestorFolder(kept[k]);
    SplitJoin(kept, '/');
    NoAncestorFolders(kept);
    JoinedBasename(kept);
  }
}
