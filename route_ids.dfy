/**
 * `getRouteIds` (core.js): derives one dot-separated route id per file name, keeps the first file
 * of each id, reports the others, and orders the ids longest first.
 */
module RouteIds {
  import opened Wrappers
  import opened JsString
  import opened NodePath
  import opened Slashes
  import opened ConflictMessages

  /** `{prefix, suffix, indexNames}`; a missing option defaults to "", "" and `[]`. */
  datatype RouteIdOptions = RouteIdOptions(prefix: Option<string>, suffix: Option<string>, indexNames: Option<seq<string>>)

  /** An `(id, file)` pair, as `Array.from(routeIds)` yields it. */
  type RouteEntry = (string, string)

  /** A folder named `name+` makes `name` an ancestor segment of the ids of the files inside it. */
  predicate IsAncestorFolder(segment: string) {
    EndsWith(segment, "+")
  }

  /** `segments.filter((segment) => !segment.endsWith("+"))`. */
  function PlainFolders(segments: seq<string>): (r: seq<string>)
    ensures |r| <= |segments|
    decreases |segments|
  {
    if segments == [] then []
    else (if IsAncestorFolder(segments[0]) then [] else [segments[0]]) + PlainFolders(segments[1..])
  }

  /** `segments.filter((segment) => segment.endsWith("+")).map((segment) => segment.slice(0, -1))`. */
  function AncestorNames(segments: seq<string>): (r: seq<string>)
    ensures |r| <= |segments|
    decreases |segments|
  {
    if segments == [] then []
    else (if IsAncestorFolder(segments[0]) then [SliceTo(segments[0], -1)] else []) + AncestorNames(segments[1..])
  }

  /** The plain folders are exactly the folders not ending in `+`. */
  lemma {:induction false} PlainFoldersMembers(segments: seq<string>)
    ensures forall x :: x in PlainFolders(segments) <==> x in segments && !IsAncestorFolder(x)
    decreases |segments|
  {
    if segments != [] {
      PlainFoldersMembers(segments[1..]);
      assert forall x :: x in segments <==> x == segments[0] || x in segments[1..];
    }
  }

  /** The ancestor names are exactly the `+` folders with the `+` cut off. */
  lemma {:induction false} AncestorNamesMembers(segments: seq<string>)
    ensures forall x :: x in AncestorNames(segments) ==> x + "+" in segments
    ensures forall x :: x in segments && IsAncestorFolder(x) ==> SliceTo(x, -1) in AncestorNames(segments)
    decreases |segments|
  {
    if segments != [] {
      AncestorNamesMembers(segments[1..]);
      assert forall x :: x in segments <==> x == segments[0] || x in segments[1..];
      if IsAncestorFolder(segments[0]) {
        assert SliceTo(segments[0], -1) + "+" == segments[0];
      }
    }
  }

  /** The first folder is filtered on its own, before the rest. */
  lemma PlainFoldersFirst(a: seq<string>)
    requires a != []
    ensures PlainFolders(a) == (if IsAncestorFolder(a[0]) then [] else [a[0]]) + PlainFolders(a[1..])
  {
  }

  /** The plain folders keep their order: on a concatenation they are those of each half in turn. */
  lemma {:induction false} PlainFoldersAppend(a: seq<string>, b: seq<string>)
    ensures PlainFolders(a + b) == PlainFolders(a) + PlainFolders(b)
    decreases |a|
  {
    if a == [] {
      assert a + b == b;
    } else {
      PlainFoldersAppend(a[1..], b);
      var head := if IsAncestorFolder(a[0]) then [] else [a[0]];
      assert (a + b)[0] == a[0] && (a + b)[1..] == a[1..] + b;
      PlainFoldersFirst(a + b);
      PlainFoldersFirst(a);
      assert head + (PlainFolders(a[1..]) + PlainFolders(b)) == (head + PlainFolders(a[1..])) + PlainFolders(b);
    }
  }

  /** The ancestor names keep their order: on a concatenation they are those of each half in turn. */
  lemma {:induction false} AncestorNamesAppend(a: seq<string>, b: seq<string>)
    ensures AncestorNames(a + b) == AncestorNames(a) + AncestorNames(b)
    decreases |a|
  {
    if a == [] {
      assert a + b == b;
    } else {
      AncestorNamesAppend(a[1..], b);
      var head := (if IsAncestorFolder(a[0]) then [SliceTo(a[0], -1)] else []);
      assert (a + b)[0] == a[0] && (a + b)[1..] == a[1..] + b;
      assert AncestorNames(a + b) == head + AncestorNames(a[1..] + b);
      assert AncestorNames(a) == head + AncestorNames(a[1..]);
      assert head + (AncestorNames(a[1..]) + AncestorNames(b)) == (head + AncestorNames(a[1..])) + AncestorNames(b);
    }
  }

  /** Every folder goes to exactly one of the two filters. */
  lemma {:induction false} FoldersPartition(a: seq<string>)
    ensures |PlainFolders(a)| + |AncestorNames(a)| == |a|
    decreases |a|
  {
    if a != [] {
      FoldersPartition(a[1..]);
    }
  }

  /**
   * `normalizedFile.slice(0, 0 - routeExt.length - suffix.length)`: the extension and the suffix
   * are cut off together. With no extension and no suffix the end is 0 and nothing is left.
   */
  function WithoutExtension(normalizedFile: string, suffix: string): (r: string)
  {
    SliceTo(normalizedFile, 0 - |Extname(normalizedFile)| - |suffix|)
  }

  /**
   * What is left is a prefix of the file: empty when there is neither an extension nor a suffix,
   * and otherwise shorter by exactly their two lengths when the file is long enough.
   */
  lemma WithoutExtensionLength(normalizedFile: string, suffix: string)
    ensures StartsWith(normalizedFile, WithoutExtension(normalizedFile, suffix))
    ensures |Extname(normalizedFile)| + |suffix| == 0 ==> WithoutExtension(normalizedFile, suffix) == ""
    ensures 0 < |Extname(normalizedFile)| + |suffix| <= |normalizedFile| ==>
      |WithoutExtension(normalizedFile, suffix)| == |normalizedFile| - |Extname(normalizedFile)| - |suffix|
  {
  }

  /**
   * A file whose basename is an index name stands for its folder when more than two plain
   * segments remain: the last one is dropped, and the path is rebuilt from the plain segments.
   */
  function CollapseIndexFolder(pathWithoutExt: string, indexNames: seq<string>): string {
    if Basename(pathWithoutExt) in indexNames then
      var segments := PlainFolders(Split(pathWithoutExt, '/'));
      if |segments| > 2 then Join(segments[..|segments| - 1], "/") else pathWithoutExt
    else pathWithoutExt
  }

  /** The id of a cut path: its `+` ancestors and its basename without `prefix`, joined with `.`. */
  function IdOfPath(pathWithoutExt: string, prefix: string): string {
    Join(AncestorNames(Split(pathWithoutExt, '/')) + [SliceFrom(Basename(pathWithoutExt), |prefix|)], ".")
  }

  /** The id of one file. */
  function RouteIdOf(file: string, prefix: string, suffix: string, indexNames: seq<string>): string {
    IdOfPath(CollapseIndexFolder(WithoutExtension(NormalizeSlashes(file), suffix), indexNames), prefix)
  }

  /**
   * The two maps of the loop, each with its insertion order: `routeIds` (id to file) and
   * `routeIdConflicts` (id to the files that claimed it).
   */
  datatype IdTable = IdTable(order: seq<string>, files: map<string, string>,
                             conflictOrder: seq<string>, conflicts: map<string, seq<string>>)

  const EmptyTable := IdTable([], map[], [], map[])

  /**
   * One turn of the loop for a file with id `id`. The stored file decides (`if (conflict)`): a
   * non-empty one wins and the new file is recorded as a conflict; a missing or empty one (which
   * JavaScript treats as false) is replaced by the new file.
   */
  function Record(t: IdTable, id: string, normalizedFile: string): IdTable {
    if id in t.files && t.files[id] != "" then
      var current := if id in t.conflicts then t.conflicts[id] else [t.files[id]];
      t.(conflictOrder := if id in t.conflicts then t.conflictOrder else t.conflictOrder + [id],
         conflicts := t.conflicts[id := current + [normalizedFile]])
    else
      t.(order := if id in t.files then t.order else t.order + [id],
         files := t.files[id := normalizedFile])
  }

  /** Each file's id under `idOf`, beside the file with its slashes normalised. */
  function Labelled(files: seq<string>, idOf: string -> string): (es: seq<RouteEntry>)
    ensures |es| == |files|
    decreases |files|
  {
    if files == [] then [] else [(idOf(files[0]), NormalizeSlashes(files[0]))] + Labelled(files[1..], idOf)
  }

  lemma {:induction false} LabelledAt(files: seq<string>, idOf: string -> string, k: nat)
    requires k < |files|
    ensures Labelled(files, idOf)[k] == (idOf(files[k]), NormalizeSlashes(files[k]))
    decreases k
  {
    if k > 0 {
      LabelledAt(files[1..], idOf, k - 1);
      assert files[1..][k - 1] == files[k];
    }
  }

  /** The id of a file under `options`, with the defaults filled in. */
  function IdLabel(options: RouteIdOptions): string -> string {
    file => RouteIdOf(file, options.prefix.GetOr(""), options.suffix.GetOr(""), options.indexNames.GetOr([]))
  }

  /** The tables after the first `n` labelled files. */
  function Collect(labelled: seq<RouteEntry>, n: nat): IdTable
    requires n <= |labelled|
  {
    if n == 0 then EmptyTable else Record(Collect(labelled, n - 1), labelled[n - 1].0, labelled[n - 1].1)
  }

  predicate Distinct(ids: seq<string>) {
    forall i, j :: 0 <= i < j < |ids| ==> ids[i] != ids[j]
  }

  /** No id appears twice among the pairs. */
  predicate UniqueIds(entries: seq<RouteEntry>) {
    forall i, j :: 0 <= i < j < |entries| ==> entries[i].0 != entries[j].0
  }

  /** Each insertion order lists the keys of its map, once each. */
  ghost predicate TableValid(t: IdTable) {
    Distinct(t.order) && (forall id :: id in t.order <==> id in t.files) &&
    Distinct(t.conflictOrder) && (forall id :: id in t.conflictOrder <==> id in t.conflicts)
  }

  lemma {:induction false} CollectValid(labelled: seq<RouteEntry>, n: nat)
    requires n <= |labelled|
    ensures TableValid(Collect(labelled, n))
    decreases n
  {
    if n > 0 {
      CollectValid(labelled, n - 1);
      RecordValid(Collect(labelled, n - 1), labelled[n - 1].0, labelled[n - 1].1);
    }
  }

  lemma RecordValid(t: IdTable, id: string, normalizedFile: string)
    requires TableValid(t)
    ensures TableValid(Record(t, id, normalizedFile))
  {
  }

  /** `Array.from(routeIds)`: the `(id, file)` pairs in insertion order. */
  function TableEntries(order: seq<string>, files: map<string, string>): (es: seq<RouteEntry>)
    requires forall id :: id in order ==> id in files
    ensures |es| == |order|
    ensures forall k :: 0 <= k < |order| ==> es[k] == (order[k], files[order[k]])
    decreases |order|
  {
    if order == [] then [] else [(order[0], files[order[0]])] + TableEntries(order[1..], files)
  }

  /** One id-collision report per conflicting id, in the order the conflicts were first seen. */
  function ConflictReports(conflictOrder: seq<string>, conflicts: map<string, seq<string>>): (ms: seq<string>)
    requires forall id :: id in conflictOrder ==> id in conflicts
    ensures |ms| == |conflictOrder|
    decreases |conflictOrder|
  {
    if conflictOrder == [] then []
    else [RouteIdConflictMessage(conflictOrder[0], conflicts[conflictOrder[0]])] +
         ConflictReports(conflictOrder[1..], conflicts)
  }

  // ----- The stable sort `.sort(([a], [b]) => b.length - a.length)` -----

  /** The id lengths never increase along `es`. */
  predicate LongestFirst(es: seq<RouteEntry>) {
    forall i, j :: 0 <= i < j < |es| ==> |es[i].0| >= |es[j].0|
  }

  /** Places `e` after the longer ids and before the rest, so ties keep their order. */
  function InsertByLength(e: RouteEntry, sorted: seq<RouteEntry>): seq<RouteEntry>
    decreases |sorted|
  {
    if sorted == [] || |e.0| >= |sorted[0].0| then [e] + sorted
    else [sorted[0]] + InsertByLength(e, sorted[1..])
  }

  /** An insertion sort by descending id length; equal lengths stay in the order given. */
  function SortByIdLength(es: seq<RouteEntry>): seq<RouteEntry>
    decreases |es|
  {
    if es == [] then [] else InsertByLength(es[0], SortByIdLength(es[1..]))
  }

  /** The entries whose id has length `n`, in order. */
  function OfLength(es: seq<RouteEntry>, n: nat): seq<RouteEntry>
    decreases |es|
  {
    if es == [] then [] else (if |es[0].0| == n then [es[0]] else []) + OfLength(es[1..], n)
  }

  lemma {:induction false} InsertByLengthMultiset(e: RouteEntry, sorted: seq<RouteEntry>)
    ensures multiset(InsertByLength(e, sorted)) == multiset(sorted) + multiset{e}
    decreases |sorted|
  {
    if !(sorted == [] || |e.0| >= |sorted[0].0|) {
      InsertByLengthMultiset(e, sorted[1..]);
      assert sorted == [sorted[0]] + sorted[1..];
    }
  }

  lemma {:induction false} InsertByLengthSorted(e: RouteEntry, sorted: seq<RouteEntry>)
    requires LongestFirst(sorted)
    ensures LongestFirst(InsertByLength(e, sorted))
    decreases |sorted|
  {
    var r := InsertByLength(e, sorted);
    if !(sorted == [] || |e.0| >= |sorted[0].0|) {
      InsertByLengthSorted(e, sorted[1..]);
      InsertByLengthMultiset(e, sorted[1..]);
      var rest := InsertByLength(e, sorted[1..]);
      assert r == [sorted[0]] + rest;
      forall j | 0 < j < |r| ensures |r[0].0| >= |r[j].0| {
        var x := r[j];
        assert x == rest[j - 1];
        assert x in multiset(rest);
        if x != e {
          assert x in multiset(sorted[1..]);
          var m :| 0 <= m < |sorted[1..]| && sorted[1..][m] == x;
          assert sorted[m + 1] == x;
        }
      }
    }
  }

  lemma {:induction false} InsertByLengthOfLength(e: RouteEntry, sorted: seq<RouteEntry>, n: nat)
    ensures OfLength(InsertByLength(e, sorted), n) == (if |e.0| == n then [e] else []) + OfLength(sorted, n)
    decreases |sorted|
  {
    var r := InsertByLength(e, sorted);
    if sorted == [] || |e.0| >= |sorted[0].0| {
      assert r[1..] == sorted;
    } else {
      InsertByLengthOfLength(e, sorted[1..], n);
      var rest := InsertByLength(e, sorted[1..]);
      assert r[1..] == rest;
      if |e.0| == n {
        assert |sorted[0].0| != n;
      }
    }
  }

  /**
   * The sort gives a permutation of its input, longest ids first, and it is stable: for every
   * length, the entries of that length appear in the order given.
   */
  lemma {:induction false} SortByIdLengthFacts(es: seq<RouteEntry>)
    ensures LongestFirst(SortByIdLength(es))
    ensures multiset(SortByIdLength(es)) == multiset(es)
    ensures forall n: nat :: OfLength(SortByIdLength(es), n) == OfLength(es, n)
    decreases |es|
  {
    if es != [] {
      SortByIdLengthFacts(es[1..]);
      InsertByLengthSorted(es[0], SortByIdLength(es[1..]));
      InsertByLengthMultiset(es[0], SortByIdLength(es[1..]));
      assert es == [es[0]] + es[1..];
      forall n: nat ensures OfLength(SortByIdLength(es), n) == OfLength(es, n) {
        InsertByLengthOfLength(es[0], SortByIdLength(es[1..]), n);
      }
    }
  }

  /** Each file's id under `options`, beside the normalised file, in input order. */
  function Labels(routes: seq<string>, options: RouteIdOptions): seq<RouteEntry> {
    Labelled(routes, IdLabel(options))
  }

  /** The k-th label is the k-th file's id under `options`, beside the normalised file. */
  lemma LabelsAt(routes: seq<string>, options: RouteIdOptions, k: nat)
    requires k < |routes|
    ensures Labels(routes, options)[k] ==
      (RouteIdOf(routes[k], options.prefix.GetOr(""), options.suffix.GetOr(""), options.indexNames.GetOr([])), NormalizeSlashes(routes[k]))
  {
    LabelledAt(routes, IdLabel(options), k);
  }

  /** `Array.from(routeIds)` once every labelled file has been recorded. */
  function KeptEntries(labelled: seq<RouteEntry>): seq<RouteEntry> {
    var t := Collect(labelled, |labelled|);
    CollectValid(labelled, |labelled|);
    TableEntries(t.order, t.files)
  }

  /** The loop, the reports and the sort over files already labelled with their ids. */
  function IdsOfLabels(labelled: seq<RouteEntry>): (seq<RouteEntry>, seq<string>) {
    var t := Collect(labelled, |labelled|);
    CollectValid(labelled, |labelled|);
    (SortByIdLength(KeptEntries(labelled)), ConflictReports(t.conflictOrder, t.conflicts))
  }

  /** The result over a table that holds every labelled file. */
  lemma IdsOfTable(labelled: seq<RouteEntry>, t: IdTable)
    requires t == Collect(labelled, |labelled|)
    ensures TableValid(t)
    ensures IdsOfLabels(labelled) == (SortByIdLength(TableEntries(t.order, t.files)), ConflictReports(t.conflictOrder, t.conflicts))
  {
    CollectValid(labelled, |labelled|);
  }

  /** `getRouteIds(routes, options)`: the sorted `(id, file)` pairs and the id-collision reports. */
  function RouteIds(routes: seq<string>, options: RouteIdOptions): (seq<RouteEntry>, seq<string>) {
    IdsOfLabels(Labels(routes, options))
  }

  /** The `console.error` loop over `routeIdConflicts.entries()`, with the reports collected instead of printed. */
  method ReportIdConflicts(conflictOrder: seq<string>, routeIdConflicts: map<string, seq<string>>) returns (reports: seq<string>)
    requires forall id :: id in conflictOrder ==> id in routeIdConflicts
    ensures reports == ConflictReports(conflictOrder, routeIdConflicts)
  {
    reports := [];
    var k := 0;
    while k < |conflictOrder|
      invariant 0 <= k <= |conflictOrder|
      invariant reports == ConflictReports(conflictOrder[..k], routeIdConflicts)
    {
      var id := conflictOrder[k];
      ConflictReportsSnoc(conflictOrder[..k], id, routeIdConflicts);
      assert conflictOrder[..k + 1] == conflictOrder[..k] + [id];
      reports := reports + [RouteIdConflictMessage(id, routeIdConflicts[id])];
      k := k + 1;
    }
    assert conflictOrder[..k] == conflictOrder;
  }

  lemma {:induction false} ConflictReportsSnoc(ids: seq<string>, id: string, conflicts: map<string, seq<string>>)
    requires forall x :: x in ids ==> x in conflicts
    requires id in conflicts
    ensures ConflictReports(ids + [id], conflicts) == ConflictReports(ids, conflicts) + [RouteIdConflictMessage(id, conflicts[id])]
    decreases |ids|
  {
    if ids == [] {
      assert [] + [id] == [id];
    } else {
      ConflictReportsSnoc(ids[1..], id, conflicts);
      assert (ids + [id])[1..] == ids[1..] + [id];
    }
  }

  /** The table after a file whose id already has a stored, non-empty file. */
  lemma RecordConflict(t: IdTable, id: string, normalizedFile: string, conflictOrder: seq<string>, current: seq<string>)
    requires id in t.files && t.files[id] != ""
    requires conflictOrder == if id in t.conflicts then t.conflictOrder else t.conflictOrder + [id]
    requires current == (if id in t.conflicts then t.conflicts[id] else [t.files[id]]) + [normalizedFile]
    ensures Record(t, id, normalizedFile) == t.(conflictOrder := conflictOrder, conflicts := t.conflicts[id := current])
  {
  }

  /** The table after a file whose id has no stored file, or an empty one. */
  lemma RecordFile(t: IdTable, id: string, normalizedFile: string, order: seq<string>)
    requires !(id in t.files && t.files[id] != "")
    requires order == if id in t.files then t.order else t.order + [id]
    ensures Record(t, id, normalizedFile) == t.(order := order, files := t.files[id := normalizedFile])
  {
  }

  /**
   * The loop of `getRouteIds` over the files: each file's id (given here by `idOf`) is recorded
   * in `routeIds` unless a non-empty file already holds it, in which case the file is added to
   * that id's conflicts.
   */
  method CollectRouteIds(routes: seq<string>, idOf: string -> string) returns (table: IdTable)
    ensures table == Collect(Labelled(routes, idOf), |routes|)
  {
    var conflictOrder: seq<string> := [];
    var routeIdConflicts: map<string, seq<string>> := map[];
    var order: seq<string> := [];
    var routeIds: map<string, string> := map[];
    ghost var labelled := Labelled(routes, idOf);
    var i := 0;
    while i < |routes|
      invariant 0 <= i <= |routes|
      invariant IdTable(order, routeIds, conflictOrder, routeIdConflicts) == Collect(labelled, i)
    {
      var file := routes[i];
      i := i + 1;
      var normalizedFile := NormalizeSlashes(file);
      var routeId := idOf(file);
      LabelledAt(routes, idOf, i - 1);
      ghost var t := IdTable(order, routeIds, conflictOrder, routeIdConflicts);
      if routeId in routeIds && routeIds[routeId] != "" {
        var conflict := routeIds[routeId];
        var currentConflicts;
        if routeId in routeIdConflicts {
          currentConflicts := routeIdConflicts[routeId];
        } else {
          currentConflicts := [conflict];
          conflictOrder := conflictOrder + [routeId];
        }
        currentConflicts := currentConflicts + [normalizedFile];
        routeIdConflicts := routeIdConflicts[routeId := currentConflicts];
        RecordConflict(t, routeId, normalizedFile, conflictOrder, currentConflicts);
        continue;
      }
      if routeId !in routeIds {
        order := order + [routeId];
      }
      routeIds := routeIds[routeId := normalizedFile];
      RecordFile(t, routeId, normalizedFile, order);
    }
    table := IdTable(order, routeIds, conflictOrder, routeIdConflicts);
  }

  /** `getRouteIds(routes, options)`: the loop over the files, then the reports, then the sort. */
  method GetRouteIds(routes: seq<string>, options: RouteIdOptions) returns (sorted: seq<RouteEntry>, reports: seq<string>)
    ensures (sorted, reports) == RouteIds(routes, options)
  {
    var table := CollectRouteIds(routes, IdLabel(options));
    IdsOfTable(Labels(routes, options), table);
    reports := ReportIdConflicts(table.conflictOrder, table.conflicts);
    sorted := SortByIdLength(TableEntries(table.order, table.files));
  }
}
