/**
 * Whole runs of the two conventions on the file shapes of their test suite: the ids, the manifest
 * with each route's parent and relative path, and the collision reports printed on the way. Each
 * case is stated for any plain words in place of the test's names (`blog`, `new`, `dashboard`, ...).
 */
module ConventionCases {
  import opened Wrappers
  import opened JsString
  import opened ConflictMessages
  import opened Slashes
  import opened Segments
  import opened SegmentExamples
  import opened RouteIds
  import opened RouteIdFacts
  import opened RouteErrors
  import opened Manifests
  import opened ManifestFacts
  import opened ManifestGroups
  import opened RouteConfigs
  import opened DottedIds
  import opened ConventionExamples

  /** A word shown as itself that cannot name a `+` folder and does not end in `_index`. */
  predicate Name(w: string) {
    Literal(w) && !IsAncestorFolder(w) && !EndsWith(w, "_index")
  }

  /** The characters a name cannot hold. */
  lemma NameChars(w: string)
    requires Name(w)
    ensures '/' !in w && '\\' !in w && '.' !in w && w != ""
  {
    assert forall c :: c in w ==> c == w[0] || c in w[1..];
  }

  /** A name after a `$` or a `.` does not end in `_index`: `_index` holds neither. */
  lemma NotIndexEnd(start: string, b: string)
    requires Name(b) && start != "" && start[|start| - 1] in "$."
    ensures !EndsWith(start + b, "_index")
  {
    var id := start + b;
    if |b| >= 6 {
      assert id[|id| - 6..] == b[|b| - 6..];
    } else {
      assert id[|id| - |b| - 1] == start[|start| - 1];
      assert forall i :: 0 <= i < 6 ==> "_index"[i] !in "$.";
    }
  }

  /** The template of one name is the name itself. */
  lemma NameTemplate(a: string)
    requires Name(a)
    ensures RouteSegments(a) == Success(Some(a))
  {
    assert [a][1..] == [];
    LiteralTemplate(a, [a]);
  }

  /** The template of `a.b` is `a/b`. */
  lemma PairTemplate(a: string, b: string)
    requires Name(a) && Name(b)
    ensures RouteSegments(a + "." + b) == Success(Some(a + "/" + b))
  {
    JoinTwo(a, b, ".");
    JoinTwo(a, b, "/");
    NotIndexEnd(a + ".", b);
    LiteralTemplate(a + "." + b, [a, b]);
  }

  // ----- Two routes -----

  /** The routes of `entries` keyed by id, each as `Settled` makes it. */
  function Kept(entries: seq<RouteEntry>, paths: seq<Result<Option<string>, RouteError>>): Manifest
    requires UniqueIds(entries) && |entries| == |paths|
  {
    map k | 0 <= k < |entries| :: entries[k].0 := Settled(entries, paths, k)
  }

  /** With distinct ids, all built, and no collision, every route is kept as settled, and no report is made. */
  lemma Uncontested(entries: seq<RouteEntry>)
    requires UniqueIds(entries)
    requires forall k :: 0 <= k < |entries| ==> RouteSegments(entries[k].0).Success? && entries[k].0 != ""
    requires forall k :: 0 <= k < |entries| ==> !Collides(entries, SegmentsOf(entries), k)
    ensures RouteManifest(entries) == Success((Kept(entries, SegmentsOf(entries)), []))
  {
    RouteManifestSucceeds(entries);
    RouteManifestShape(entries);
    PathReportsIffCollision(entries);
    var r := RouteManifest(entries);
    assert r.Success? && r.value.1 == [];
    SameManifest(r, entries, SegmentsOf(entries));
  }

  /** A built manifest with no report that holds exactly the settled routes is `Kept`. */
  lemma SameManifest(r: Result<(Manifest, seq<string>), RouteError>, entries: seq<RouteEntry>,
                     paths: seq<Result<Option<string>, RouteError>>)
    requires UniqueIds(entries) && |entries| == |paths|
    requires r.Success? && r.value.1 == []
    requires forall k :: 0 <= k < |entries| ==> entries[k].0 in r.value.0 && r.value.0[entries[k].0] == Settled(entries, paths, k)
    requires forall id :: id in r.value.0 ==> exists k :: 0 <= k < |entries| && entries[k].0 == id
    ensures r == Success((Kept(entries, paths), []))
  {
    var kept := Kept(entries, paths);
    forall id | id in r.value.0 ensures id in kept && kept[id] == r.value.0[id] {
      var k :| 0 <= k < |entries| && entries[k].0 == id;
    }
    forall id | id in kept ensures id in r.value.0 {
      var k :| 0 <= k < |entries| && entries[k].0 == id;
    }
    assert r.value.0 == kept;
  }

  /** Two routes with distinct ids, both built, and different keys: both kept as settled, no report. */
  lemma TwoRoutes(entries: seq<RouteEntry>)
    requires |entries| == 2 && entries[0].0 != entries[1].0 && entries[0].0 != "" && entries[1].0 != ""
    requires RouteSegments(entries[0].0).Success? && RouteSegments(entries[1].0).Success?
    requires var paths := SegmentsOf(entries);
      KeyAt(entries, paths, 1) == "" || KeyAt(entries, paths, 1) != KeyAt(entries, paths, 0)
    ensures var paths := SegmentsOf(entries);
      RouteManifest(entries) == Success((map[entries[0].0 := Settled(entries, paths, 0),
                                             entries[1].0 := Settled(entries, paths, 1)], []))
  {
    var paths := SegmentsOf(entries);
    TwoApart(entries, paths);
    KeptTwo(entries, paths);
    assert forall k :: 0 <= k < |entries| ==> RouteSegments(entries[k].0).Success? && entries[k].0 != "";
    Uncontested(entries);
  }

  /** Two kept routes. */
  lemma KeptTwo(entries: seq<RouteEntry>, paths: seq<Result<Option<string>, RouteError>>)
    requires |entries| == 2 == |paths| && entries[0].0 != entries[1].0
    ensures UniqueIds(entries)
    ensures Kept(entries, paths) == map[entries[0].0 := Settled(entries, paths, 0), entries[1].0 := Settled(entries, paths, 1)]
  {
  }

  /** Two routes with different keys, or the second with none, do not collide. */
  lemma TwoApart(entries: seq<RouteEntry>, paths: seq<Result<Option<string>, RouteError>>)
    requires |entries| == 2 == |paths|
    requires KeyAt(entries, paths, 1) == "" || KeyAt(entries, paths, 1) != KeyAt(entries, paths, 0)
    ensures forall k :: 0 <= k < 2 ==> !Collides(entries, paths, k)
  {
  }

  // ----- Folder wrapping: `routes/blog.tsx` and `routes/blog+/new.tsx` -----

  /** `a/b` below the path `a` is `b`, for any `b` that does not end in `/`. */
  lemma BelowName(a: string, b: string)
    requires a != "" && b != "" && b[|b| - 1] != '/'
    ensures RelativePath(Some(a + "/" + b), Some(a)) == Some(b)
  {
    var p := a + "/" + b;
    assert p[|a|..] == "/" + b;
    LeadingSlash(b);
  }

  /** Trimming `/b`, for a non-empty `b` that does not end in `/`, leaves `b`. */
  lemma LeadingSlash(b: string)
    requires b != "" && b[|b| - 1] != '/'
    ensures TrimOneSlash("/" + b) == b
  {
    var t := "/" + b;
    assert StartsWith(t, "/") && t[1..] == b;
    assert b[|b| - 1..] == [b[|b| - 1]];
  }

  /** In `[a.b, a]`, `a` claims `a.b` and nothing claims `a`. */
  lemma WrappingClaims(a: string, b: string, entries: seq<RouteEntry>)
    requires Name(a) && Name(b)
    requires |entries| == 2 && entries[0].0 == a + "." + b && entries[1].0 == a
    ensures Claimer(entries, 0, 2) == Some(1) && Claimer(entries, 1, 2) == None
  {
    var child := a + "." + b;
    BoundaryChar(a, child);
    assert child[..|a|] == a && child[|a|] == '.';
  }

  /** The layout `a` and the route `a.b` built from the two files, longest id first. */
  lemma WrappingManifest(a: string, b: string, entries: seq<RouteEntry>, f0: string, f1: string)
    requires Name(a) && Name(b)
    requires entries == [(a + "." + b, f1), (a, f0)]
    ensures RouteManifest(entries) == Success((map[
      a + "." + b := Route(f1, a + "." + b, false, Some(b), Some(a)),
      a := Route(f0, a, false, Some(a), Some("root"))], []))
  {
    NameTemplate(a);
    PairTemplate(a, b);
    NameChars(a);
    NameChars(b);
    NotIndexEnd(a + ".", b);
    var paths := SegmentsOf(entries);
    assert paths[0] == Success(Some(a + "/" + b)) && paths[1] == Success(Some(a));
    assert a + "/" + b != a;
    TwoRoutes(entries);
    WrappingClaims(a, b, entries);
    BelowName(a, b);
    assert Settled(entries, paths, 0) == Route(f1, a + "." + b, false, Some(b), Some(a));
    assert Settled(entries, paths, 1) == Route(f0, a, false, Some(a), Some("root"));
  }

  /** The labels of two files under flat routes: each file's id beside the file. */
  lemma FlatLabelsTwo(files: seq<string>, id0: string, id1: string)
    requires |files| == 2
    requires NormalizeSlashes(files[0]) == files[0] && RouteIdOf(files[0], "", "", FlatIndexNames) == id0
    requires NormalizeSlashes(files[1]) == files[1] && RouteIdOf(files[1], "", "", FlatIndexNames) == id1
    ensures Labels(files, FlatRoutesOptions) == [(id0, files[0]), (id1, files[1])]
  {
    LabelsAt(files, FlatRoutesOptions, 0);
    LabelsAt(files, FlatRoutesOptions, 1);
  }

  /** `routes/a.tsx` is the route `a`. */
  lemma FlatRootFile(a: string, file: string)
    requires Name(a) && file == "routes/" + a + ".tsx"
    ensures NormalizeSlashes(file) == file && RouteIdOf(file, "", "", FlatIndexNames) == a
  {
    NameChars(a);
    assert a + "" == a;
    RoutesFileId(a, "", FlatIndexNames, file);
  }

  /** `routes/a+/b.tsx` is the route `a.b`. */
  lemma FlatNestedFile(a: string, b: string, file: string)
    requires Name(a) && Name(b) && file == "routes/" + a + "+/" + b + ".tsx"
    ensures NormalizeSlashes(file) == file && RouteIdOf(file, "", "", FlatIndexNames) == a + "." + b
  {
    NameChars(a);
    NameChars(b);
    assert b + "" == b;
    NestedFileId(a, b, "", FlatIndexNames, file);
  }

  /** The ids of `routes/a.tsx` and `routes/a+/b.tsx`: `a.b` and `a`, longest first, with no report. */
  lemma WrappingIds(a: string, b: string, files: seq<string>)
    requires Name(a) && Name(b)
    requires files == ["routes/" + a + ".tsx", "routes/" + a + "+/" + b + ".tsx"]
    ensures RouteIds.RouteIds(files, FlatRoutesOptions) == ([(a + "." + b, files[1]), (a, files[0])], [])
  {
    FlatRootFile(a, files[0]);
    FlatNestedFile(a, b, files[1]);
    FlatLabelsTwo(files, a, a + "." + b);
    DistinctPair((a, files[0]), (a + "." + b, files[1]));
  }

  /**
   * Flat routes on `routes/a.tsx` and `routes/a+/b.tsx`: no report; `a` sits under `root` at
   * `a`, and `a.b` sits under `a` at `b` (the test's `blog` and `blog.new`).
   */
  lemma FolderWrapping(a: string, b: string, files: seq<string>)
    requires Name(a) && Name(b)
    requires files == ["routes/" + a + ".tsx", "routes/" + a + "+/" + b + ".tsx"]
    ensures Configure(files, FlatRoutesOptions) == Outcome([], Success((map[
      a + "." + b := Route(files[1], a + "." + b, false, Some(b), Some(a)),
      a := Route(files[0], a, false, Some(a), Some("root"))], [])))
  {
    WrappingIds(a, b, files);
    WrappingManifest(a, b, [(a + "." + b, files[1]), (a, files[0])], files[0], files[1]);
  }

  // ----- One route, and a folder with a `route` file -----

  /** A single route, built: kept as settled, under `root`, with no report. */
  lemma OneRoute(entries: seq<RouteEntry>)
    requires |entries| == 1 && entries[0].0 != "" && RouteSegments(entries[0].0).Success?
    ensures RouteManifest(entries) == Success((map[entries[0].0 := Settled(entries, SegmentsOf(entries), 0)], []))
  {
    var paths := SegmentsOf(entries);
    assert UniqueIds(entries);
    assert forall k :: 0 <= k < |entries| ==> !Collides(entries, paths, k);
    assert Kept(entries, paths) == map[entries[0].0 := Settled(entries, paths, 0)];
    Uncontested(entries);
  }

  /** The route `a` alone sits under `root` at the path `a`. */
  lemma LoneManifest(a: string, entries: seq<RouteEntry>, f: string)
    requires Name(a) && entries == [(a, f)]
    ensures RouteManifest(entries) == Success((map[a := Route(f, a, false, Some(a), Some("root"))], []))
  {
    NameTemplate(a);
    var paths := SegmentsOf(entries);
    assert paths[0] == Success(Some(a));
    OneRoute(entries);
    assert Claimer(entries, 0, 1) == None;
    assert Settled(entries, paths, 0) == Route(f, a, false, Some(a), Some("root"));
  }

  /** `routes/a/route.tsx` stands for `a`: `route` is an index name of flat routes. */
  lemma FlatFolderRouteFile(a: string, file: string)
    requires Name(a) && file == "routes/" + a + "/route.tsx"
    ensures NormalizeSlashes(file) == file && RouteIdOf(file, "", "", FlatIndexNames) == a
  {
    NameChars(a);
    assert "route" == FlatIndexNames[1];
    assert !IsAncestorFolder("route") && '/' !in "route" && '\\' !in "route";
    assert file == "routes/" + a + "/" + "route" + ".tsx";
    FolderIndexId(a, "route", FlatIndexNames, file);
  }

  /** The label of one file under flat routes: the file's id beside the file. */
  lemma FlatLabelsOne(files: seq<string>, id0: string)
    requires |files| == 1
    requires NormalizeSlashes(files[0]) == files[0] && RouteIdOf(files[0], "", "", FlatIndexNames) == id0
    ensures Labels(files, FlatRoutesOptions) == [(id0, files[0])]
  {
    LabelsAt(files, FlatRoutesOptions, 0);
  }

  /** Flat routes on `routes/a/route.tsx` alone: the route `a`, under `root` at `a` (the test's `folder`). */
  lemma FolderRoute(a: string, files: seq<string>)
    requires Name(a) && files == ["routes/" + a + "/route.tsx"]
    ensures Configure(files, FlatRoutesOptions) ==
      Outcome([], Success((map[a := Route(files[0], a, false, Some(a), Some("root"))], [])))
  {
    FlatFolderRouteFile(a, files[0]);
    FlatLabelsOne(files, a);
    SingleLabel((a, files[0]));
    LoneManifest(a, [(a, files[0])], files[0]);
  }

  /**
   * Flat routes on `routes/a.tsx` and `routes/a/route.tsx`: both are the route `a`, so the id is
   * reported with both files and only the first file is kept (the test's `dashboard`).
   */
  lemma FolderIdCollision(a: string, files: seq<string>)
    requires Name(a) && files == ["routes/" + a + ".tsx", "routes/" + a + "/route.tsx"]
    ensures Configure(files, FlatRoutesOptions) ==
      Outcome([RouteIdConflictMessage(a, files)], Success((map[a := Route(files[0], a, false, Some(a), Some("root"))], [])))
  {
    FlatRootFile(a, files[0]);
    FlatFolderRouteFile(a, files[1]);
    FlatLabelsTwo(files, a, a);
    SamePair((a, files[0]), (a, files[1]));
    assert [files[0], files[1]] == files;
    LoneManifest(a, [(a, files[0])], files[0]);
  }

  // ----- Three index routes at the same path -----

  /** Three routes sharing one non-empty key: the first collides with nothing, the others each with an earlier one. */
  lemma SharedKeyThree(entries: seq<RouteEntry>, paths: seq<Result<Option<string>, RouteError>>, key: string)
    requires |entries| == 3 == |paths| && key != ""
    requires forall k :: 0 <= k < 3 ==> KeyAt(entries, paths, k) == key
    ensures !Collides(entries, paths, 0) && Collides(entries, paths, 1) && Collides(entries, paths, 2)
  {
    assert KeyAt(entries, paths, 0) == KeyAt(entries, paths, 1) == KeyAt(entries, paths, 2);
  }

  /**
   * Three routes sharing one key and the original path `o`: the second opens the one group, at
   * `o`, which holds the first route and then the other two.
   */
  lemma SharedGroupThree(entries: seq<RouteEntry>, paths: seq<Result<Option<string>, RouteError>>, key: string, o: string)
    requires |entries| == 3 == |paths| && key != ""
    requires forall k :: 0 <= k < 3 ==> KeyAt(entries, paths, k) == key && OrigAt(entries, paths, k) == o
    ensures GroupOrder(entries, paths, 3) == [o]
    ensures Opener(entries, paths, o, 3).Some? && GroupOf(entries, paths, o, 3) == entries
  {
    SharedKeyThree(entries, paths, key);
    assert Opener(entries, paths, o, 1) == None;
    assert Opener(entries, paths, o, 2) == Some(1);
    assert Opener(entries, paths, o, 3) == Some(1);
    assert GroupOrder(entries, paths, 1) == [];
    assert GroupOrder(entries, paths, 2) == [o];
    assert LastWithKey(entries, paths, key, 1) == Some(0);
    assert Head(entries, paths, o, 3) == entries[0];
    var none: seq<RouteEntry> := [];
    assert Members(entries, paths, o, 1) == none;
    assert Members(entries, paths, o, 2) == [entries[1]];
    assert Members(entries, paths, o, 3) == [entries[1], entries[2]];
    assert [entries[0]] + [entries[1], entries[2]] == entries;
  }

  /** A built manifest that keeps one route and makes the given reports. */
  lemma KeptOne(r: Result<(Manifest, seq<string>), RouteError>, x0: string, r0: Route, reports: seq<string>)
    requires r.Success? && r.value.1 == reports
    requires x0 in r.value.0 && r.value.0[x0] == r0
    requires forall id :: id in r.value.0 ==> id == x0
    ensures r == Success((map[x0 := r0], reports))
  {
    assert r.value.0 == map[x0 := r0];
  }

  /** Three routes whose ids end in `_index` and whose templates are empty share the key of the bare index. */
  lemma IndexKeys(entries: seq<RouteEntry>, paths: seq<Result<Option<string>, RouteError>>)
    requires |entries| == 3 == |paths|
    requires forall k :: 0 <= k < 3 ==> paths[k] == Success(None) && EndsWith(entries[k].0, "_index")
    ensures forall k :: 0 <= k < 3 ==> KeyAt(entries, paths, k) == ConflictKey("", true) && OrigAt(entries, paths, k) == ""
  {
  }

  /** Three index routes with no template are built, and one report at the empty path lists their three files. */
  lemma ThreeIndexReports(entries: seq<RouteEntry>)
    requires |entries| == 3 && UniqueIds(entries)
    requires forall k :: 0 <= k < 3 ==> entries[k].0 != "" && RouteSegments(entries[k].0) == Success(None) && EndsWith(entries[k].0, "_index")
    ensures RouteManifest(entries).Success?
    ensures RouteManifest(entries).value.1 == [RoutePathConflictMessage("", Files(entries))]
  {
    var paths := SegmentsOf(entries);
    IndexKeys(entries, paths);
    SharedGroupThree(entries, paths, ConflictKey("", true), "");
    AllBuilt(entries);
    PathReportsContent(entries);
    var order := GroupOrder(entries, paths, |entries|);
    var reports := RouteManifest(entries).value.1;
    assert order == [""] && |reports| == 1;
    assert reports[0] == RoutePathConflictMessage(order[0], Files(GroupOf(entries, paths, order[0], |entries|)));
  }

  /** Routes whose ids are non-empty and whose templates are built give a built manifest. */
  lemma AllBuilt(entries: seq<RouteEntry>)
    requires forall k :: 0 <= k < |entries| ==> entries[k].0 != "" && RouteSegments(entries[k].0).Success?
    ensures RouteManifest(entries).Success?
  {
    RouteManifestSucceeds(entries);
  }

  /** Of three index routes with no template, only the first is kept, as settled. */
  lemma ThreeIndexKept(entries: seq<RouteEntry>)
    requires |entries| == 3 && UniqueIds(entries) && RouteManifest(entries).Success?
    requires forall k :: 0 <= k < 3 ==> RouteSegments(entries[k].0) == Success(None) && EndsWith(entries[k].0, "_index")
    ensures var final := RouteManifest(entries).value.0;
      entries[0].0 in final && final[entries[0].0] == Settled(entries, SegmentsOf(entries), 0) &&
      forall id :: id in final ==> id == entries[0].0
  {
    var paths := SegmentsOf(entries);
    IndexKeys(entries, paths);
    SharedKeyThree(entries, paths, ConflictKey("", true));
    RouteManifestShape(entries);
    OnlyFirst(RouteManifest(entries).value.0, entries, paths);
  }

  /** A manifest that holds only ids of the entries, and none of an entry that collides, holds at most the first of three. */
  lemma OnlyFirst(final: Manifest, entries: seq<RouteEntry>, paths: seq<Result<Option<string>, RouteError>>)
    requires |entries| == 3 == |paths| && Collides(entries, paths, 1) && Collides(entries, paths, 2)
    requires forall k :: 0 <= k < |entries| ==> (entries[k].0 in final <==> !Collides(entries, paths, k))
    requires forall id :: id in final ==> exists k :: 0 <= k < |entries| && entries[k].0 == id
    ensures forall id :: id in final ==> id == entries[0].0
  {
    forall id | id in final ensures id == entries[0].0 {
      var k :| 0 <= k < |entries| && entries[k].0 == id;
    }
  }

  /**
   * Three index routes with distinct ids and no template: all three ask for the bare index, so
   * the first is kept as settled and one report at the empty path lists the three files.
   */
  lemma ThreeIndexes(entries: seq<RouteEntry>)
    requires |entries| == 3 && UniqueIds(entries)
    requires forall k :: 0 <= k < 3 ==> entries[k].0 != "" && RouteSegments(entries[k].0) == Success(None) && EndsWith(entries[k].0, "_index")
    ensures RouteManifest(entries) == Success((map[entries[0].0 := Settled(entries, SegmentsOf(entries), 0)],
                                              [RoutePathConflictMessage("", Files(entries))]))
  {
    ThreeIndexReports(entries);
    ThreeIndexKept(entries);
    KeptOne(RouteManifest(entries), entries[0].0, Settled(entries, SegmentsOf(entries), 0), [RoutePathConflictMessage("", Files(entries))]);
  }
  /** `_index` is a word, and the id `_index` alone is an index id with no template. */
  lemma IndexWord(x: string)
    requires x == "_index"
    ensures Word(x) && x != "" && RouteSegments(x) == Success(None) && EndsWith(x, "_index")
  {
    assert forall k :: 0 <= k < 6 ==> Plain(x[k]);
    assert Join([x], ".") == x;
    assert EndsWith(x, "_index");
    DottedIndexTemplate(x, [x]);
    assert [x][..0] == [];
  }

  /** `_a` is a word when `a` is a name: the `_` opens a pathless layout. */
  lemma PathlessWord(a: string)
    requires Name(a)
    ensures Word("_" + a)
  {
    var w := "_" + a;
    assert w[0] == '_' && Plain('_');
    forall k | 1 <= k < |w| ensures Plain(w[k]) {
      assert w[k] == a[k - 1];
    }
  }

  /** The id `_a._index` has no template: the pathless layout shows nothing and the index adds nothing. */
  lemma PathlessIndexTemplate(a: string, id: string)
    requires Name(a) && id == "_" + a + "._index"
    ensures RouteSegments(id) == Success(None) && EndsWith(id, "_index")
  {
    var head := "_" + a;
    var ix := id[|a| + 2..];
    assert ix == "_index";
    assert id == head + "." + ix;
    var ws := [head, ix];
    IndexWord(ix);
    PathlessWord(a);
    JoinTwo(head, ix, ".");
    assert id[|id| - 6..] == ix;
    DottedIndexTemplate(id, ws);
    assert ws[..1] == [head];
    assert [head][1..] == [];
    assert Urls([head], false) == [];
  }

  /** The one separator of `_a._index` is the `.` before `_index`. */
  lemma PathlessIndexSeparators(a: string)
    requires Name(a)
    ensures forall k :: 0 <= k < |a| + 8 && k != |a| + 1 ==> ("_" + a + "._index")[k] !in "./"
  {
    var x := "_" + a + "._index";
    NameChars(a);
    forall k | 0 <= k < |x| && k != |a| + 1 ensures x[k] !in "./" {
      if 1 <= k <= |a| {
        assert x[k] == a[k - 1] && a[k - 1] in a;
      } else if k > |a| + 1 {
        assert x[k] == "._index"[k - |a| - 1];
      }
    }
  }

  /** Only `_a` is an ancestor of `_a._index`: it is the one prefix followed by a separator. */
  lemma PathlessIndexAncestor(a: string, y: string)
    requires Name(a)
    ensures Boundary(y, "_" + a + "._index") ==> y == "_" + a
  {
    var x := "_" + a + "._index";
    BoundaryChar(y, x);
    PathlessIndexSeparators(a);
    if Boundary(y, x) {
      assert x[|y|] in "./";
      assert x[..|a| + 1] == "_" + a;
    }
  }

  /** `routes/_a._index.tsx` is the route `_a._index`. */
  lemma FlatPathlessIndexFile(a: string, file: string)
    requires Name(a) && file == "routes/_" + a + "._index.tsx"
    ensures NormalizeSlashes(file) == file && RouteIdOf(file, "", "", FlatIndexNames) == "_" + a + "._index"
  {
    NameChars(a);
    var stem := "_" + a + "._index";
    assert stem[|stem| - 1..] == "x";
    assert file == "routes/" + stem + "" + ".tsx";
    RoutesFileId(stem, "", FlatIndexNames, file);
  }

  /** `routes/_index.tsx` is the route `_index`: two folders deep, it does not collapse. */
  lemma FlatIndexFile(file: string)
    requires file == "routes/_index.tsx"
    ensures NormalizeSlashes(file) == file && RouteIdOf(file, "", "", FlatIndexNames) == "_index"
  {
    assert "_index"[5..] == "x";
    assert file == "routes/" + "_index" + "" + ".tsx";
    RoutesFileId("_index", "", FlatIndexNames, file);
  }

  /** The labels of three files under flat routes: each file's id beside the file. */
  lemma FlatLabelsThree(files: seq<string>, id0: string, id1: string, id2: string)
    requires |files| == 3
    requires NormalizeSlashes(files[0]) == files[0] && RouteIdOf(files[0], "", "", FlatIndexNames) == id0
    requires NormalizeSlashes(files[1]) == files[1] && RouteIdOf(files[1], "", "", FlatIndexNames) == id1
    requires NormalizeSlashes(files[2]) == files[2] && RouteIdOf(files[2], "", "", FlatIndexNames) == id2
    ensures Labels(files, FlatRoutesOptions) == [(id0, files[0]), (id1, files[1]), (id2, files[2])]
  {
    LabelsAt(files, FlatRoutesOptions, 0);
    LabelsAt(files, FlatRoutesOptions, 1);
    LabelsAt(files, FlatRoutesOptions, 2);
  }

  /** The ids `_a._index` and `_b._index` differ for different names, and neither is `_index`. */
  lemma PathlessIndexIdsDiffer(a: string, b: string)
    requires Name(a) && Name(b) && a != b
    ensures "_" + a + "._index" != "_" + b + "._index"
    ensures "_" + a + "._index" != "_index" && "_" + b + "._index" != "_index"
  {
    NameChars(a);
    NameChars(b);
    var x, y := "_" + a + "._index", "_" + b + "._index";
    if |a| == |b| {
      assert x[1..|a| + 1] == a && y[1..|b| + 1] == b;
    }
  }

  /**
   * The ids of `routes/_a._index.tsx`, `routes/_b._index.tsx` and `routes/_index.tsx`, for
   * names with `a` no shorter than `b`: the three ids in file order, with no report.
   */
  lemma ThreeIndexIds(a: string, b: string, files: seq<string>)
    requires Name(a) && Name(b) && a != b && |a| >= |b|
    requires files == ["routes/_" + a + "._index.tsx", "routes/_" + b + "._index.tsx", "routes/_index.tsx"]
    ensures RouteIds.RouteIds(files, FlatRoutesOptions) ==
      ([("_" + a + "._index", files[0]), ("_" + b + "._index", files[1]), ("_index", files[2])], [])
  {
    FlatPathlessIndexFile(a, files[0]);
    FlatPathlessIndexFile(b, files[1]);
    FlatIndexFile(files[2]);
    FlatLabelsThree(files, "_" + a + "._index", "_" + b + "._index", "_index");
    PathlessIndexIdsDiffer(a, b);
    DistinctTriple(("_" + a + "._index", files[0]), ("_" + b + "._index", files[1]), ("_index", files[2]));
  }

  /** In `[_a._index, _b._index, _index]` no entry claims the first: none of them is `_a`. */
  lemma ThreeIndexUnclaimed(a: string, b: string, entries: seq<RouteEntry>)
    requires Name(a) && Name(b) && a != b && a != "index"
    requires |entries| == 3 && entries[0].0 == "_" + a + "._index" && entries[1].0 == "_" + b + "._index"
    requires entries[2].0 == "_index"
    ensures Claimer(entries, 0, 3) == None
  {
    PathlessIndexAncestor(a, entries[1].0);
    PathlessIndexAncestor(a, entries[2].0);
    assert entries[1].0 != "_" + a by {
      NameChars(a);
      assert entries[1].0[|b| + 1] == '.' && '.' !in "_" + a;
    }
    assert entries[2].0 != "_" + a by {
      assert ("_" + a)[1..] == a;
    }
    assert Claimer(entries, 0, 2) == None;
  }

  /** The three index ids `_a._index`, `_b._index`, `_index` are distinct. */
  lemma ThreeIndexUnique(a: string, b: string, entries: seq<RouteEntry>)
    requires Name(a) && Name(b) && a != b
    requires |entries| == 3 && entries[0].0 == "_" + a + "._index" && entries[1].0 == "_" + b + "._index"
    requires entries[2].0 == "_index"
    ensures UniqueIds(entries)
  {
    PathlessIndexIdsDiffer(a, b);
  }

  /** The three index ids `_a._index`, `_b._index`, `_index` are non-empty index ids with no template. */
  lemma ThreeIndexTemplates(a: string, b: string, entries: seq<RouteEntry>)
    requires Name(a) && Name(b)
    requires |entries| == 3 && entries[0].0 == "_" + a + "._index" && entries[1].0 == "_" + b + "._index"
    requires entries[2].0 == "_index"
    ensures forall k :: 0 <= k < 3 ==> entries[k].0 != "" && RouteSegments(entries[k].0) == Success(None) && EndsWith(entries[k].0, "_index")
  {
    PathlessIndexTemplate(a, entries[0].0);
    PathlessIndexTemplate(b, entries[1].0);
    IndexWord(entries[2].0);
    EachIndexTemplate(entries);
  }

  /** The facts about each of three index ids, gathered over all three. */
  lemma EachIndexTemplate(entries: seq<RouteEntry>)
    requires |entries| == 3
    requires entries[0].0 != "" && RouteSegments(entries[0].0) == Success(None) && EndsWith(entries[0].0, "_index")
    requires entries[1].0 != "" && RouteSegments(entries[1].0) == Success(None) && EndsWith(entries[1].0, "_index")
    requires entries[2].0 != "" && RouteSegments(entries[2].0) == Success(None) && EndsWith(entries[2].0, "_index")
    ensures forall k :: 0 <= k < 3 ==> entries[k].0 != "" && RouteSegments(entries[k].0) == Success(None) && EndsWith(entries[k].0, "_index")
  {
    forall k | 0 <= k < 3
      ensures entries[k].0 != "" && RouteSegments(entries[k].0) == Success(None) && EndsWith(entries[k].0, "_index")
    {
      var id := entries[k].0;
      assert id == entries[0].0 || id == entries[1].0 || id == entries[2].0;
    }
  }

  /**
   * The manifest of `[_a._index, _b._index, _index]`: only the first is kept, an index route
   * under `root` with no path, and one report at the empty path lists the three files in order.
   */
  lemma ThreeIndexManifest(a: string, b: string, entries: seq<RouteEntry>)
    requires Name(a) && Name(b) && a != b && a != "index"
    requires |entries| == 3 && entries[0].0 == "_" + a + "._index" && entries[1].0 == "_" + b + "._index"
    requires entries[2].0 == "_index"
    ensures RouteManifest(entries) ==
      Success((map[entries[0].0 := Route(entries[0].1, entries[0].0, true, None, Some("root"))],
               [RoutePathConflictMessage("", [entries[0].1, entries[1].1, entries[2].1])]))
  {
    ThreeIndexUnique(a, b, entries);
    ThreeIndexTemplates(a, b, entries);
    ThreeIndexSettled(a, b, entries);
    FirstOfThree(entries, Route(entries[0].1, entries[0].0, true, None, Some("root")));
  }

  /** `ThreeIndexes`, with the settled first route and the three files written out. */
  lemma FirstOfThree(entries: seq<RouteEntry>, r: Route)
    requires |entries| == 3 && UniqueIds(entries)
    requires forall k :: 0 <= k < 3 ==> entries[k].0 != "" && RouteSegments(entries[k].0) == Success(None) && EndsWith(entries[k].0, "_index")
    requires Settled(entries, SegmentsOf(entries), 0) == r
    ensures RouteManifest(entries) ==
      Success((map[entries[0].0 := r], [RoutePathConflictMessage("", [entries[0].1, entries[1].1, entries[2].1])]))
  {
    ThreeIndexes(entries);
    assert Files(entries) == [entries[0].1, entries[1].1, entries[2].1];
  }

  /** The first of `[_a._index, _b._index, _index]` settles as an index route under `root` with no path. */
  lemma ThreeIndexSettled(a: string, b: string, entries: seq<RouteEntry>)
    requires Name(a) && Name(b) && a != b && a != "index"
    requires |entries| == 3 && entries[0].0 == "_" + a + "._index" && entries[1].0 == "_" + b + "._index"
    requires entries[2].0 == "_index"
    ensures Settled(entries, SegmentsOf(entries), 0) == Route(entries[0].1, entries[0].0, true, None, Some("root"))
  {
    PathlessIndexTemplate(a, entries[0].0);
    ThreeIndexUnclaimed(a, b, entries);
    var paths := SegmentsOf(entries);
    assert paths[0] == Success(None);
  }

  /**
   * Flat routes on `routes/_a._index.tsx`, `routes/_b._index.tsx` and `routes/_index.tsx`: all
   * three are index routes at the bare path, so only the first is kept, under `root` with no
   * path, and one report at `/` lists the three files in their order (the test's `_dashboard`
   * and `_landing`).
   */
  lemma ThreeIndexFiles(a: string, b: string, files: seq<string>)
    requires Name(a) && Name(b) && a != b && |a| >= |b| && a != "index"
    requires files == ["routes/_" + a + "._index.tsx", "routes/_" + b + "._index.tsx", "routes/_index.tsx"]
    ensures Configure(files, FlatRoutesOptions) ==
      Outcome([], Success((map["_" + a + "._index" := Route(files[0], "_" + a + "._index", true, None, Some("root"))],
                           [RoutePathConflictMessage("", files)])))
  {
    ThreeIndexIds(a, b, files);
    var entries := [("_" + a + "._index", files[0]), ("_" + b + "._index", files[1]), ("_index", files[2])];
    ThreeIndexManifest(a, b, entries);
    assert [entries[0].1, entries[1].1, entries[2].1] == files;
  }

  // ----- Opting out of nesting: `app_.projects` and `app.skip_.layout` -----

  /** `a_` is a word shown as `a`: the trailing `_` is dropped from the URL. */
  lemma TrailingWord(a: string)
    requires Name(a)
    ensures Word(a + "_") && (a + "_")[0] != '_' && WordUrl(a + "_", false) == a
  {
    var w := a + "_";
    NameChars(a);
    forall k | 1 <= k < |w| ensures Plain(w[k]) {
      if k < |a| {
        assert w[k] == a[k];
      }
    }
    assert w[..|w| - 1] == a;
  }

  /** Literal names are words shown as themselves. */
  lemma NameUrl(a: string, last: bool)
    requires Name(a)
    ensures Word(a) && a[0] != '_' && WordUrl(a, last) == a
  {
  }

  /** The template of `a_.b` is `a/b`. */
  lemma OptOutTemplate(a: string, b: string)
    requires Name(a) && Name(b)
    ensures RouteSegments(a + "_." + b) == Success(Some(a + "/" + b))
  {
    var ws := [a + "_", b];
    TrailingWord(a);
    NameUrl(b, true);
    JoinTwo(a + "_", b, ".");
    assert a + "_" + "." + b == a + "_." + b;
    NotIndexEnd(a + "_.", b);
    DottedTemplate(a + "_." + b, ws);
    assert ws[1..] == [b];
    assert Urls([b], true) == [b];
    assert Urls(ws, true) == [a, b];
    JoinTwo(a, b, "/");
  }

  /** The template of `a.c_.d` is `a/c/d`. */
  lemma SkipTemplate(a: string, c: string, d: string)
    requires Name(a) && Name(c) && Name(d)
    ensures RouteSegments(a + "." + c + "_." + d) == Success(Some(a + "/" + c + "/" + d))
  {
    var ws := [a, c + "_", d];
    NameUrl(a, false);
    TrailingWord(c);
    NameUrl(d, true);
    JoinThree(a, c + "_", d, ".");
    assert a + "." + (c + "_") + "." + d == a + "." + c + "_." + d;
    NotIndexEnd(a + "." + c + "_.", d);
    DottedTemplate(a + "." + c + "_." + d, ws);
    assert ws[1..] == [c + "_", d] && ws[1..][1..] == [d];
    assert Urls([d], true) == [d];
    assert Urls([c + "_", d], true) == [c, d];
    assert Urls(ws, true) == [a, c, d];
    JoinThree(a, c, d, "/");
  }

  /** `routes/x.tsx`, for an `x` with no `/` or backslash that does not end in `+`, is the route `x`. */
  lemma FlatStemFile(x: string, file: string)
    requires x != "" && '/' !in x && '\\' !in x && x[|x| - 1] != '+'
    requires file == "routes/" + x + ".tsx"
    ensures NormalizeSlashes(file) == file && RouteIdOf(file, "", "", FlatIndexNames) == x
  {
    assert x[|x| - 1..] == [x[|x| - 1]];
    assert x + "" == x;
    RoutesFileId(x, "", FlatIndexNames, file);
  }

  /** A stem that ends in a name has no `/` or backslash when its start has none, and does not end in `+`. */
  lemma StemEndsInName(x: string, start: string, b: string)
    requires Name(b) && '/' !in start && '\\' !in start && x == start + b
    ensures x != "" && '/' !in x && '\\' !in x && x[|x| - 1] != '+'
  {
    NameChars(b);
    assert x[|x| - 1] == b[|b| - 1];
    assert b[|b| - 1..] == [b[|b| - 1]];
  }

  /** The ids of `routes/a.tsx` and `routes/x.tsx`, for a longer stem `x`: `x` first, no report. */
  lemma StemIds(a: string, x: string, files: seq<string>)
    requires Name(a) && |x| > |a| && '/' !in x && '\\' !in x && x[|x| - 1] != '+'
    requires files == ["routes/" + a + ".tsx", "routes/" + x + ".tsx"]
    ensures RouteIds.RouteIds(files, FlatRoutesOptions) == ([(x, files[1]), (a, files[0])], [])
  {
    FlatRootFile(a, files[0]);
    FlatStemFile(x, files[1]);
    FlatLabelsTwo(files, a, x);
    DistinctPair((a, files[0]), (x, files[1]));
  }

  /** In `[a_.b, a]` nothing claims `a_.b`: `a` is followed by `_`, not by a separator. */
  lemma OptOutUnclaimed(a: string, x: string, entries: seq<RouteEntry>)
    requires |x| > |a| && x[..|a|] == a && x[|a|] == '_'
    requires |entries| == 2 && entries[0].0 == x && entries[1].0 == a
    ensures Claimer(entries, 0, 2) == None
  {
    BoundaryChar(a, x);
  }

  /** The templates of `a_.b` and `a`, neither an index id. */
  lemma OptOutFacts(a: string, b: string, x: string)
    requires Name(a) && Name(b) && x == a + "_." + b
    ensures RouteSegments(x) == Success(Some(a + "/" + b)) && !EndsWith(x, "_index")
    ensures RouteSegments(a) == Success(Some(a)) && !EndsWith(a, "_index")
  {
    NameTemplate(a);
    OptOutTemplate(a, b);
    NotIndexEnd(a + "_.", b);
  }

  /** Neither of `a_.b` and `a` opens the other: `a` is followed by `_`, not by a separator. */
  lemma OptOutApart(a: string, b: string, x: string)
    requires Name(a) && x == a + "_." + b
    ensures x != "" && a != "" && x != a && a + "/" + b != a
    ensures !Boundary(x, a) && !Boundary(a, x)
  {
    NameChars(a);
    assert x[..|a|] == a && x[|a|] == '_';
    BoundaryChar(a, x);
    BoundaryChar(x, a);
  }

  /** The manifest of `[a_.b, a]`: both under `root`, `a_.b` at `a/b` and `a` at `a`, no report. */
  lemma OptOutManifest(a: string, b: string, x: string, entries: seq<RouteEntry>)
    requires Name(a) && Name(b) && x == a + "_." + b
    requires |entries| == 2 && entries[0].0 == x && entries[1].0 == a
    ensures RouteManifest(entries) == Success((map[
      x := Route(entries[0].1, x, false, Some(a + "/" + b), Some("root")),
      a := Route(entries[1].1, a, false, Some(a), Some("root"))], []))
  {
    OptOutFacts(a, b, x);
    OptOutApart(a, b, x);
    assert entries == [(x, entries[0].1), (a, entries[1].1)];
    ApartManifest(x, a, a + "/" + b, a, entries[0].1, entries[1].1);
  }

  /**
   * Flat routes on `routes/a.tsx` and `routes/a_.b.tsx`: the trailing `_` opts `a_.b` out of
   * nesting under `a`, so it sits under `root` at the whole path `a/b` (the test's `app` and
   * `app_.projects.$id.roadmap`).
   */
  lemma OptOutOfLayout(a: string, b: string, x: string, files: seq<string>)
    requires Name(a) && Name(b) && x == a + "_." + b
    requires files == ["routes/" + a + ".tsx", "routes/" + x + ".tsx"]
    ensures Configure(files, FlatRoutesOptions) == Outcome([], Success((map[
      x := Route(files[1], x, false, Some(a + "/" + b), Some("root")),
      a := Route(files[0], a, false, Some(a), Some("root"))], [])))
  {
    NameChars(a);
    StemEndsInName(x, a + "_.", b);
    StemIds(a, x, files);
    OptOutManifest(a, b, x, [(x, files[1]), (a, files[0])]);
  }

  /** In `[a.c_.d, a]`, `a` claims `a.c_.d`: it is followed by a `.`. */
  lemma SkipClaimed(a: string, x: string, entries: seq<RouteEntry>)
    requires |x| > |a| && x[..|a|] == a && x[|a|] == '.'
    requires |entries| == 2 && entries[0].0 == x && entries[1].0 == a
    ensures Claimer(entries, 0, 2) == Some(1)
  {
    BoundaryChar(a, x);
  }

  /**
   * The facts about `a.c_.d` that its manifest needs: its template is `a/c/d`, which below `a`
   * is `c/d`; it is not an index id; and `a` followed by `.` opens it.
   */
  lemma SkipId(a: string, c: string, d: string, x: string)
    requires Name(a) && Name(c) && Name(d) && x == a + "." + c + "_." + d
    ensures RouteSegments(x) == Success(Some(a + "/" + c + "/" + d))
    ensures RelativePath(Some(a + "/" + c + "/" + d), Some(a)) == Some(c + "/" + d)
    ensures !EndsWith(x, "_index") && |x| > |a| && x[..|a|] == a && x[|a|] == '.'
  {
    SkipTemplate(a, c, d);
    SkipNotIndex(a, c, d, x);
    SkipBelow(a, c, d);
    SkipOpens(a, c, d, x);
  }

  /** `a` followed by `.` opens `a.c_.d`. */
  lemma SkipOpens(a: string, c: string, d: string, x: string)
    requires x == a + "." + c + "_." + d
    ensures |x| > |a| && x[..|a|] == a && x[|a|] == '.'
  {
  }

  /** `a.c_.d` does not end in `_index`. */
  lemma SkipNotIndex(a: string, c: string, d: string, x: string)
    requires Name(d) && x == a + "." + c + "_." + d
    ensures !EndsWith(x, "_index")
  {
    NotIndexEnd(a + "." + c + "_.", d);
  }

  /** `a/c/d` below `a` is `c/d`. */
  lemma SkipBelow(a: string, c: string, d: string)
    requires Name(a) && Name(d)
    ensures RelativePath(Some(a + "/" + c + "/" + d), Some(a)) == Some(c + "/" + d)
  {
    var rel := c + "/" + d;
    NameChars(a);
    NameChars(d);
    LastOfJoin(c + "/", d);
    BelowName(a, rel);
    Regroup(a + "/", c + "/", d);
    Regroup(a + "/", c, "/");
  }

  /** Concatenation regroups. */
  lemma Regroup(x: string, y: string, z: string)
    ensures x + (y + z) == x + y + z
  {
  }

  /** A string that ends in a non-empty `d` ends in `d`'s last character. */
  lemma LastOfJoin(c: string, d: string)
    requires d != ""
    ensures (c + d)[|c + d| - 1] == d[|d| - 1]
  {
  }

  /** The route `a.c_.d` below `a` settles under `a` at `c/d`. */
  lemma SkipSettled(a: string, c: string, d: string, x: string, entries: seq<RouteEntry>)
    requires Name(a) && Name(c) && Name(d) && x == a + "." + c + "_." + d
    requires |entries| == 2 && entries[0].0 == x && entries[1].0 == a
    ensures Settled(entries, SegmentsOf(entries), 0) == Route(entries[0].1, x, false, Some(c + "/" + d), Some(a))
  {
    NameTemplate(a);
    SkipId(a, c, d, x);
    var paths := SegmentsOf(entries);
    assert paths[0] == Success(Some(a + "/" + c + "/" + d)) && paths[1] == Success(Some(a));
    SkipClaimed(a, x, entries);
  }

  /** The manifest of `[a.c_.d, a]`: `a.c_.d` under `a` at `c/d`, `a` under `root` at `a`, no report. */
  lemma SkipManifest(a: string, c: string, d: string, x: string, entries: seq<RouteEntry>)
    requires Name(a) && Name(c) && Name(d) && x == a + "." + c + "_." + d
    requires |entries| == 2 && entries[0].0 == x && entries[1].0 == a
    ensures RouteManifest(entries) == Success((map[
      x := Route(entries[0].1, x, false, Some(c + "/" + d), Some(a)),
      a := Route(entries[1].1, a, false, Some(a), Some("root"))], []))
  {
    NameTemplate(a);
    SkipId(a, c, d, x);
    var paths := SegmentsOf(entries);
    assert paths[0] == Success(Some(a + "/" + c + "/" + d)) && paths[1] == Success(Some(a));
    assert |a + "/" + c + "/" + d| != |a| && x != a;
    TwoRoutes(entries);
    SkipSettled(a, c, d, x, entries);
  }

  /**
   * Flat routes on `routes/a.tsx` and `routes/a.c_.d.tsx`: the trailing `_` of `c_` opts out of a
   * layout `a.c` that does not exist, so `a.c_.d` still nests under `a`, at `c/d` (the test's
   * `app.skip_.layout`).
   */
  lemma SkipMissingLayout(a: string, c: string, d: string, x: string, files: seq<string>)
    requires Name(a) && Name(c) && Name(d) && x == a + "." + c + "_." + d
    requires files == ["routes/" + a + ".tsx", "routes/" + x + ".tsx"]
    ensures Configure(files, FlatRoutesOptions) == Outcome([], Success((map[
      x := Route(files[1], x, false, Some(c + "/" + d), Some(a)),
      a := Route(files[0], a, false, Some(a), Some("root"))], [])))
  {
    NameChars(a);
    NameChars(c);
    StemEndsInName(x, a + "." + c + "_.", d);
    StemIds(a, x, files);
    SkipManifest(a, c, d, x, [(x, files[1]), (a, files[0])]);
  }

  // ----- Two routes apart: `_user.$username` and `sneakers.$sneakerId` -----

  /** `$p` is a word shown as the parameter `:p`. */
  lemma ParamWord(p: string, last: bool)
    requires Name(p)
    ensures Word("$" + p) && ("$" + p)[0] != '_' && WordUrl("$" + p, last) == ":" + p
  {
    var w := "$" + p;
    NameChars(p);
    forall k | 1 <= k < |w| ensures Plain(w[k]) {
      assert w[k] == p[k - 1];
    }
    assert w[|w| - 1] == p[|p| - 1];
    assert w[1..] == p;
  }


  /** The template of `_a.$p` is `:p`: the pathless `_a` shows nothing. */
  lemma PathlessParamTemplate(a: string, p: string, x: string)
    requires Name(a) && Name(p) && x == "_" + a + ".$" + p
    ensures RouteSegments(x) == Success(Some(":" + p)) && !EndsWith(x, "_index")
  {
    var ws := ["_" + a, "$" + p];
    PathlessWord(a);
    ParamWord(p, true);
    JoinTwo("_" + a, "$" + p, ".");
    assert "_" + a + "." + ("$" + p) == x;
    NotIndexEnd("_" + a + ".$", p);
    assert "_" + a + ".$" + p == x;
    DottedTemplate(x, ws);
    assert ws[1..] == ["$" + p] && ["$" + p][1..] == [];
    assert Urls(ws, true) == [":" + p];
    assert Join([":" + p], "/") == ":" + p;
  }

  /** The template of `c.$q` is `c/:q`. */
  lemma NameParamTemplate(c: string, q: string, y: string)
    requires Name(c) && Name(q) && y == c + ".$" + q
    ensures RouteSegments(y) == Success(Some(c + "/:" + q)) && !EndsWith(y, "_index")
  {
    var ws := [c, "$" + q];
    NameUrl(c, false);
    ParamWord(q, true);
    JoinTwo(c, "$" + q, ".");
    assert c + "." + ("$" + q) == y;
    NotIndexEnd(c + ".$", q);
    assert c + ".$" + q == y;
    DottedTemplate(y, ws);
    assert ws[1..] == ["$" + q] && ["$" + q][1..] == [];
    assert Urls(ws, true) == [c, ":" + q];
    JoinTwo(c, ":" + q, "/");
    assert c + "/" + (":" + q) == c + "/:" + q;
  }

  /** Ids with different first characters are never ancestors of each other. */
  lemma FirstCharApart(x: string, y: string)
    requires x != "" && y != "" && x[0] != y[0]
    ensures !Boundary(x, y) && !Boundary(y, x)
  {
    BoundaryChar(x, y);
    BoundaryChar(y, x);
  }

  /** What the manifest of `_a.$p` and `c.$q` needs: their templates, and that neither is an index or an ancestor. */
  lemma ApartIds(a: string, p: string, c: string, q: string, x: string, y: string)
    requires Name(a) && Name(p) && Name(c) && Name(q)
    requires x == "_" + a + ".$" + p && y == c + ".$" + q
    ensures RouteSegments(x) == Success(Some(":" + p)) && !EndsWith(x, "_index")
    ensures RouteSegments(y) == Success(Some(c + "/:" + q)) && !EndsWith(y, "_index")
    ensures x != "" && y != "" && x != y && ":" + p != c + "/:" + q
    ensures !Boundary(x, y) && !Boundary(y, x)
  {
    PathlessParamTemplate(a, p, x);
    NameParamTemplate(c, q, y);
    NameChars(p);
    assert x[0] == '_' && y[0] == c[0] != '_';
    assert (c + "/:" + q)[|c|] == '/' && (":" + p)[1..] == p;
    FirstCharApart(x, y);
  }

  /**
   * Two routes that are not index routes, neither an ancestor of the other, with different
   * non-empty templates: both under `root` at their templates, with no report.
   */
  lemma ApartManifest(u: string, v: string, pu: string, pv: string, g0: string, g1: string)
    requires RouteSegments(u) == Success(Some(pu)) && !EndsWith(u, "_index")
    requires RouteSegments(v) == Success(Some(pv)) && !EndsWith(v, "_index")
    requires u != "" && v != "" && u != v && pu != pv && pu != "" && pv != ""
    requires !Boundary(u, v) && !Boundary(v, u)
    ensures RouteManifest([(u, g0), (v, g1)]) == Success((map[
      u := Route(g0, u, false, Some(pu), Some("root")),
      v := Route(g1, v, false, Some(pv), Some("root"))], []))
  {
    var entries := [(u, g0), (v, g1)];
    var paths := SegmentsOf(entries);
    ApartKeys(u, v, pu, pv, g0, g1);
    TwoRoutes(entries);
    ApartSettled(u, v, pu, pv, g0, g1);
  }

  /** The keys of the two entries of `ApartManifest` differ. */
  lemma ApartKeys(u: string, v: string, pu: string, pv: string, g0: string, g1: string)
    requires RouteSegments(u) == Success(Some(pu)) && !EndsWith(u, "_index")
    requires RouteSegments(v) == Success(Some(pv)) && !EndsWith(v, "_index")
    requires pu != pv
    ensures var entries := [(u, g0), (v, g1)]; var paths := SegmentsOf(entries);
      KeyAt(entries, paths, 0) == pu && KeyAt(entries, paths, 1) == pv
  {
    var entries := [(u, g0), (v, g1)];
    var paths := SegmentsOf(entries);
    assert PathOf(paths[0]) == Some(pu) && PathOf(paths[1]) == Some(pv);
    assert pu + "" == pu && pv + "" == pv;
  }

  /** Neither entry of `ApartManifest` is claimed: both settle under `root` at their templates. */
  lemma ApartSettled(u: string, v: string, pu: string, pv: string, g0: string, g1: string)
    requires RouteSegments(u) == Success(Some(pu)) && !EndsWith(u, "_index")
    requires RouteSegments(v) == Success(Some(pv)) && !EndsWith(v, "_index")
    requires pu != "" && pv != ""
    requires !Boundary(v, u)
    ensures var entries := [(u, g0), (v, g1)]; var paths := SegmentsOf(entries);
      Settled(entries, paths, 0) == Route(g0, u, false, Some(pu), Some("root")) &&
      Settled(entries, paths, 1) == Route(g1, v, false, Some(pv), Some("root"))
  {
    var entries := [(u, g0), (v, g1)];
    var paths := SegmentsOf(entries);
    assert PathOf(paths[0]) == Some(pu) && PathOf(paths[1]) == Some(pv);
    assert Claimer(entries, 0, 2) == None;
  }

  /** The ids of `routes/_a.$p.tsx` and `routes/c.$q.tsx`, longest first, with no duplicate. */
  lemma ApartRouteIds(a: string, p: string, c: string, q: string, x: string, y: string, files: seq<string>)
    requires Name(a) && Name(p) && Name(c) && Name(q)
    requires x == "_" + a + ".$" + p && y == c + ".$" + q
    requires files == ["routes/" + x + ".tsx", "routes/" + y + ".tsx"]
    ensures RouteIds.RouteIds(files, FlatRoutesOptions)
      == (if |x| >= |y| then [(x, files[0]), (y, files[1])] else [(y, files[1]), (x, files[0])], [])
  {
    NameChars(a);
    NameChars(c);
    StemEndsInName(x, "_" + a + ".$", p);
    StemEndsInName(y, c + ".$", q);
    FlatStemFile(x, files[0]);
    FlatStemFile(y, files[1]);
    FlatLabelsTwo(files, x, y);
    assert x[0] == '_' && y[0] == c[0] != '_';
    DistinctPair((x, files[0]), (y, files[1]));
  }

  /**
   * Two files whose ids are `u` then `v` and whose routes are apart, as `ApartManifest` says,
   * configure to both routes under `root`.
   */
  lemma ApartConfigure(u: string, v: string, pu: string, pv: string, files: seq<string>, g0: string, g1: string)
    requires RouteSegments(u) == Success(Some(pu)) && !EndsWith(u, "_index")
    requires RouteSegments(v) == Success(Some(pv)) && !EndsWith(v, "_index")
    requires u != "" && v != "" && u != v && pu != pv && pu != "" && pv != ""
    requires !Boundary(u, v) && !Boundary(v, u)
    requires RouteIds.RouteIds(files, FlatRoutesOptions) == ([(u, g0), (v, g1)], [])
    ensures Configure(files, FlatRoutesOptions) == Outcome([], Success((map[
      u := Route(g0, u, false, Some(pu), Some("root")),
      v := Route(g1, v, false, Some(pv), Some("root"))], [])))
  {
    ApartManifest(u, v, pu, pv, g0, g1);
  }

  /** A map of two distinct keys does not depend on the order they are written in. */
  lemma SwapPair(k0: string, k1: string, r0: Route, r1: Route)
    requires k0 != k1
    ensures map[k0 := r0, k1 := r1] == map[k1 := r1, k0 := r0]
  {
  }

  /** `ApartConfigure` with the two ids in either order, the longer first. */
  lemma ApartEither(x: string, y: string, px: string, py: string, files: seq<string>)
    requires |files| == 2
    requires RouteSegments(x) == Success(Some(px)) && !EndsWith(x, "_index")
    requires RouteSegments(y) == Success(Some(py)) && !EndsWith(y, "_index")
    requires x != "" && y != "" && x != y && px != py && px != "" && py != ""
    requires !Boundary(x, y) && !Boundary(y, x)
    requires RouteIds.RouteIds(files, FlatRoutesOptions)
      == (if |x| >= |y| then [(x, files[0]), (y, files[1])] else [(y, files[1]), (x, files[0])], [])
    ensures Configure(files, FlatRoutesOptions) == Outcome([], Success((map[
      x := Route(files[0], x, false, Some(px), Some("root")),
      y := Route(files[1], y, false, Some(py), Some("root"))], [])))
  {
    if |x| >= |y| {
      ApartConfigure(x, y, px, py, files, files[0], files[1]);
    } else {
      ApartConfigure(y, x, py, px, files, files[1], files[0]);
      SwapPair(y, x, Route(files[1], y, false, Some(py), Some("root")), Route(files[0], x, false, Some(px), Some("root")));
    }
  }

  /**
   * Flat routes on `routes/_a.$p.tsx` and `routes/c.$q.tsx`: two routes under `root`, at `:p`
   * and `c/:q`, and nothing is reported (the test's `_user.$username` and `sneakers.$sneakerId`).
   */
  lemma ParamsApart(a: string, p: string, c: string, q: string, x: string, y: string, files: seq<string>)
    requires Name(a) && Name(p) && Name(c) && Name(q)
    requires x == "_" + a + ".$" + p && y == c + ".$" + q
    requires files == ["routes/" + x + ".tsx", "routes/" + y + ".tsx"]
    ensures Configure(files, FlatRoutesOptions) == Outcome([], Success((map[
      x := Route(files[0], x, false, Some(":" + p), Some("root")),
      y := Route(files[1], y, false, Some(c + "/:" + q), Some("root"))], [])))
  {
    ApartIds(a, p, c, q, x, y);
    ApartRouteIds(a, p, c, q, x, y, files);
    ApartEither(x, y, ":" + p, c + "/:" + q, files);
  }

  // ----- Route extensions: `a.route.tsx`, `a+/b.route.tsx`, and no index names -----

  /** The labels of two files under route extensions: each file's id beside the file. */
  lemma ExtLabelsTwo(files: seq<string>, id0: string, id1: string)
    requires |files| == 2
    requires NormalizeSlashes(files[0]) == files[0] && RouteIdOf(files[0], "", ".route", []) == id0
    requires NormalizeSlashes(files[1]) == files[1] && RouteIdOf(files[1], "", ".route", []) == id1
    ensures Labels(files, RouteExtensionsOptions) == [(id0, files[0]), (id1, files[1])]
  {
    LabelsAt(files, RouteExtensionsOptions, 0);
    LabelsAt(files, RouteExtensionsOptions, 1);
  }

  /** `a.route.tsx` is the route `a`: the `.route` suffix is cut with the extension. */
  lemma ExtTopFile(a: string, file: string)
    requires Name(a) && file == a + ".route.tsx"
    ensures NormalizeSlashes(file) == file && RouteIdOf(file, "", ".route", []) == a
  {
    NameChars(a);
    assert file == a + ".route" + ".tsx";
    TopFileId(a, ".route", [], file);
  }

  /** `a+/b.route.tsx` is the route `a.b`. */
  lemma ExtNestedFile(a: string, b: string, file: string)
    requires Name(a) && Name(b) && file == a + "+/" + b + ".route.tsx"
    ensures NormalizeSlashes(file) == file && RouteIdOf(file, "", ".route", []) == a + "." + b
  {
    NameChars(a);
    NameChars(b);
    assert file == a + "+/" + b + ".route" + ".tsx";
    TopNestedFileId(a, b, ".route", [], file);
  }

  /**
   * Route extensions on `a.route.tsx` and `a+/b.route.tsx`: no report; `a` sits under `root` at
   * `a`, and `a.b` sits under `a` at `b`, as flat routes give for `routes/a.tsx` and `routes/a+/b.tsx`.
   */
  lemma ExtWrapping(a: string, b: string, files: seq<string>)
    requires Name(a) && Name(b)
    requires files == [a + ".route.tsx", a + "+/" + b + ".route.tsx"]
    ensures Configure(files, RouteExtensionsOptions) == Outcome([], Success((map[
      a + "." + b := Route(files[1], a + "." + b, false, Some(b), Some(a)),
      a := Route(files[0], a, false, Some(a), Some("root"))], [])))
  {
    ExtTopFile(a, files[0]);
    ExtNestedFile(a, b, files[1]);
    ExtLabelsTwo(files, a, a + "." + b);
    DistinctPair((a, files[0]), (a + "." + b, files[1]));
    WrappingManifest(a, b, [(a + "." + b, files[1]), (a, files[0])], files[0], files[1]);
  }

  /** `routes/a/ix.route.tsx`, in parts. */
  lemma ExtFolderFileName(a: string, ix: string)
    requires '/' !in a && '\\' !in a
    requires ix != "" && '/' !in ix && '\\' !in ix && !IsAncestorFolder(ix)
    ensures PlainParts(["routes", a], ix, ".route", "tsx")
    ensures FileName(["routes", a], ix, ".route", "tsx") == "routes/" + a + "/" + ix + ".route.tsx"
  {
    var name := ix + ".route" + "." + "tsx";
    assert name == ix + ".route.tsx";
    assert ["routes", a] + [name] == ["routes", a, name];
    JoinThree("routes", a, name, "/");
  }

  /** The folders `routes` and `a` name no ancestor. */
  lemma PlainPair(a: string)
    requires Name(a)
    ensures AncestorNames(["routes", a]) == []
  {
    AncestorNamesAppend(["routes"], [a]);
    assert ["routes"] + [a] == ["routes", a];
    AncestorNamesOne("routes");
    AncestorNamesOne(a);
  }

  /**
   * Route extensions have no index names, so `routes/a/ix.route.tsx` is named by its stem `ix`,
   * not by its folder: the folder is not collapsed, whatever the stem is.
   */
  lemma ExtFolderFile(a: string, ix: string, file: string)
    requires Name(a) && Name(ix) && file == "routes/" + a + "/" + ix + ".route.tsx"
    ensures NormalizeSlashes(file) == file && RouteIdOf(file, "", ".route", []) == ix
  {
    NameChars(a);
    NameChars(ix);
    ExtFolderFileName(a, ix);
    FileNameNormal(["routes", a], ix, ".route", "tsx");
    IdOfFile(["routes", a], ix, ".route", "tsx", "", []);
    PlainPair(a);
    assert SliceFrom(ix, 0) == ix;
    assert AncestorNames(["routes", a]) + [SliceFrom(ix, 0)] == [ix];
    assert Join([ix], ".") == ix by {
      assert [ix][1..] == [];
    }
  }

  /**
   * Route extensions on `routes/a/index.route.tsx` and `routes/b/index.route.tsx`: both are the
   * route `index`, so the id is reported with both files and only the first is kept, under
   * `root` at `index`. Flat routes would collapse each file to its folder instead.
   */
  lemma ExtIndexCollision(a: string, b: string, ix: string, files: seq<string>)
    requires Name(a) && Name(b) && ix == "index"
    requires files == ["routes/" + a + "/" + ix + ".route.tsx", "routes/" + b + "/" + ix + ".route.tsx"]
    ensures Configure(files, RouteExtensionsOptions) ==
      Outcome([RouteIdConflictMessage(ix, files)], Success((map[ix := Route(files[0], ix, false, Some(ix), Some("root"))], [])))
  {
    IndexName(ix);
    ExtFolderFile(a, ix, files[0]);
    ExtFolderFile(b, ix, files[1]);
    ExtLabelsTwo(files, ix, ix);
    SamePair((ix, files[0]), (ix, files[1]));
    assert [files[0], files[1]] == files;
    LoneManifest(ix, [(ix, files[0])], files[0]);
  }

  /** `index` is a plain name. */
  lemma IndexName(ix: string)
    requires ix == "index"
    ensures Name(ix)
  {
  }
}
