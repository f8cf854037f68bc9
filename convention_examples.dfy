/**
 * The two conventions on the file lists their own test suite uses: the id each file gets, the
 * manifest built from them, and the collision reports printed along the way.
 */
module ConventionExamples {
  import opened Wrappers
  import opened JsString
  import opened ConflictMessages
  import opened Slashes
  import opened RouteIds
  import opened RouteIdFacts
  import opened RouteConfigs

  const FlatIndexNames: seq<string> := ["index", "route", "_index", "_route"]

  /** Joining two parts puts one separator between them. */
  lemma JoinTwo(a: string, b: string, sep: string)
    ensures Join([a, b], sep) == a + sep + b
  {
    assert [a, b][1..] == [b];
  }

  /** Joining three parts puts one separator between each neighbouring pair. */
  lemma JoinThree(a: string, b: string, c: string, sep: string)
    ensures Join([a, b, c], sep) == a + sep + b + sep + c
  {
    assert [a, b, c][1..] == [b, c];
    JoinTwo(b, c, sep);
  }

  /** A single folder contributes its name without the `+` when it is an ancestor folder, and nothing otherwise. */
  lemma AncestorNamesOne(x: string)
    ensures AncestorNames([x]) == if IsAncestorFolder(x) then [SliceTo(x, -1)] else []
  {
    assert [x][1..] == [];
  }

  /**
   * A file directly in `routes/` whose stem has no `+`, `/` or backslash is named by its stem,
   * whether or not the stem is an index name, and normalising its slashes leaves it as it is.
   */
  lemma RoutesFileId(stem: string, suffix: string, indexNames: seq<string>, file: string)
    requires stem != "" && '/' !in stem && '\\' !in stem && !IsAncestorFolder(stem)
    requires '/' !in suffix && '\\' !in suffix
    requires file == "routes/" + stem + suffix + ".tsx"
    ensures NormalizeSlashes(file) == file && RouteIdOf(file, "", suffix, indexNames) == stem
  {
    RoutesFileName(stem, suffix);
    FileNameNormal(["routes"], stem, suffix, "tsx");
    assert PlainFolders(["routes"]) == ["routes"] by {
      assert ["routes"][1..] == [];
    }
    IdOfFile(["routes"], stem, suffix, "tsx", "", indexNames);
    AncestorNamesOne("routes");
    assert [] + [SliceFrom(stem, 0)] == [stem];
  }

  /** The file `routes/stem` + `suffix` + `.tsx`, in parts. */
  lemma RoutesFileName(stem: string, suffix: string)
    requires stem != "" && '/' !in stem && '\\' !in stem && !IsAncestorFolder(stem)
    requires '/' !in suffix && '\\' !in suffix
    ensures PlainParts(["routes"], stem, suffix, "tsx")
    ensures FileName(["routes"], stem, suffix, "tsx") == "routes/" + stem + suffix + ".tsx"
  {
    var name := stem + suffix + "." + "tsx";
    assert ["routes"] + [name] == ["routes", name];
    JoinTwo("routes", name, "/");
  }

  /** A file at the top level whose stem has no `+`, `/` or backslash is named by its stem. */
  lemma TopFileId(stem: string, suffix: string, indexNames: seq<string>, file: string)
    requires stem != "" && '/' !in stem && '\\' !in stem && !IsAncestorFolder(stem)
    requires '/' !in suffix && '\\' !in suffix
    requires stem !in indexNames
    requires file == stem + suffix + ".tsx"
    ensures NormalizeSlashes(file) == file && RouteIdOf(file, "", suffix, indexNames) == stem
  {
    var name := stem + suffix + "." + "tsx";
    assert PlainParts([], stem, suffix, "tsx");
    assert [] + [name] == [name];
    assert FileName([], stem, suffix, "tsx") == stem + suffix + ".tsx";
    FileNameNormal([], stem, suffix, "tsx");
    IdOfFile([], stem, suffix, "tsx", "", indexNames);
    assert AncestorNames([]) == [];
    assert [] + [SliceFrom(stem, 0)] == [stem];
  }

  /** The folders `routes` and `a+`: only the second names an ancestor, `a`, and only the first is kept. */
  lemma RoutesAncestor(a: string)
    ensures AncestorNames(["routes", a + "+"]) == [a]
    ensures PlainFolders(["routes", a + "+"]) == ["routes"]
  {
    AncestorNamesAppend(["routes"], [a + "+"]);
    PlainFoldersAppend(["routes"], [a + "+"]);
    assert ["routes"] + [a + "+"] == ["routes", a + "+"];
    AncestorNamesOne("routes");
    AncestorNamesOne(a + "+");
    assert ["routes"][1..] == [] && [a + "+"][1..] == [];
    assert SliceTo(a + "+", -1) == a;
  }

  /** `routes/a+/b` + `suffix` + `.tsx`, in parts. */
  lemma NestedFileName(a: string, b: string, suffix: string)
    requires '/' !in a && '\\' !in a
    requires b != "" && '/' !in b && '\\' !in b && !IsAncestorFolder(b)
    requires '/' !in suffix && '\\' !in suffix
    ensures PlainParts(["routes", a + "+"], b, suffix, "tsx")
    ensures FileName(["routes", a + "+"], b, suffix, "tsx") == "routes/" + a + "+/" + b + suffix + ".tsx"
  {
    var name := b + suffix + "." + "tsx";
    assert ["routes", a + "+"] + [name] == ["routes", a + "+", name];
    JoinThree("routes", a + "+", name, "/");
  }

  /**
   * Under `routes/`, a file `b` inside the folder `a+` is named `a.b`: the `+` folder is an
   * ancestor, whatever the index names are.
   */
  lemma NestedFileId(a: string, b: string, suffix: string, indexNames: seq<string>, file: string)
    requires '/' !in a && '\\' !in a
    requires b != "" && '/' !in b && '\\' !in b && !IsAncestorFolder(b)
    requires '/' !in suffix && '\\' !in suffix
    requires file == "routes/" + a + "+/" + b + suffix + ".tsx"
    ensures NormalizeSlashes(file) == file && RouteIdOf(file, "", suffix, indexNames) == a + "." + b
  {
    var folders := ["routes", a + "+"];
    NestedFileName(a, b, suffix);
    FileNameNormal(folders, b, suffix, "tsx");
    RoutesAncestor(a);
    IdOfFile(folders, b, suffix, "tsx", "", indexNames);
    assert [a] + [SliceFrom(b, 0)] == [a, b];
    JoinTwo(a, b, ".");
  }

  /** `a+/b` + `suffix` + `.tsx`, in parts. */
  lemma TopNestedFileName(a: string, b: string, suffix: string)
    requires '/' !in a && '\\' !in a
    requires b != "" && '/' !in b && '\\' !in b && !IsAncestorFolder(b)
    requires '/' !in suffix && '\\' !in suffix
    ensures PlainParts([a + "+"], b, suffix, "tsx")
    ensures FileName([a + "+"], b, suffix, "tsx") == a + "+/" + b + suffix + ".tsx"
  {
    var name := b + suffix + "." + "tsx";
    assert [a + "+"] + [name] == [a + "+", name];
    JoinTwo(a + "+", name, "/");
  }

  /** At the top level, a file `b` inside the folder `a+` is named `a.b`. */
  lemma TopNestedFileId(a: string, b: string, suffix: string, indexNames: seq<string>, file: string)
    requires '/' !in a && '\\' !in a
    requires b != "" && '/' !in b && '\\' !in b && !IsAncestorFolder(b)
    requires '/' !in suffix && '\\' !in suffix
    requires b !in indexNames
    requires file == a + "+/" + b + suffix + ".tsx"
    ensures NormalizeSlashes(file) == file && RouteIdOf(file, "", suffix, indexNames) == a + "." + b
  {
    var folders := [a + "+"];
    TopNestedFileName(a, b, suffix);
    FileNameNormal(folders, b, suffix, "tsx");
    AncestorNamesOne(a + "+");
    assert SliceTo(a + "+", -1) == a;
    IdOfFile(folders, b, suffix, "tsx", "", indexNames);
    assert [a] + [SliceFrom(b, 0)] == [a, b];
    JoinTwo(a, b, ".");
  }

  /** `routes/a/stem.tsx`, in parts. */
  lemma FolderFileName(a: string, stem: string)
    requires a != "" && '/' !in a && '\\' !in a
    requires stem != "" && '/' !in stem && '\\' !in stem && !IsAncestorFolder(stem)
    ensures PlainParts(["routes", a], stem, "", "tsx")
    ensures FileName(["routes", a], stem, "", "tsx") == "routes/" + a + "/" + stem + ".tsx"
  {
    var name := stem + "" + "." + "tsx";
    assert ["routes", a] + [name] == ["routes", a, name];
    JoinThree("routes", a, name, "/");
  }

  /** Under `routes/`, a file named by an index name inside the plain folder `a` stands for `a`. */
  lemma FolderIndexId(a: string, stem: string, indexNames: seq<string>, file: string)
    requires a != "" && '/' !in a && '\\' !in a && !IsAncestorFolder(a)
    requires stem != "" && '/' !in stem && '\\' !in stem && !IsAncestorFolder(stem)
    requires stem in indexNames
    requires file == "routes/" + a + "/" + stem + ".tsx"
    ensures NormalizeSlashes(file) == file && RouteIdOf(file, "", "", indexNames) == a
  {
    var folders := ["routes", a];
    FolderFileName(a, stem);
    FileNameNormal(folders, stem, "", "tsx");
    PlainFoldersAppend(["routes"], [a]);
    assert ["routes"] + [a] == folders;
    assert ["routes"][1..] == [] && [a][1..] == [];
    assert PlainFolders(folders) == ["routes", a];
    IdOfIndexFile(folders, stem, "", "tsx", "", indexNames);
  }

  // ----- getRouteIds over two or three labelled files -----

  /** Two files with different ids: both kept, no report, the longer id first (ties keep their order). */
  lemma DistinctPair(a: RouteEntry, b: RouteEntry)
    requires a.0 != b.0
    ensures IdsOfLabels([a, b]) == (if |a.0| >= |b.0| then [a, b] else [b, a], [])
  {
    var labelled := [a, b];
    var t1 := Record(EmptyTable, a.0, a.1);
    assert t1 == IdTable([a.0], map[a.0 := a.1], [], map[]);
    assert Collect(labelled, 1) == t1;
    var t := Record(t1, b.0, b.1);
    assert t == IdTable([a.0, b.0], map[a.0 := a.1, b.0 := b.1], [], map[]);
    assert Collect(labelled, 2) == t;
    IdsOfTable(labelled, t);
    assert TableEntries(t.order, t.files) == [a, b];
    assert SortByIdLength([b]) == [b] by {
      assert [b][1..] == [];
    }
    assert SortByIdLength([a, b]) == InsertByLength(a, [b]) by {
      assert [a, b][1..] == [b];
    }
    if |a.0| < |b.0| {
      assert InsertByLength(a, [b]) == [b] + InsertByLength(a, []) by {
        assert [b][1..] == [];
      }
      assert InsertByLength(a, []) == [a];
      assert [b] + [a] == [b, a];
    } else {
      assert InsertByLength(a, [b]) == [a] + [b];
    }
  }

  /** Two files with the same id: the first is kept, and one report lists both files in order. */
  lemma SamePair(a: RouteEntry, b: RouteEntry)
    requires a.0 == b.0 && a.1 != ""
    ensures IdsOfLabels([a, b]) == ([a], [RouteIdConflictMessage(a.0, [a.1, b.1])])
  {
    var labelled := [a, b];
    var t1 := Record(EmptyTable, a.0, a.1);
    assert t1 == IdTable([a.0], map[a.0 := a.1], [], map[]);
    assert Collect(labelled, 1) == t1;
    var t := Record(t1, b.0, b.1);
    assert t.conflictOrder == [] + [b.0] == [a.0];
    assert b.0 in t1.files && t1.files[b.0] == a.1 && b.0 !in t1.conflicts;
    assert t.conflicts == t1.conflicts[b.0 := [a.1] + [b.1]];
    assert t1.conflicts == map[] && [a.1] + [b.1] == [a.1, b.1];
    assert t.conflicts == map[a.0 := [a.1, b.1]];
    assert t == IdTable([a.0], map[a.0 := a.1], [a.0], map[a.0 := [a.1, b.1]]);
    assert Collect(labelled, 2) == t;
    IdsOfTable(labelled, t);
    assert TableEntries(t.order, t.files) == [a];
    assert SortByIdLength([a]) == [a] by {
      assert [a][1..] == [];
    }
    assert ConflictReports([a.0], t.conflicts) == [RouteIdConflictMessage(a.0, [a.1, b.1])] by {
      assert [a.0][1..] == [];
    }
  }

  /** One file: kept, no report. */
  lemma SingleLabel(a: RouteEntry)
    ensures IdsOfLabels([a]) == ([a], [])
  {
    var t := Record(EmptyTable, a.0, a.1);
    assert t == IdTable([a.0], map[a.0 := a.1], [], map[]);
    assert Collect([a], 1) == t;
    IdsOfTable([a], t);
    assert TableEntries(t.order, t.files) == [a];
    assert SortByIdLength([a]) == [a] by {
      assert [a][1..] == [];
    }
  }

  /** Three files with different ids given longest first: all kept in that order, no report. */
  lemma DistinctTriple(a: RouteEntry, b: RouteEntry, c: RouteEntry)
    requires a.0 != b.0 && a.0 != c.0 && b.0 != c.0
    requires |a.0| >= |b.0| >= |c.0|
    ensures IdsOfLabels([a, b, c]) == ([a, b, c], [])
  {
    var labelled := [a, b, c];
    var t := TripleTable(a, b, c);
    IdsOfTable(labelled, t);
    assert TableEntries(t.order, t.files) == [a, b, c];
    TripleSorted(a, b, c);
  }

  /** Recording three different ids keeps each with its file and reports nothing. */
  lemma TripleTable(a: RouteEntry, b: RouteEntry, c: RouteEntry) returns (t: IdTable)
    requires a.0 != b.0 && a.0 != c.0 && b.0 != c.0
    ensures t == IdTable([a.0, b.0, c.0], map[a.0 := a.1, b.0 := b.1, c.0 := c.1], [], map[])
    ensures Collect([a, b, c], 3) == t
  {
    var labelled := [a, b, c];
    var t1 := Record(EmptyTable, a.0, a.1);
    assert t1 == IdTable([a.0], map[a.0 := a.1], [], map[]);
    assert Collect(labelled, 1) == t1;
    var t2 := Record(t1, b.0, b.1);
    assert t2 == IdTable([a.0, b.0], map[a.0 := a.1, b.0 := b.1], [], map[]);
    assert Collect(labelled, 2) == t2;
    t := Record(t2, c.0, c.1);
  }

  /** Three entries already longest first are left in place by the sort. */
  lemma TripleSorted(a: RouteEntry, b: RouteEntry, c: RouteEntry)
    requires |a.0| >= |b.0| >= |c.0|
    ensures SortByIdLength([a, b, c]) == [a, b, c]
  {
    assert SortByIdLength([c]) == [c] by {
      assert [c][1..] == [];
    }
    assert SortByIdLength([b, c]) == [b, c] by {
      assert [b, c][1..] == [c];
    }
    assert SortByIdLength([a, b, c]) == InsertByLength(a, [b, c]) by {
      assert [a, b, c][1..] == [b, c];
    }
  }
}
