/**
 * The two collision reports of core.js, `getRoutePathConflictErrorMessage` and
 * `getRouteIdConflictErrorMessage`: a header naming the colliding path or id, an explanation,
 * the winning file marked with a green circle and every other file marked with a red circle.
 */
module ConflictMessages {
  import opened JsString

  const Warning: string := "\U{26A0}\U{FE0F} "
  const TakenMark: string := "\U{1F7E2} "
  const OtherMark: string := "\U{2B55}\U{FE0F}\U{FE0F} "

  const Lead: string := "The following routes "
  const SameUrl: string := "all define the same URL, "
  const SameId: string := "all define the same Route ID, "
  const FirstUsed: string := "only the first one will be used"
  const PathExplanation: string := Lead + SameUrl + FirstUsed
  const IdExplanation: string := Lead + SameId + FirstUsed

  /** `const [taken, ...others] = files`: with no files, `taken` is `undefined`, which prints as such. */
  function TakenFile(files: seq<string>): string {
    if files == [] then "undefined" else files[0]
  }

  function OtherFiles(files: seq<string>): seq<string> {
    if files == [] then [] else files[1..]
  }

  /** `others.map((route) => `⭕️️ ${route}`)`. */
  function MarkOthers(others: seq<string>): (lines: seq<string>)
    ensures |lines| == |others|
    ensures forall k :: 0 <= k < |others| ==> lines[k] == OtherMark + others[k]
    decreases |others|
  {
    if others == [] then [] else [OtherMark + others[0]] + MarkOthers(others[1..])
  }

  /** The first line of a report: the kind of collision and the quoted path or id. */
  function Header(title: string, name: string): string {
    Warning + title + ": \"" + name + "\""
  }

  /** The shared shape of both reports. */
  function Report(title: string, name: string, explanation: string, files: seq<string>): string {
    Header(title, name) + "\n\n" +
    explanation + "\n\n" +
    TakenMark + TakenFile(files) + "\n" +
    Join(MarkOthers(OtherFiles(files)), "\n") +
    "\n"
  }

  /** `pathname` made absolute: a leading `/` is added when it is missing. */
  function AbsolutePath(pathname: string): (r: string)
    ensures StartsWith(r, "/")
    ensures StartsWith(pathname, "/") ==> r == pathname
    ensures !StartsWith(pathname, "/") ==> r == "/" + pathname
  {
    if StartsWith(pathname, "/") then pathname else "/" + pathname
  }

  /** `getRoutePathConflictErrorMessage(pathname, routes)`. */
  function RoutePathConflictMessage(pathname: string, routes: seq<string>): string {
    Report("Route Path Collision", AbsolutePath(pathname), PathExplanation, routes)
  }

  /** `getRouteIdConflictErrorMessage(routeId, files)`. */
  function RouteIdConflictMessage(routeId: string, files: seq<string>): string {
    Report("Route ID Collision", routeId, IdExplanation, files)
  }

  /**
   * The lines of a report: the header, a blank line, the explanation, a blank line, the winning
   * file, one line per other file (a blank one when there is none), and the empty rest after the
   * final newline.
   */
  function ReportLines(title: string, name: string, explanation: string, files: seq<string>): seq<string> {
    var others := MarkOthers(OtherFiles(files));
    [Header(title, name), "", explanation, "", TakenMark + TakenFile(files)]
      + (if others == [] then [""] else others) + [""]
  }

  lemma {:induction false} JoinLines(lines: seq<string>, rest: seq<string>)
    requires |lines| >= 1 && |rest| >= 1
    ensures Join(lines + rest, "\n") == Join(lines, "\n") + "\n" + Join(rest, "\n")
    decreases |lines|
  {
    if |lines| == 1 {
      assert lines + rest == [lines[0]] + rest;
      assert ([lines[0]] + rest)[1..] == rest;
    } else {
      JoinLines(lines[1..], rest);
      assert (lines + rest)[1..] == lines[1..] + rest;
    }
  }

  /** The report is its lines joined with newlines. */
  lemma ReportIsJoinedLines(title: string, name: string, explanation: string, files: seq<string>)
    ensures Join(ReportLines(title, name, explanation, files), "\n") == Report(title, name, explanation, files)
  {
    var others := MarkOthers(OtherFiles(files));
    var header := Header(title, name);
    var taken := TakenMark + TakenFile(files);
    var head := [header, "", explanation, "", taken];
    var tail := if others == [] then [""] else others;
    assert Join(tail, "\n") == Join(others, "\n") by {
      if others == [] {
        assert Join([""], "\n") == "";
      }
    }
    JoinLines(head + tail, [""]);
    JoinLines(head, tail);
    assert ReportLines(title, name, explanation, files) == head + tail + [""];
    var h := header + "\n" + ("" + "\n" + (explanation + "\n" + ("" + "\n" + taken)));
    assert Join(head, "\n") == h by {
      assert head[1..] == ["", explanation, "", taken];
      assert head[1..][1..] == [explanation, "", taken];
      assert head[1..][1..][1..] == ["", taken];
      assert head[1..][1..][1..][1..] == [taken];
      assert Join(head[1..][1..][1..], "\n") == "" + "\n" + taken;
      assert Join(head[1..][1..], "\n") == explanation + "\n" + ("" + "\n" + taken);
      assert Join(head[1..], "\n") == "" + "\n" + (explanation + "\n" + ("" + "\n" + taken));
    }
    assert Join(ReportLines(title, name, explanation, files), "\n") == h + "\n" + Join(others, "\n") + "\n";
    NewlineRuns(header, explanation, taken, Join(others, "\n"));
  }

  lemma NewlineRuns(a: string, b: string, c: string, d: string)
    ensures a + "\n" + ("" + "\n" + (b + "\n" + ("" + "\n" + c))) + "\n" + d + "\n"
         == a + "\n\n" + b + "\n\n" + c + "\n" + d + "\n"
  {
    assert "\n" + "" + "\n" == "\n\n";
  }

  /** No line of the report holds a newline, when no file, name or explanation does. */
  lemma ReportLinesAreLines(title: string, name: string, explanation: string, files: seq<string>)
    requires '\n' !in title && '\n' !in name && '\n' !in explanation
    requires forall k :: 0 <= k < |files| ==> '\n' !in files[k]
    ensures forall k :: 0 <= k < |ReportLines(title, name, explanation, files)| ==>
      '\n' !in ReportLines(title, name, explanation, files)[k]
  {
    var lines := ReportLines(title, name, explanation, files);
    var others := MarkOthers(OtherFiles(files));
    assert '\n' !in Warning && '\n' !in TakenMark && '\n' !in OtherMark;
    assert '\n' !in Header(title, name);
    forall k | 0 <= k < |lines| ensures '\n' !in lines[k] {
      if 5 <= k < |lines| - 1 && others != [] {
        assert lines[k] == others[k - 5];
        assert OtherFiles(files)[k - 5] == files[k - 4];
      }
    }
  }

  /**
   * A report splits, line by line, into `ReportLines`: as long as no file, name or explanation
   * holds a newline, the winning file and each other file can be read back from their own line,
   * in order.
   */
  lemma ReportSplitsIntoLines(title: string, name: string, explanation: string, files: seq<string>)
    requires '\n' !in title && '\n' !in name && '\n' !in explanation
    requires forall k :: 0 <= k < |files| ==> '\n' !in files[k]
    ensures Split(Report(title, name, explanation, files), '\n') == ReportLines(title, name, explanation, files)
  {
    ReportIsJoinedLines(title, name, explanation, files);
    ReportLinesAreLines(title, name, explanation, files);
    SplitJoin(ReportLines(title, name, explanation, files), '\n');
  }

  /** The titles and explanations of both reports hold no newline. */
  lemma FixedTextsAreLines()
    ensures '\n' !in "Route ID Collision" && '\n' !in IdExplanation
    ensures '\n' !in "Route Path Collision" && '\n' !in PathExplanation
  {
    TitlesAreLines();
    LeadsAreLines();
    EndsAreLines();
    NewlineFree(Lead, SameUrl);
    NewlineFree(Lead + SameUrl, FirstUsed);
    NewlineFree(Lead, SameId);
    NewlineFree(Lead + SameId, FirstUsed);
  }

  /** The report titles hold no newline. */
  lemma TitlesAreLines()
    ensures '\n' !in "Route ID Collision" && '\n' !in "Route Path Collision"
  {
  }

  /** The openings of the explanations hold no newline. */
  lemma LeadsAreLines()
    ensures '\n' !in Lead && '\n' !in SameUrl
  {
  }

  /** The rest of the explanations hold no newline. */
  lemma EndsAreLines()
    ensures '\n' !in SameId && '\n' !in FirstUsed
  {
  }

  /** Two texts with no newline make one with none. */
  lemma NewlineFree(a: string, b: string)
    requires '\n' !in a && '\n' !in b
    ensures '\n' !in a + b
  {
  }

  /**
   * The id report names the id in its header and lists the winning file and then every other
   * file, one per line, in the order given.
   */
  lemma IdReportLists(routeId: string, files: seq<string>)
    requires '\n' !in routeId && |files| >= 2
    requires forall k :: 0 <= k < |files| ==> '\n' !in files[k]
    ensures var lines := Split(RouteIdConflictMessage(routeId, files), '\n');
      |lines| == |files| + 5 &&
      lines[0] == Header("Route ID Collision", routeId) &&
      lines[4] == TakenMark + files[0] &&
      (forall k :: 1 <= k < |files| ==> lines[k + 4] == OtherMark + files[k]) &&
      lines[|files| + 4] == ""
  {
    FixedTextsAreLines();
    ReportSplitsIntoLines("Route ID Collision", routeId, IdExplanation, files);
    ReportLinesShape("Route ID Collision", routeId, IdExplanation, files);
  }

  /** With two files or more, the lines list the header, the winning file and then each other file. */
  lemma ReportLinesShape(title: string, name: string, explanation: string, files: seq<string>)
    requires |files| >= 2
    ensures var lines := ReportLines(title, name, explanation, files);
      |lines| == |files| + 5 &&
      lines[0] == Header(title, name) &&
      lines[4] == TakenMark + files[0] &&
      (forall k :: 1 <= k < |files| ==> lines[k + 4] == OtherMark + files[k]) &&
      lines[|files| + 4] == ""
  {
    var others := MarkOthers(OtherFiles(files));
    assert |others| == |files| - 1;
    forall k | 1 <= k < |files| ensures ReportLines(title, name, explanation, files)[k + 4] == OtherMark + files[k] {
      assert others[k - 1] == OtherMark + OtherFiles(files)[k - 1];
    }
  }

  /** The path report's header names the path made absolute. */
  lemma PathReportHeader(pathname: string, routes: seq<string>)
    requires '\n' !in pathname
    requires forall k :: 0 <= k < |routes| ==> '\n' !in routes[k]
    ensures Split(RoutePathConflictMessage(pathname, routes), '\n')[0]
         == Header("Route Path Collision", AbsolutePath(pathname))
  {
    assert '\n' !in AbsolutePath(pathname);
    FixedTextsAreLines();
    ReportSplitsIntoLines("Route Path Collision", AbsolutePath(pathname), PathExplanation, routes);
  }

  /** A path and the same path with a `/` in front are reported alike. */
  lemma PathReportAbsolute(pathname: string, routes: seq<string>)
    requires !StartsWith(pathname, "/")
    ensures RoutePathConflictMessage(pathname, routes) == RoutePathConflictMessage("/" + pathname, routes)
  {
    assert ("/" + pathname)[..1] == "/";
  }
}
