# Route compiler of remix-custom-routes, in Dafny

This project models the part of remix-custom-routes that turns a list of route files into a
Remix route manifest, and proves what that compilation promises.

- **Route ids** (`getRouteIds`). Each file gets an id:
  - Windows separators are normalised to `/`.
  - The extension and the convention's suffix are cut off.
  - An index file in a sub-folder is collapsed into its folder.
  - Every `name+` folder adds an ancestor segment.
  - The ids are joined with `.`.
  - The first non-empty file that claims an id keeps it. Every later claim is reported as an
    id collision.
  - The surviving `(id, file)` pairs are stably sorted, longest id first.
- **Route segments** (`getRouteSegments`). A scanner over the id, with four states: normal,
  `[...]` escapes, `(...)` optional segments, and escapes inside optional segments. It:
  - turns `$` into a parameter (`:`) or a splat (`*`);
  - rejects `*`, `:` and `/` in a segment;
  - drops `_index`;
  - drops pathless layout segments that start with `_`;
  - removes a trailing `_`;
  - joins what is left into the URL template.
- **Manifest** (`getRouteManifest`). It works in three steps:
  - Pass 1 files every route. With the help of a prefix trie, each route claims as children the
    still-unclaimed longer ids that continue its own id with `.` or `/`.
  - Pass 2 makes each path relative to its parent's path, gives parentless routes the parent
    `root`, and groups routes whose path (and index flag) was already taken. The groups are keyed
    by the original path alone, as the code does.
  - Each group loses all routes but its first, and is reported as a path collision.
- **Prefix trie** (`PrefixLookupTrie`). A mutable class:
  - `add` marks a string live and throws on `""`.
  - `findAndRemove` collects and un-marks the live strings under a prefix that a filter
    accepts, children before their parent.
- **The two conventions.** `flatRoutesImpl` and `routeExtensionsImpl` are the same pipeline with
  different id options.

The code is modelled on values:

- Thrown errors are `Result` failures.
- Messages printed with `console.error` are returned as sequences of strings.
- JavaScript objects and `Map`s are Dafny `map`s, with their insertion order kept as a separate
  sequence where the code depends on it.
- Where the code works step by step, it is a `method` with loop invariants, proved equal to a
  specification function: the scanner, the id loop, both manifest passes, the reporting loop, and
  the trie class, whose node table is a field the methods update.

The facts are proved about those functions as lemmas. The main ones:

- The sort returns a permutation, longest first, and stable.
- Each id is kept once, with the file that won it.
- An id-collision report exists exactly for the ids claimed more than once.
- Manifest construction fails exactly when some id is empty or its segments throw.
- Each route's parent is its longest ancestor among the ids, or `root`.
- A path-collision report exists exactly when some route collides with an earlier one.
- Each route of the built manifest is settled as described, and the colliding ones are gone.
- The trie's `findAndRemove` returns exactly the accepted live strings under the prefix, in post
  order, and un-marks them.
- Slash normalisation is pointwise, removes every backslash and is idempotent.
- Each collision report reads back, line by line, as its header, the winning file and then the
  others.

Worked examples from the test suite show the expected route templates:

| route id | template |
|---|---|
| `$` | `*` |
| `_about.$splat` | `:splat` |
| `_about.[.]` | `.` |
| `(routes).$` | `routes?/*` |
| `(nested)._layout.($slug)` | `nested?/:slug?` |
| `_landing._index` | none |

## Model

| member | source | states |
|---|---|---|
| SegmentSeparator.SeparatorCharAgrees | isSegmentSeparator.js:6-9 | asking about a one-character string is asking whether its character is `/`, `.` or `\` |
| SegmentSeparator.SeparatorCharacterization | isSegmentSeparator.js:6-9 | a value is a separator iff it is defined and is exactly one of the three one-character strings; `undefined` and `""` are not |
| SegmentSeparator.LongStringsAreNotSeparators | isSegmentSeparator.js:8 | no string of two or more characters is a separator |
| Slashes.NormalizeSlashesPointwise | normalizeSlashes.js:6-8 | split-and-join on `\` keeps the length and replaces exactly the backslashes by `/`, leaving every other character in place |
| Slashes.NormalizeSlashesNoBackslash | normalizeSlashes.js:7 | no backslash survives normalisation |
| Slashes.NormalizeSlashesIdentity | normalizeSlashes.js:7 | a path without backslashes comes back unchanged |
| Slashes.NormalizeSlashesIdempotent | normalizeSlashes.js:7 | normalising twice equals normalising once |
| JsString.JoinSplit | normalizeSlashes.js:7 | joining the parts of `split(sep)` with `sep` gives the string back |
| JsString.SplitJoin | core.js:306 | parts free of the separator, joined and split again, come back unchanged |
| JsString.SplitPartsFree | core.js:59-60 | no part of a split holds the separator |
| JsString.Split | core.js:59-60 | `split` always yields at least one part |
| JsString.SliceTo | core.js:53-56 | `slice(0, end)` is the prefix of length `end` clamped to the string; a negative `end` counts from the end and is clamped at 0 |
| JsString.SliceFrom | core.js:79 | `slice(start)` is the suffix after the first `start` characters, of length `length - start`, or empty past the end |
| JsString.RemoveFirst | core.js:294 | `replace` with a one-character pattern cuts out exactly the first occurrence, at `indexOf`, and keeps everything else; with none the string is unchanged |
| JsString.IndexOf | core.js:294 | the position found is that of the first occurrence, and none is found iff the character is absent |
| JsString.FirstChar | core.js:122 | `charAt(0)` is at most one character |
| NodePath.LastIndexOf | core.js:51 | the last occurrence of a character: none iff it is absent, and no occurrence after it |
| NodePath.AfterLast | core.js:58 | the text after the last separator holds no separator and ends the string |
| NodePath.Basename | core.js:58 | `path.basename` holds no `/` |
| NodePath.ExtensionOf | core.js:51 | the extension ends the name and is one `.` followed by dot-free text, so it runs from the last `.`; it is non-empty iff that `.` is not the first character and the name is not `..` |
| NodePath.Extname | core.js:51 | `path.extname` runs from the last `.` of the basename to its end; it is non-empty iff that `.` is not the basename's first character and the basename is not `..` |
| NodePath.ExtensionOfName | core.js:51 | a name with text before its last `.` has as extension that `.` and what follows |
| NodePath.LastIndexOfBefore | core.js:51 | the last occurrence is the one followed by text without the character |
| NodePath.BasenameOfJoin | core.js:78 | the basename of folders joined with a last part is that part |
| JsString.JoinSnoc | core.js:68 | joining one more part appends the separator and that part |
| JsString.SplitPartsWithin | core.js:59-60 | every character of a part of a split is a character of the string |
| NodePath.AfterLastSnoc | core.js:78 | a character other than the separator extends the text after the last separator |
| NodePath.AfterLastSep | core.js:78 | the text after the last separator is exactly what follows it |
| NodePath.BasenameAfterSep | core.js:78 | the basename of `a/b`, for a non-empty `b` without `/`, is `b` |
| ConflictMessages.MarkOthers | core.js:352 | each other file becomes its own line, marked with the red circle, in order |
| ConflictMessages.AbsolutePath | core.js:345-347 | a path gains a leading `/` exactly when it lacks one |
| ConflictMessages.ReportIsJoinedLines | core.js:348-354 | a report is its header, blank line, explanation, blank line, winner and others joined with newlines |
| ConflictMessages.ReportLinesAreLines | core.js:348-354 | no line of a report holds a newline when no name, file or explanation does |
| ConflictMessages.ReportSplitsIntoLines | core.js:348-354 | splitting a report on newlines yields exactly its lines |
| ConflictMessages.ReportLinesShape | core.js:348-354 | with two files or more, line 0 is the header, line 4 the winner, each other file on its own line after it, and an empty rest |
| ConflictMessages.IdReportLists | core.js:361-370 | the id report names the id and lists the winning file, then every other file, one per line, in order |
| ConflictMessages.PathReportHeader | core.js:343-354 | the path report's header names the path made absolute |
| ConflictMessages.PathReportAbsolute | core.js:345-347 | a path and the same path with a leading `/` give the same report |
| Segments.ScanRouteId | core.js:193-276 | the character loop with its four states ends in the scanner state the step function defines, or in the error it throws |
| Segments.Next | core.js:193-196 | each character read advances the scanner by exactly one step |
| Segments.ScanWellFormed | core.js:314-328 | every pushed segment is non-empty, has no `/`, and its raw text has no `*` or `:` |
| Segments.AllSegmentsShape | core.js:277-278 | after the final push the display and raw lists are aligned, with no empty or slash-holding segment |
| Segments.FailureSticks | core.js:330-335 | once the scanner throws, reading further characters keeps the same error |
| Segments.ReservedCharPending | core.js:317-322 | a `*` or `:` read so far sits in the pending raw segment, whose display is non-empty, unless the scan has thrown |
| Segments.ReservedCharRejected | core.js:317-322 | an id holding `*` or `:` anywhere, even inside brackets, makes `getRouteSegments` throw |
| Segments.SlashPending | core.js:229-237 | a `/` read inside `[...]` or `(...)` stays in the pending segment's raw text, and that segment stays non-empty |
| Segments.SlashInBracketsRejected | core.js:323-325 | a `/` inside `[...]` or `(...)` makes `getRouteSegments` throw |
| Segments.StepAppends | core.js:225-227 | an ordinary character extends display and raw text by itself and changes nothing else |
| Segments.ParamStep | core.js:215-224 | a `$` opening an empty segment becomes `*` as the last character and `:` otherwise, with `$` kept in the raw text |
| Segments.SeparatorStep | core.js:198-204 | a separator outside brackets pushes the pending segment and starts an empty one |
| Segments.AppendRun | core.js:225-237 | a run of ordinary characters is copied into both texts, leaving the state alone |
| Segments.CloseEscape | core.js:229-233 | a closing `]` returns to the normal state and only extends the raw text |
| Segments.CloseOptional | core.js:240-244 | a closing `)` returns to the normal state and appends `?` to the display |
| Segments.ScanEscaped | core.js:205-237 | `[w]` reads as the pending segment `w`, separators included |
| Segments.ScanOptional | core.js:210-263 | `(w)` reads as the pending segment `w?` |
| Segments.SingleSegment | core.js:277-278 | a single pending segment that passes the checks is the only segment pushed |
| Segments.EscapedSegment | core.js:205-237 | the id `[w]` has the template `w`, the brackets dropped |
| Segments.OptionalSegment | core.js:210-263 | the id `(w)` has the template `w?`, or none when `w` starts with `_` |
| Segments.ShowSegments | core.js:287-304 | the post-processing loop yields the non-pathless segments, each without a trailing `_` |
| Segments.TemplateOfIndexSegments | core.js:280-306 | for an id ending in `_index`, the template is built from every pushed segment but the last, or is `undefined` when none of them is shown |
| Segments.TemplateOfSegments | core.js:280-306 | for an id not ending in `_index`, the template joins the shown form of every pushed segment, or is `undefined` when none is shown |
| Segments.ShownSlashFree | core.js:298-303 | no shown segment holds a `/` |
| Segments.TemplateSplitsIntoSegments | core.js:306 | the template splits on `/` back into exactly its segments |
| Segments.GetRouteSegments | core.js:179-306 | `getRouteSegments` returns the template or `undefined`, or the error it throws, as the specification function says |
| DottedIds.DottedSegments | core.js:193-278 | an id of words joined with `.` pushes one segment per word, its display text beside the word |
| DottedIds.LiteralUrls | core.js:287-304 | literal words are all shown, each as itself |
| DottedIds.DottedTemplate | core.js:179-306 | the template of such an id not ending in `_index` is the URL text of each word, pathless words left out, joined with `/`, or `undefined` when every word is pathless |
| DottedIds.DottedIndexTemplate | core.js:179-306 | for such an id ending in `_index`, the last word gives nothing and the others are shown as above |
| DottedIds.LiteralTemplate | core.js:179-306 | literal words joined with `.` give the same words joined with `/` |
| SegmentExamples.SplatAlone | flatRoutes/flatRoutes.test.ts:546-554 | `$` gives `*` |
| SegmentExamples.PathlessThenParam | core.js:215-224 | `_layout.$name` gives `:name` |
| SegmentExamples.AboutSplat | flatRoutes/flatRoutes.test.ts:138-146 | `_about.$splat` gives `:splat` |
| SegmentExamples.OptionalThenSplat | core.js:239-263 | `(name).$` gives `name?/*` |
| SegmentExamples.OptionalRoutesSplat | flatRoutes/flatRoutes.test.ts:308-316 | `(routes).$` gives `routes?/*` |
| SegmentExamples.OptionalLayoutOptionalParam | core.js:251-260 | `(name)._layout.($param)` gives `name?/:param?` |
| SegmentExamples.NestedLayoutOptionalParam | flatRoutes/flatRoutes.test.ts:299-307 | `(nested)._layout.($slug)` gives `nested?/:slug?` |
| SegmentExamples.PathlessThenEscaped | core.js:229-237 | `_layout.[text]` gives `text`, separators included |
| SegmentExamples.AboutEscapedDot | flatRoutes/flatRoutes.test.ts:288-296 | `_about.[.]` gives `.` |
| SegmentExamples.IndexRoute | core.js:280-282 | `name._index` gives `name`, or none when `name` is a pathless layout |
| SegmentExamples.LandingIndex | flatRoutes/flatRoutes.test.ts:102-110 | `_landing._index` gives no template |
| RouteIds.PlainFoldersMembers | core.js:59-61 | the folders kept are exactly those not ending in `+` |
| RouteIds.PlainFoldersAppend | core.js:59-61 | the filter keeps the folders' order: on a concatenation it filters each half in turn |
| RouteIds.AncestorNamesMembers | core.js:72-75 | every ancestor name is a `+` folder with the `+` cut off, and every `+` folder gives its name |
| RouteIds.AncestorNamesAppend | core.js:72-75 | the ancestor names keep the folders' order: on a concatenation they are those of each half in turn |
| ConventionExamples.AncestorNamesOne | core.js:72-75 | one folder gives its name without the `+` when it ends in `+`, and nothing otherwise |
| RouteIds.FoldersPartition | core.js:59-75 | the plain folders and the ancestor names together are as many as the folders, so each folder feeds exactly one of them |
| RouteIds.WithoutExtensionLength | core.js:53-56 | the cut path is a prefix of the file, shorter by the extension and suffix lengths, or empty when both are empty |
| RouteIdFacts.NoAncestorFolders | core.js:59-75 | folders none of which ends in `+` give no ancestor names and are all kept as plain folders |
| RouteIdFacts.PlusFreeParts | core.js:72-74 | a path without `+` has no ancestor folder |
| RouteIdFacts.CutPlusFree | core.js:53-56 | cutting the extension and suffix off a file without `+` leaves a path without `+` |
| RouteIdFacts.IdOfPlainPath | core.js:72-81 | a path with no ancestor folder and no prefix to strip is named by its basename |
| RouteIdFacts.KeptPath | core.js:58-70 | a path is left alone unless its basename is an index name and it has more than two folders |
| RouteIdFacts.JoinedBasename | core.js:68 | folders rejoined with `/` have the last folder as basename |
| RouteIdFacts.CollapsedPath | core.js:58-70 | an index file more than one folder deep collapses into its folder, whose name becomes the basename |
| RouteIdFacts.IdIsBasename | core.js:50-81 | a file with no backslash, no `+` and no prefix is named by its basename without extension and suffix, unless it is an index file more than one folder deep |
| RouteIdFacts.FileNameNormal | core.js:50 | a file written without backslashes is left as it is by normalisation |
| RouteIdFacts.FileNameExtname | core.js:51 | the extension of `folders/stem` + suffix + `.ext` is `.ext` |
| RouteIdFacts.CutFileName | core.js:53-56 | cutting the extension and the suffix off such a file leaves its folders and stem joined with `/` |
| RouteIdFacts.CutFileParts | core.js:72-78 | that path splits on `/` into the folders then the stem, and its basename is the stem |
| RouteIdFacts.FileNotCollapsed | core.js:58-70 | the cut path is left alone unless the stem is an index name under two or more plain folders |
| RouteIdFacts.IdOfCutFile | core.js:72-81 | the id of a cut path is the names of its `+` folders, in order and without the `+`, then the stem less as many characters as the prefix has, joined with `.` |
| RouteIdFacts.IdOfFile | core.js:50-81 | every file that is not collapsed into its folder is named by its `+` folder names, in order, then its stem less the prefix's length, joined with `.` |
| RouteIdFacts.IdOfIndexFile | core.js:50-81 | an index file under two or more plain folders is named by the last plain folder less the prefix's length; its `+` folders add no names |
| ConventionExamples.RoutesFileId | core.js:50-81 | with no prefix, a file `routes/stem` + suffix + `.tsx`, its stem free of `/` and backslash and not ending in `+`, is named by its stem, index name or not |
| ConventionExamples.TopFileId | core.js:50-81 | with no prefix, a top-level file whose stem is not an index name is named by its stem |
| ConventionExamples.NestedFileId | core.js:72-81 | with no prefix, `routes/a+/b` is named `a.b`, whatever the index names |
| ConventionExamples.TopNestedFileId | core.js:72-81 | with no prefix, a top-level `a+/b` is named `a.b` when `b` is not an index name |
| ConventionExamples.FolderIndexId | core.js:58-70 | with no prefix or suffix, `routes/a/stem.tsx` with an index name as stem is named by its folder `a` |
| RouteIdFacts.IndexFileNamesFolder | core.js:50-81 | such an index file, more than one folder deep, is named by the folder that holds it (`routes/_landing._index/index.tsx` gives `_landing._index`) |
| ConventionExamples.SingleLabel | core.js:83-102 | one file is kept, with no report |
| ConventionExamples.DistinctPair | core.js:83-102 | two files with different ids are both kept, the longer id first and ties in file order, with no report |
| ConventionExamples.SamePair | core.js:84-100 | two files with one id: the first is kept and one report lists both files in order |
| ConventionExamples.DistinctTriple | core.js:83-102 | three files with different ids given longest first are all kept in that order, with no report |
| RouteIds.LabelsAt | core.js:50-81 | the k-th file's id is derived from that file alone under the options' defaults, beside the normalised file |
| RouteIds.CollectValid | core.js:45-94 | both maps' insertion orders list their keys once each, after any number of files |
| RouteIds.RecordValid | core.js:83-93 | one turn of the loop keeps the insertion orders in step with the maps |
| RouteIds.RecordConflict | core.js:84-91 | a file whose id already has a non-empty file is only added to that id's conflicts, seeded with the stored file |
| RouteIds.RecordFile | core.js:93 | a file whose id has no non-empty file is stored for it |
| RouteIds.TableEntries | core.js:102 | `Array.from(routeIds)` lists each id with its file in insertion order |
| RouteIds.ConflictReports | core.js:96-100 | one report per conflicting id |
| RouteIds.ConflictReportsSnoc | core.js:97-98 | one more conflicting id appends its report |
| RouteIds.ReportIdConflicts | core.js:96-100 | the reporting loop yields one id-collision message per conflicting id, in map order |
| RouteIds.InsertByLengthMultiset | core.js:102 | inserting adds exactly one entry |
| RouteIds.InsertByLengthSorted | core.js:102 | inserting into a longest-first list keeps it longest first |
| RouteIds.InsertByLengthOfLength | core.js:102 | the inserted entry goes in front of the entries of its length |
| RouteIds.SortByIdLengthFacts | core.js:102 | the sort yields a permutation, longest first, and keeps the order of equal lengths |
| RouteIds.CollectRouteIds | core.js:49-94 | the loop over the files builds the two maps and their orders as the specification fold does |
| RouteIds.GetRouteIds | core.js:40-103 | `getRouteIds` returns the sorted pairs and the id-collision reports the specification function defines |
| RouteIdFacts.FirstFilled | core.js:84 | the first non-empty file, before which every file is empty |
| RouteIdFacts.FirstFilledSnoc | core.js:84 | one more file moves the first non-empty one only if none was non-empty and the new one is |
| RouteIdFacts.RecordTracks | core.js:83-93 | one turn keeps each id's entries equal to what its files so far call for |
| RouteIdFacts.CollectTracks | core.js:83-93 | an id is stored iff a file claimed it, with the first non-empty file (or the last), and has conflicts iff more files follow that one |
| RouteIdFacts.FirstIndex | core.js:93 | the first entry with a given id, with no earlier one |
| RouteIdFacts.FilesForFirstIndex | core.js:83-93 | an id has files exactly when some entry carries it |
| RouteIdFacts.MetInOrderStep | core.js:93 | one more file keeps the ids in first-met order and appends a new id last |
| RouteIdFacts.CollectOrder | core.js:93 | `routeIds` holds its ids in the order each was first met |
| RouteIdFacts.TiesTail | core.js:102 | dropping the head keeps equal-length ties ordered |
| RouteIdFacts.TiesCons | core.js:102 | an entry ranked before all its ties can go in front |
| RouteIdFacts.InsertByLengthMembers | core.js:102 | insertion adds the entry and nothing else |
| RouteIdFacts.InsertByLengthTies | core.js:102 | insertion keeps equal-length entries in rank order |
| RouteIdFacts.SortKeepsTies | core.js:102 | the sort keeps the order of entries of each id length |
| RouteIdFacts.UniqueCount | core.js:102 | in pairs with distinct ids every pair occurs at most once |
| RouteIdFacts.UniqueIdsPermutation | core.js:102 | reordering pairs with distinct ids keeps them distinct |
| RouteIdFacts.KeptEntriesFacts | core.js:93-102 | the pairs to sort have distinct ids, in first-met order |
| RouteIdFacts.KeptEntriesMembers | core.js:83-102 | a pair is kept iff its id was met and its file is the one kept for it |
| RouteIdFacts.IdsUnique | core.js:102 | `getRouteIds` returns every id once, longest first |
| RouteIdFacts.IdsKept | core.js:83-102 | the returned pairs are exactly the ids met, each with the file that won it |
| RouteIdFacts.IdsStable | core.js:102 | ids of the same length come out in the order they were first met |
| RouteIdFacts.ConflictReportsAt | core.js:96-100 | the k-th report is the message for the k-th conflicting id |
| RouteIdFacts.IdsReports | core.js:83-100 | one report per id claimed after its winner, none for any other id, each listing the winner then every later claimer in input order |
| PrefixTrie.Prefixes | PrefixLookupTrie.js:13-20 | the paths `add` walks are exactly the prefixes of the value |
| PrefixTrie.PrefixesSnoc | PrefixLookupTrie.js:13-19 | one more character adds one more prefix |
| PrefixTrie.PostOrderAppend | PrefixLookupTrie.js:34-39 | sub-results of disjoint subtrees concatenate into a post-order list |
| PrefixTrie.TakenBelowStep | PrefixLookupTrie.js:34-36 | visiting one more child collects exactly its subtree's accepted live strings, none collected before |
| PrefixTrie.TakenSplit | PrefixLookupTrie.js:34-40 | after all children, only the node's own string remains to be collected |
| PrefixTrie.GrownAlongStep | PrefixLookupTrie.js:13-19 | each step of the walk adds just the next prefix, keeping old nodes |
| PrefixTrie.ExtendPathTree | PrefixLookupTrie.js:14-18 | creating a missing child keeps paths and nodes in one-to-one correspondence and prefix-closed |
| PrefixTrie.ExtendLinked | PrefixLookupTrie.js:14-18 | the new child is linked from its parent under its character, and only there |
| PrefixTrie.ExtendChildKeys | PrefixLookupTrie.js:14-18 | after creating a child, a node has a child under `c` iff its path extended by `c` exists |
| PrefixTrie.NoChildYet | PrefixLookupTrie.js:14-18 | a path missing from the trie has no extension in it, even once the path itself is added |
| PrefixTrie.ExtendChildValues | PrefixLookupTrie.js:14-18 | after creating a child, every child link points at the node of the extended path |
| PrefixTrie.ExtendMarked | PrefixLookupTrie.js:15-17 | a new node is unmarked, so the live strings are unchanged |
| PrefixTrie.SetEndTree | PrefixLookupTrie.js:21 | setting or clearing a node's mark changes the live set by that node's path only |
| PrefixTrie.PrefixLookupTrie.constructor | PrefixLookupTrie.js:4-8 | a new trie has only the unmarked root and no live strings |
| PrefixTrie.PrefixLookupTrie.Descend | PrefixLookupTrie.js:14-19 | one step moves to the child, creating it unmarked when missing, and changes nothing else |
| PrefixTrie.PrefixLookupTrie.Walk | PrefixLookupTrie.js:12-20 | the walk ends at the node of the value, adds exactly its missing prefixes, and keeps every mark |
| PrefixTrie.PrefixLookupTrie.Add | PrefixLookupTrie.js:10-22 | `add` fails iff the value is empty; otherwise it marks exactly the value live and keeps every existing node |
| PrefixTrie.PrefixLookupTrie.FindAndRemoveRecursive | PrefixLookupTrie.js:33-42 | collects and un-marks exactly the accepted live strings under the prefix, in post order, keeping the tree shape |
| PrefixTrie.PrefixLookupTrie.FindAndRemoveChildren | PrefixLookupTrie.js:34-36 | the loop over the children collects and un-marks exactly the accepted live strings strictly below the node |
| PrefixTrie.PrefixLookupTrie.FindAndRemove | PrefixLookupTrie.js:24-31 | returns and un-marks exactly the accepted live strings starting with the prefix, in post order, and nothing when the prefix has no node |
| PrefixTrie.PrefixLookupTrie.ChildrenCoverBelow | PrefixLookupTrie.js:34-36 | every path below a node passes through one of its children |
| PrefixTrie.PrefixLookupTrie.NoPathNothingTaken | PrefixLookupTrie.js:26-28 | when the walk stops early there is no live string under the prefix |
| Manifests.BoundaryChar | core.js:121-123 | the child filter accepts an id iff it extends the route's id with `.` or `/` |
| Manifests.SetParent | core.js:126-130 | exactly the claimed children get the route as parent; nothing else changes |
| Manifests.SegmentsOf | core.js:118 | each entry's path is `getRouteSegments` of its id |
| Manifests.ClaimAll | core.js:113-131 | pass 1 files every id it reads, and only filed ids stay live |
| Manifests.TrimOneSlash | core.js:144-145 | the path is the result with its one leading `/`, if any, put back before it and one trailing `/`, if any remains, put back after it |
| Manifests.Settle | core.js:135-159 | a pass 2 turn keeps the manifest's keys |
| Manifests.Files | core.js:168 | a group's files are its routes' files, in order |
| Manifests.PathReports | core.js:161-171 | one report per group |
| Manifests.SettleAllGroups | core.js:152-157 | each pass 2 group is listed once, in the order groups were opened |
| Manifests.AdoptChildren | core.js:126-130 | the loop over the claimed children sets their parent and touches nothing else |
| Manifests.SettleRoute | core.js:136-158 | the loop body settles one route as the specification step does |
| Manifests.SettleRoutes | core.js:135-159 | pass 2's loop ends in the specification state |
| Manifests.DeleteTail | core.js:165-167 | the inner loop deletes every route of the group but the first |
| Manifests.DeleteStep | core.js:163-167 | one more group deletes its tail along with the earlier ones |
| Manifests.ReportStep | core.js:168-169 | one more group appends its report to the earlier ones |
| Manifests.ReportGroup | core.js:163-170 | one reporting turn deletes the group's tail and appends its report |
| Manifests.ReportPathConflicts | core.js:161-171 | every group's tail is deleted and every group reported, in order |
| Manifests.ClaimRoute | core.js:114-130 | pass 1's body files the route, takes its children from the trie, and adds its id, or fails like `getRouteSegments` or `add` |
| Manifests.ClaimEntry | core.js:113-131 | one pass 1 turn matches the specification fold, including on failure |
| Manifests.ClaimAllFails | core.js:113-131 | once pass 1 throws, it throws the same error for every longer input |
| Manifests.ClaimRoutes | core.js:111-131 | pass 1's loop returns the specification manifest, or its first error |
| Manifests.GetRouteManifest | core.js:108-174 | `getRouteManifest` returns the manifest and path-collision reports the specification function defines, or the error thrown |
| ManifestFacts.Claimer | core.js:121-129 | the entry claiming another is a later one |
| ManifestFacts.ClaimerFirst | core.js:121-129 | the claimer is the first later ancestor; with none, no later entry is an ancestor |
| ManifestFacts.ClaimStepShape | core.js:113-131 | one pass 1 turn keeps every route filed with its first claimer as parent and live iff unclaimed |
| ManifestFacts.ClaimStepEarlier | core.js:121-129 | a turn re-parents an earlier route exactly when this entry is its first claimer |
| ManifestFacts.ClaimAllShape | core.js:113-131 | after pass 1, each route is filed with its first claimer as parent, and live iff unclaimed |
| ManifestFacts.ClaimAllSucceeds | core.js:113-125 | pass 1 throws iff some id read is empty or its segments throw |
| ManifestFacts.ClaimSucceeds | core.js:118-125 | one turn throws iff the segments throw or the id is empty |
| ManifestFacts.ClaimerIsLongest | core.js:121-129 | with longest-first distinct ids, the claimer is longer than every other ancestor; with none, no entry is an ancestor |
| ManifestFacts.SettleRouteShape | core.js:136-150 | pass 2 settles a route as `Settled` says: relative path, `root` when parentless, empty path undefined |
| ManifestFacts.SettleManifestStep | core.js:136-150 | pass 2 turns settle the routes one by one, leaving later ones as pass 1 left them |
| ManifestFacts.SettleKey | core.js:147-152 | a route's conflict key is its original path plus `?index`, and it collides iff the key was seen and the path or index flag is set |
| ManifestFacts.SettleUniqueStep | core.js:151 | `uniqueRoutes` holds the keys of the routes settled so far |
| ManifestFacts.TailIdsAppend | core.js:155 | adding a route to a group adds it to the group's deleted tail |
| ManifestFacts.DeletedIdsFrame | core.js:163-167 | the deleted ids depend only on the listed groups |
| ManifestFacts.DeletedIdsAppend | core.js:155-156 | a route added to an open group is deleted along with the rest |
| ManifestFacts.DeletedIdsOpen | core.js:154-156 | a newly opened group deletes exactly its second route |
| ManifestFacts.CollidingIdsStep | core.js:152 | one more entry adds its id to the colliding ids iff it collides |
| ManifestFacts.GroupsJoin | core.js:152-157 | a colliding route joins its path's open group |
| ManifestFacts.GroupsOpen | core.js:152-157 | a colliding route whose path has no group opens one after the route it collides with |
| ManifestFacts.GroupsKeep | core.js:152 | a route that does not collide leaves the groups alone |
| ManifestFacts.SettleGroupsStep | core.js:152-157 | after each turn the groups delete exactly the colliding routes so far |
| ManifestFacts.TailIdsPair | core.js:154-155 | a two-route group deletes its second route |
| ManifestFacts.SettleStepShape | core.js:135-159 | one pass 2 turn keeps manifest, `uniqueRoutes` and groups in shape |
| ManifestFacts.SettleAllShape | core.js:135-159 | pass 2 over distinct filed ids ends with every route settled and groups deleting exactly the colliding routes |
| ManifestFacts.SettleAllStep | core.js:135-159 | the shape after n entries carries to n + 1 |
| ManifestFacts.SettleStartShape | core.js:133-134 | pass 2 starts with empty `uniqueRoutes` and groups |
| ManifestFacts.ClaimAllKeys | core.js:113-119 | pass 1 files nothing but the ids it reads |
| ManifestFacts.ClaimKeys | core.js:114 | one turn adds exactly its own id to the manifest |
| ManifestFacts.Built | core.js:108-174 | the built manifest is pass 2's manifest minus the colliding ids, with one report per group |
| ManifestFacts.RouteManifestShape | core.js:108-174 | the manifest holds exactly the routes that do not collide with an earlier one, each settled, and nothing else |
| ManifestGroups.LastWithKeyFacts | core.js:148-151 | `uniqueRoutes` yields, for a key, the last route read with it, and nothing when none was |
| ManifestGroups.OpenerFacts | core.js:152-156 | the first route that collides at a path is found, and nothing when none did |
| ManifestGroups.GroupOrderMembers | core.js:152-156 | a path gets a group exactly when some route collided at it |
| ManifestGroups.GroupsSpecJoin | core.js:152-157 | a collision at a path that has a group appends the route to it and lists no new path |
| ManifestGroups.GroupsSpecOpen | core.js:152-157 | a collision at a path with no group opens one with the route collided with, then the colliding route, and lists the path last |
| ManifestGroups.GroupsSpecStep | core.js:135-159 | one pass 2 turn keeps `uniqueRoutes` and `urlConflicts` as the specification describes them |
| ManifestGroups.GroupsSpecAll | core.js:135-159 | after pass 2, `urlConflicts` lists one group per path where a route collided, in the order of the first collision, each with the route collided with then every collider |
| ManifestGroups.PathReportsAt | core.js:162-170 | the i-th report is the message for the i-th listed path and its group's files |
| ManifestGroups.ReportsOfGroups | core.js:162-170 | the reports name the listed paths in order, each with the files of its group |
| ManifestGroups.PathReportsContent | core.js:108-174 | one path-collision report per path where a route collided, in order of first collision, listing the file the first collider met and then every collider's file in input order |
| ManifestFacts.PathReportsIffCollision | core.js:161-171 | there is a path-collision report iff some route collides with an earlier one |
| ManifestFacts.RouteManifestSucceeds | core.js:113-131 | `getRouteManifest` throws iff some id is empty or its segments throw |
| ManifestFacts.ParentIsLongestAncestor | core.js:121-130 | each route's parent is its longest ancestor among the ids, or `root` when it has none |
| ManifestFacts.SettledParent | core.js:149 | the settled route names its claimer, the longest ancestor, as parent, or `root` |
| RouteConfigs.BuildRoutes | flatRoutes/flatRoutes.js:40-44 | ids then manifest, as the specification composition defines |
| RouteConfigs.FlatRoutesImpl | flatRoutes/flatRoutes.js:39-45 | flat routes run the pipeline with index names `index`, `route`, `_index`, `_route` |
| RouteConfigs.RouteExtensionsImpl | routeExtensions/routeExtensions.js:39-45 | route extensions run the pipeline with the suffix `.route` |
| RouteConfigs.ConfigureSucceeds | flatRoutes/flatRoutes.js:39-45 | a convention builds its manifest iff every derived id is non-empty and its segments are accepted |
| RouteConfigs.ConfiguredParents | flatRoutes/flatRoutes.js:39-45 | under either convention each route's parent is its longest ancestor among the derived ids, or `root` |
| RouteConfigs.ConfiguredPathReports | routeExtensions/routeExtensions.js:39-45 | a path-collision report is printed iff some derived route takes a path already taken |
| ConventionCases.NameTemplate | core.js:179-306 | a plain name (a literal word, not ending in `+` or `_index`) is its own URL |
| ConventionCases.PairTemplate | core.js:179-306 | two names joined with `.` give the two joined with `/` |
| ConventionCases.OptOutTemplate | core.js:179-306 | a trailing `_` on a word does not show in the URL |
| ConventionCases.SkipTemplate | core.js:179-306 | in `a.c_.d` every word is shown, `c` without its `_` |
| ConventionCases.PathlessParamTemplate | core.js:179-306 | `_a.$p` gives `:p`, the pathless word left out |
| ConventionCases.NameParamTemplate | core.js:179-306 | `c.$q` gives `c/:q` |
| ConventionCases.PathlessIndexTemplate | core.js:179-306 | `_a._index` has no URL |
| ConventionCases.FlatRootFile | flatRoutes/flatRoutes.test.ts:555-573 | under the flat-routes names, `routes/a.tsx` is named `a` |
| ConventionCases.FlatNestedFile | flatRoutes/flatRoutes.test.ts:555-573 | under the flat-routes names, `routes/a+/b.tsx` is named `a.b` |
| ConventionCases.FlatFolderRouteFile | flatRoutes/flatRoutes.test.ts:193-200 | under the flat-routes names, `routes/a/route.tsx` is named `a` |
| ConventionCases.FlatStemFile | flatRoutes/flatRoutes.test.ts:211-248 | under the flat-routes names, `routes/x.tsx` is named `x` for any stem free of `/` and backslash and not ending in `+` |
| ConventionCases.FlatIndexFile | flatRoutes/flatRoutes.test.ts:658-676 | under the flat-routes names, `routes/_index.tsx` is named `_index` |
| ConventionCases.FlatPathlessIndexFile | flatRoutes/flatRoutes.test.ts:658-676 | under the flat-routes names, `routes/_a._index.tsx` is named `_a._index` |
| ConventionCases.WrappingManifest | core.js:108-174 | routes `a.b` and `a` give `a` under `root` at path `a` and `a.b` under `a` at path `b`, with no report |
| ConventionCases.FolderWrapping | flatRoutes/flatRoutes.test.ts:555-573 | flat routes `routes/a.tsx` and `routes/a+/b.tsx` build `a` under `root` at path `a` and `a.b` under `a` at path `b`, with no message |
| ConventionCases.FolderRoute | flatRoutes/flatRoutes.test.ts:193-200 | flat route `routes/a/route.tsx` builds one route `a` under `root` at path `a` |
| ConventionCases.FolderIdCollision | flatRoutes/flatRoutes.test.ts:678-693 | flat routes `routes/a.tsx` and `routes/a/route.tsx` share id `a`: the first is kept and one id-collision message lists both files |
| ConventionCases.ThreeIndexManifest | core.js:108-174 | three index routes `_a._index`, `_b._index` and `_index` all take path `""`: only the first is kept and one path-collision report lists the three files in order |
| ConventionCases.ThreeIndexFiles | flatRoutes/flatRoutes.test.ts:658-676 | flat routes `_a._index`, `_b._index` and `_index` give only the longest id's route, an index route under `root` with no path, and one path-collision report at `/` listing the three files |
| ConventionCases.OptOutManifest | core.js:108-174 | routes `a_.b` and `a` are both kept under `root`, `a_.b` at path `a/b` |
| ConventionCases.OptOutOfLayout | flatRoutes/flatRoutes.test.ts:211-229 | flat routes `a` and `a_.b` are both under `root`, `a_.b` at path `a/b`, with no message |
| ConventionCases.SkipManifest | core.js:108-174 | routes `a.c_.d` and `a` give `a.c_.d` under `a` at path `c/d`, the missing layout `a.c` skipped |
| ConventionCases.SkipMissingLayout | flatRoutes/flatRoutes.test.ts:231-248 | flat routes `a` and `a.c_.d` give `a.c_.d` under `a` at path `c/d`, with no message |
| ConventionCases.ApartManifest | core.js:108-174 | two routes with different, non-empty paths, neither id an ancestor of the other, are both kept under `root` at their paths, with no report |
| ConventionCases.ParamsApart | flatRoutes/flatRoutes.test.ts:632-646 | flat routes `_a.$p` and `c.$q` are both kept under `root`, at `:p` and `c/:q`, with no message |
| ConventionCases.ExtTopFile | routeExtensions/routeExtensions.js:39-45 | with the `.route` suffix, `a.route.tsx` is named `a` |
| ConventionCases.ExtNestedFile | routeExtensions/routeExtensions.js:39-45 | with the `.route` suffix, `a+/b.route.tsx` is named `a.b` |
| ConventionCases.ExtWrapping | routeExtensions/routeExtensions.js:39-45 | route-extension files `a.route.tsx` and `a+/b.route.tsx` build `a` under `root` and `a.b` under `a` at path `b` |
| ConventionCases.ExtFolderFile | core.js:58-70 | with no index names, `routes/a/ix.route.tsx` is not collapsed into its folder and is named `ix` |
| ConventionCases.ExtIndexCollision | routeExtensions/routeExtensions.js:39-45 | route-extension files `routes/a/index.route.tsx` and `routes/b/index.route.tsx` are both named `index`: the first is kept and one id-collision message lists both |

## Left out

- Scanning the app directory with a glob and checking the file system (`flatRoutes` and
  `routeExtensions` before they call the `Impl` functions, and `ensureRootRouteExists`) are I/O.
  The model starts from the list of files. ensureRootRouteExists.js is not part of this model.
- `console.error` is not modelled as output. Every message it would print is returned, in order,
  beside the result.
- The key order of the manifest object is not kept: the manifest is a `map`. Where insertion order
  matters (`routeIds`, `routeIdConflicts`, `urlConflicts`), it is kept as a sequence beside the map.
- Strings are sequences of code points, not UTF-16 code units. Lengths and slices differ only for
  characters outside the Basic Multilingual Plane. The emoji in the messages are written as code
  points.
- Routes are values. The code's sharing of one route object between the manifest, `uniqueRoutes`
  and `urlConflicts` is modelled by storing the `(id, file)` pair that is read back. Mutating a
  shared route after it was stored is therefore not modelled; the code never reads it back.
- Node's `path` module is modelled in its posix flavour. `basename` and `extname` are applied to
  paths whose slashes are already normalised.
- RouteIds.CollectRouteIds receives the id derivation as a function parameter. RouteIds.GetRouteIds
  passes the real one, so the loop is proved for every id derivation.
- The order of `Object.keys` in the trie traversal is not modelled: children are visited in an
  unspecified order. PrefixTrie.PrefixLookupTrie.FindAndRemove therefore promises the collected
  strings as a set, in post order, not in a fixed order.
- RouteIdFacts.IdsReports states the order of the id-collision reports only as distinct and
  complete, through the order conflicts were first met, and not as a closed formula over the input.
- The prefix trie is a table of nodes indexed by number, held in one class field. The nested
  JavaScript objects, and their aliasing, are not modelled.
