/**
 * `getRouteManifest` (core.js): builds the manifest of `{file, id, index, path, parentId}` from
 * the `(id, file)` pairs `getRouteIds` returns. The first pass files every route and lets it claim,
 * through a `PrefixLookupTrie`, the routes already seen whose id continues its own with `.` or `/`.
 * The second pass makes paths relative to the parent's, defaults the parent to `root`, and groups
 * the routes whose path (and index flag) was already taken; all but the first of each group are
 * then deleted and reported.
 */
module Manifests {
  import opened Wrappers
  import opened JsString
  import opened RouteErrors
  import opened Segments
  import opened PrefixTrie
  import opened ConflictMessages
  import opened RouteIds

  /** One entry of the manifest; `undefined` fields are `None`. */
  datatype Route = Route(file: string, id: string, index: bool, path: Option<string>, parentId: Option<string>)

  /** `routeManifest`: route id to route (the key order of the JavaScript object is not kept). */
  type Manifest = map<string, Route>

  /** JavaScript truthiness of a string field that may be `undefined`. */
  predicate Truthy(s: Option<string>) {
    s.Some? && s.value != ""
  }

  /** `[".", "/"].includes(value.slice(n).charAt(0))`: the character at `n` is a separator. */
  predicate SeparatorAt(value: string, n: nat) {
    var c := FirstChar(SliceFrom(value, n));
    c == "." || c == "/"
  }

  /** The filter pass 1 hands to `findAndRemove` for the route `id`. */
  function ChildFilter(id: string): string -> bool {
    v => SeparatorAt(v, |id|)
  }

  /** `a` is an ancestor of `x`: `x` starts with `a` and goes on with `.` or `/`. */
  predicate Boundary(a: string, x: string) {
    StartsWith(x, a) && SeparatorAt(x, |a|)
  }

  lemma BoundaryChar(a: string, x: string)
    ensures Boundary(a, x) <==> |a| < |x| && x[..|a|] == a && (x[|a|] == '.' || x[|a|] == '/')
  {
    if |a| < |x| {
      assert SliceFrom(x, |a|)[0] == x[|a|];
    }
  }

  // ----- Pass 1 -----

  /** After pass 1 has read some entries: the manifest, and the ids still live in the trie. */
  datatype FirstPass = FirstPass(manifest: Manifest, live: set<string>)

  /** `routeManifest[c].parentId = id` for every claimed child `c`. */
  function SetParent(m: Manifest, children: set<string>, id: string): (r: Manifest)
    ensures r.Keys == m.Keys
    ensures forall k :: k in m ==> r[k] == if k in children then m[k].(parentId := Some(id)) else m[k]
  {
    map k | k in m :: if k in children then m[k].(parentId := Some(id)) else m[k]
  }

  /** `getRouteSegments` of every id, computed ahead of pass 1. */
  function SegmentsOf(entries: seq<RouteEntry>): (paths: seq<Result<Option<string>, RouteError>>)
    ensures |paths| == |entries|
    ensures forall k :: 0 <= k < |entries| ==> paths[k] == RouteSegments(entries[k].0)
  {
    seq(|entries|, k requires 0 <= k < |entries| => RouteSegments(entries[k].0))
  }

  /**
   * One turn of pass 1 for `(id, file)`, whose segments are `segments`: the route is filed with
   * no parent (or the segment error is thrown), it claims the live ids under it that continue with
   * a separator, and it becomes live itself; `add` throws for the empty id.
   */
  function Claim(st: FirstPass, id: string, file: string, segments: Result<Option<string>, RouteError>)
    : Result<FirstPass, RouteError>
  {
    var path :- segments;
    var children := Taken(st.live, id, ChildFilter(id));
    if id == "" then Failure(EmptyTrieValue)
    else
      var filed := st.manifest[id := Route(file, id, EndsWith(id, "_index"), path, None)];
      Success(FirstPass(SetParent(filed, children, id), st.live - children + {id}))
  }

  /** Pass 1 over the first `n` entries: every id read is filed, and only filed ids are live. */
  function ClaimAll(entries: seq<RouteEntry>, paths: seq<Result<Option<string>, RouteError>>, n: nat)
    : (r: Result<FirstPass, RouteError>)
    requires n <= |entries| == |paths|
    ensures r.Success? ==> r.value.live <= r.value.manifest.Keys
    ensures r.Success? ==> forall k :: 0 <= k < n ==> entries[k].0 in r.value.manifest
  {
    if n == 0 then Success(FirstPass(map[], {}))
    else
      var st :- ClaimAll(entries, paths, n - 1);
      Claim(st, entries[n - 1].0, entries[n - 1].1, paths[n - 1])
  }

  // ----- Pass 2 -----

  /** The state of pass 2: the manifest, `uniqueRoutes` and the ordered map `urlConflicts`. */
  datatype SecondPass = SecondPass(manifest: Manifest, unique: map<string, RouteEntry>,
                                   groupOrder: seq<string>, groups: map<string, seq<RouteEntry>>)

  /** `.replace(/^\//, "").replace(/\/$/, "")`: one leading and one trailing `/` removed. */
  function TrimOneSlash(s: string): (r: string)
    ensures var lead := if StartsWith(s, "/") then "/" else "";
      var trail := if |s| > |lead| && s[|s| - 1] == '/' then "/" else "";
      s == lead + r + trail
  {
    var a := if StartsWith(s, "/") then s[1..] else s;
    if EndsWith(a, "/") then a[..|a| - 1] else a
  }

  /** `originalPathname + (route.index ? "?index" : "")`. */
  function ConflictKey(originalPath: string, index: bool): string {
    originalPath + (if index then "?index" else "")
  }

  /** `route.path || ""`. */
  function OriginalPath(route: Route): string {
    if route.path.Some? then route.path.value else ""
  }

  /** The path of the parent, read from the manifest as it is now (`parentConfig?.path`). */
  function ParentPath(m: Manifest, route: Route): Option<string> {
    if Truthy(route.parentId) && route.parentId.value in m then m[route.parentId.value].path else None
  }

  /** The path relative to the parent: the parent path's length is cut off, then one `/` at each end. */
  function RelativePath(path: Option<string>, parentPath: Option<string>): Option<string> {
    if Truthy(parentPath) && Truthy(path) then Some(TrimOneSlash(SliceFrom(path.value, |parentPath.value|)))
    else path
  }

  /** One turn of pass 2 for the route `id`. */
  function Settle(s: SecondPass, id: string): (r: SecondPass)
    requires id in s.manifest
    ensures r.manifest.Keys == s.manifest.Keys
  {
    var route := s.manifest[id];
    var orig := OriginalPath(route);
    var pathname := RelativePath(route.path, ParentPath(s.manifest, route));
    var key := ConflictKey(orig, route.index);
    var settled := route.(parentId := if Truthy(route.parentId) then route.parentId else Some("root"),
                          path := if Truthy(pathname) then pathname else None);
    var m := s.manifest[id := settled];
    var u := s.unique[key := (id, route.file)];
    if key in s.unique && (orig != "" || route.index) then
      var current := if orig in s.groups then s.groups[orig] else [s.unique[key]];
      SecondPass(m, u, if orig in s.groups then s.groupOrder else s.groupOrder + [orig],
                 s.groups[orig := current + [(id, route.file)]])
    else SecondPass(m, u, s.groupOrder, s.groups)
  }

  /** Pass 2 over the first `n` entries, from the manifest pass 1 left. */
  function SettleAll(entries: seq<RouteEntry>, n: nat, start: Manifest): (r: SecondPass)
    requires n <= |entries|
    requires forall k :: 0 <= k < |entries| ==> entries[k].0 in start
    ensures r.manifest.Keys == start.Keys
  {
    if n == 0 then SecondPass(start, map[], [], map[])
    else Settle(SettleAll(entries, n - 1, start), entries[n - 1].0)
  }

  // ----- Reporting -----

  /** The ids of every route of a group but the first. */
  function TailIds(group: seq<RouteEntry>): set<string> {
    set k | 1 <= k < |group| :: group[k].0
  }

  /** The ids deleted for the groups `order`. */
  function DeletedIds(order: seq<string>, groups: map<string, seq<RouteEntry>>): set<string>
    requires forall o :: o in order ==> o in groups
  {
    if order == [] then {}
    else DeletedIds(order[..|order| - 1], groups) + TailIds(groups[order[|order| - 1]])
  }

  /** `routes.map((r) => r.file)`. */
  function Files(group: seq<RouteEntry>): (files: seq<string>)
    ensures |files| == |group|
    ensures forall k :: 0 <= k < |group| ==> files[k] == group[k].1
  {
    seq(|group|, k requires 0 <= k < |group| => group[k].1)
  }

  /** One path-collision report per group, in the order the groups were opened. */
  function PathReports(order: seq<string>, groups: map<string, seq<RouteEntry>>): (ms: seq<string>)
    requires forall o :: o in order ==> o in groups
    ensures |ms| == |order|
  {
    if order == [] then []
    else PathReports(order[..|order| - 1], groups) +
         [RoutePathConflictMessage(order[|order| - 1], Files(groups[order[|order| - 1]]))]
  }

  /** `getRouteManifest(sortedRouteIds)`: the manifest and the path-collision reports, or the error thrown. */
  function RouteManifest(entries: seq<RouteEntry>): Result<(Manifest, seq<string>), RouteError> {
    var first :- ClaimAll(entries, SegmentsOf(entries), |entries|);
    var s := SettleAll(entries, |entries|, first.manifest);
    SettleAllGroups(entries, |entries|, first.manifest);
    Success((s.manifest - DeletedIds(s.groupOrder, s.groups), PathReports(s.groupOrder, s.groups)))
  }

  /** Each group of pass 2 is listed once in its order. */
  lemma {:induction false} SettleAllGroups(entries: seq<RouteEntry>, n: nat, start: Manifest)
    requires n <= |entries|
    requires forall k :: 0 <= k < |entries| ==> entries[k].0 in start
    ensures var s := SettleAll(entries, n, start);
      (forall o :: o in s.groupOrder <==> o in s.groups) && Distinct(s.groupOrder)
  {
    if n > 0 {
      SettleAllGroups(entries, n - 1, start);
      SettleGroups(SettleAll(entries, n - 1, start), entries[n - 1].0);
    }
  }

  /** One turn of pass 2 opens a group only for a path it has not grouped yet. */
  lemma SettleGroups(s: SecondPass, id: string)
    requires id in s.manifest
    requires (forall o :: o in s.groupOrder <==> o in s.groups) && Distinct(s.groupOrder)
    ensures var r := Settle(s, id);
      (forall o :: o in r.groupOrder <==> o in r.groups) && Distinct(r.groupOrder)
  {
  }

  // ----- The method -----

  /** The loop over the claimed children, `routeManifest[childRouteId].parentId = id`. */
  method AdoptChildren(routeManifest: Manifest, childRouteIds: seq<string>, id: string) returns (m: Manifest)
    requires forall c :: c in childRouteIds ==> c in routeManifest
    ensures m == SetParent(routeManifest, (set c | c in childRouteIds), id)
  {
    m := routeManifest;
    var k := 0;
    while k < |childRouteIds|
      invariant 0 <= k <= |childRouteIds|
      invariant m == SetParent(routeManifest, (set j | 0 <= j < k :: childRouteIds[j]), id)
    {
      var c := childRouteIds[k];
      m := m[c := m[c].(parentId := Some(id))];
      k := k + 1;
    }
    assert (set j | 0 <= j < k :: childRouteIds[j]) == (set c | c in childRouteIds);
  }

  /** The body of pass 2's loop for the route `id`. */
  method SettleRoute(routeManifest: Manifest, uniqueRoutes: map<string, RouteEntry>,
                     conflictOrder: seq<string>, urlConflicts: map<string, seq<RouteEntry>>, id: string)
    returns (s: SecondPass)
    requires id in routeManifest
    ensures s == Settle(SecondPass(routeManifest, uniqueRoutes, conflictOrder, urlConflicts), id)
  {
    var route := routeManifest[id];
    var originalPathname := if route.path.Some? then route.path.value else "";
    var pathname := route.path;
    var parentConfig: Option<Route> := None;
    if route.parentId.Some? && route.parentId.value != "" && route.parentId.value in routeManifest {
      parentConfig := Some(routeManifest[route.parentId.value]);
    }
    if parentConfig.Some? && parentConfig.value.path.Some? && parentConfig.value.path.value != ""
       && pathname.Some? && pathname.value != "" {
      pathname := Some(TrimOneSlash(SliceFrom(pathname.value, |parentConfig.value.path.value|)));
    }
    assert pathname == RelativePath(route.path, ParentPath(routeManifest, route));
    var conflictRouteId := originalPathname + (if route.index then "?index" else "");
    var conflict: Option<RouteEntry> := None;
    if conflictRouteId in uniqueRoutes {
      conflict := Some(uniqueRoutes[conflictRouteId]);
    }
    if !(route.parentId.Some? && route.parentId.value != "") {
      route := route.(parentId := Some("root"));
    }
    route := route.(path := if pathname.Some? && pathname.value != "" then pathname else None);
    var manifest' := routeManifest[id := route];
    var unique' := uniqueRoutes[conflictRouteId := (id, route.file)];
    if conflict.Some? && (originalPathname != "" || route.index) {
      var currentConflicts;
      var order' := conflictOrder;
      if originalPathname in urlConflicts {
        currentConflicts := urlConflicts[originalPathname];
      } else {
        currentConflicts := [conflict.value];
        order' := conflictOrder + [originalPathname];
      }
      currentConflicts := currentConflicts + [(id, route.file)];
      return SecondPass(manifest', unique', order', urlConflicts[originalPathname := currentConflicts]);
    }
    return SecondPass(manifest', unique', conflictOrder, urlConflicts);
  }

  /** One turn of pass 2's loop: the `i`-th route is settled. */
  method SettleEntry(sortedRouteIds: seq<RouteEntry>, start: Manifest, s: SecondPass, i: nat)
    returns (s': SecondPass, next: nat)
    requires i < |sortedRouteIds|
    requires forall k :: 0 <= k < |sortedRouteIds| ==> sortedRouteIds[k].0 in start
    requires s == SettleAll(sortedRouteIds, i, start)
    ensures next == i + 1
    ensures s' == SettleAll(sortedRouteIds, next, start)
  {
    s' := SettleRoute(s.manifest, s.unique, s.groupOrder, s.groups, sortedRouteIds[i].0);
    next := i + 1;
  }

  /** Pass 2 of `getRouteManifest`. */
  method SettleRoutes(sortedRouteIds: seq<RouteEntry>, start: Manifest) returns (s: SecondPass)
    requires forall k :: 0 <= k < |sortedRouteIds| ==> sortedRouteIds[k].0 in start
    ensures s == SettleAll(sortedRouteIds, |sortedRouteIds|, start)
  {
    s := SecondPass(start, map[], [], map[]);
    var i := 0;
    while i < |sortedRouteIds|
      invariant 0 <= i <= |sortedRouteIds|
      invariant s == SettleAll(sortedRouteIds, i, start)
    {
      s, i := SettleEntry(sortedRouteIds, start, s, i);
    }
  }

  /** `for (let i = 1; i < routes.length; i++) delete routeManifest[routes[i].id]`. */
  method DeleteTail(routeManifest: Manifest, routes: seq<RouteEntry>) returns (m: Manifest)
    ensures m == routeManifest - TailIds(routes)
  {
    m := routeManifest;
    if |routes| <= 1 {
      assert TailIds(routes) == {};
      return;
    }
    var i := 1;
    while i < |routes|
      invariant 1 <= i <= |routes|
      invariant m == routeManifest - (set k | 1 <= k < i :: routes[k].0)
    {
      assert (set k | 1 <= k < i + 1 :: routes[k].0) == (set k | 1 <= k < i :: routes[k].0) + {routes[i].0};
      m := m - {routes[i].0};
      i := i + 1;
    }
  }

  /** One more group: its tail is deleted along with the earlier groups' tails. */
  lemma DeleteStep(order: seq<string>, groups: map<string, seq<RouteEntry>>, i: nat)
    requires i < |order| && forall o :: o in order ==> o in groups
    ensures DeletedIds(order[..i + 1], groups) == DeletedIds(order[..i], groups) + TailIds(groups[order[i]])
  {
    assert order[..i + 1][..i] == order[..i];
  }

  /** One more group: its report follows the earlier ones. */
  lemma ReportStep(order: seq<string>, groups: map<string, seq<RouteEntry>>, i: nat, reports: seq<string>, files: seq<string>)
    requires i < |order| && forall o :: o in order ==> o in groups
    requires reports == PathReports(order[..i], groups) && files == Files(groups[order[i]])
    ensures reports + [RoutePathConflictMessage(order[i], files)] == PathReports(order[..i + 1], groups)
  {
    assert order[..i + 1][..i] == order[..i];
  }

  lemma RemoveNothing(m: Manifest)
    ensures m - {} == m
  {
  }

  lemma RemoveBoth(m: Manifest, a: set<string>, b: set<string>)
    ensures m - (a + b) == (m - a) - b
  {
  }

  /** One turn of the reporting loop: the group's tail is deleted and its report appended. */
  method ReportGroup(routeManifest: Manifest, conflictOrder: seq<string>, urlConflicts: map<string, seq<RouteEntry>>,
                     i: nat, m: Manifest, reports: seq<string>)
    returns (m': Manifest, reports': seq<string>)
    requires i < |conflictOrder| && forall o :: o in conflictOrder ==> o in urlConflicts
    requires m == routeManifest - DeletedIds(conflictOrder[..i], urlConflicts)
    requires reports == PathReports(conflictOrder[..i], urlConflicts)
    ensures m' == routeManifest - DeletedIds(conflictOrder[..i + 1], urlConflicts)
    ensures reports' == PathReports(conflictOrder[..i + 1], urlConflicts)
  {
    var path := conflictOrder[i];
    var routes := urlConflicts[path];
    DeleteStep(conflictOrder, urlConflicts, i);
    RemoveBoth(routeManifest, DeletedIds(conflictOrder[..i], urlConflicts), TailIds(routes));
    m' := DeleteTail(m, routes);
    var files := Files(routes);
    ReportStep(conflictOrder, urlConflicts, i, reports, files);
    reports' := reports + [RoutePathConflictMessage(path, files)];
  }

  /** The reporting loop: all but the first route of each group are deleted, and the group is reported. */
  method ReportPathConflicts(routeManifest: Manifest, conflictOrder: seq<string>, urlConflicts: map<string, seq<RouteEntry>>)
    returns (m: Manifest, reports: seq<string>)
    requires forall o :: o in conflictOrder ==> o in urlConflicts
    ensures m == routeManifest - DeletedIds(conflictOrder, urlConflicts)
    ensures reports == PathReports(conflictOrder, urlConflicts)
  {
    m := routeManifest;
    reports := [];
    var i := 0;
    assert conflictOrder[..i] == [];
    RemoveNothing(routeManifest);
    while i < |conflictOrder|
      invariant 0 <= i <= |conflictOrder|
      invariant m == routeManifest - DeletedIds(conflictOrder[..i], urlConflicts)
      invariant reports == PathReports(conflictOrder[..i], urlConflicts)
    {
      m, reports := ReportGroup(routeManifest, conflictOrder, urlConflicts, i, m, reports);
      i := i + 1;
    }
    assert conflictOrder[..i] == conflictOrder;
  }

  /** Pass 1 of `getRouteManifest`: the manifest with every route filed and its parent claimed. */
  method ClaimRoutes(sortedRouteIds: seq<RouteEntry>) returns (r: Result<Manifest, RouteError>)
    ensures var first := ClaimAll(sortedRouteIds, SegmentsOf(sortedRouteIds), |sortedRouteIds|);
      if first.Success? then r == Success(first.value.manifest) else r == Failure(first.error)
  {
    var routeManifest: Manifest := map[];
    var prefixLookup := new PrefixLookupTrie();
    ghost var paths := SegmentsOf(sortedRouteIds);
    var i := 0;
    while i < |sortedRouteIds|
      invariant 0 <= i <= |sortedRouteIds|
      invariant fresh(prefixLookup) && prefixLookup.Valid()
      invariant ClaimAll(sortedRouteIds, paths, i) == Success(FirstPass(routeManifest, prefixLookup.Marked()))
    {
      var claimed;
      claimed, i := ClaimEntry(prefixLookup, routeManifest, sortedRouteIds, paths, i);
      if claimed.Failure? {
        ClaimAllFails(sortedRouteIds, paths, i, |sortedRouteIds|);
        return Failure(claimed.error);
      }
      routeManifest := claimed.value;
    }
    return Success(routeManifest);
  }

  /** `getRouteManifest(sortedRouteIds)`, with the path-collision reports returned instead of printed. */
  method GetRouteManifest(sortedRouteIds: seq<RouteEntry>) returns (r: Result<(Manifest, seq<string>), RouteError>)
    ensures r == RouteManifest(sortedRouteIds)
  {
    var claimed := ClaimRoutes(sortedRouteIds);
    if claimed.Failure? {
      return Failure(claimed.error);
    }
    var routeManifest := claimed.value;
    var s := SettleRoutes(sortedRouteIds, routeManifest);
    SettleAllGroups(sortedRouteIds, |sortedRouteIds|, routeManifest);
    var m, reports := ReportPathConflicts(s.manifest, s.groupOrder, s.groups);
    return Success((m, reports));
  }

  /** Once pass 1 fails, it fails for every longer prefix of the entries, with the same error. */
  lemma {:induction false} ClaimAllFails(entries: seq<RouteEntry>, paths: seq<Result<Option<string>, RouteError>>, n: nat, m: nat)
    requires n <= m <= |entries| == |paths|
    requires ClaimAll(entries, paths, n).Failure?
    ensures ClaimAll(entries, paths, m) == ClaimAll(entries, paths, n)
    decreases m
  {
    if m > n {
      ClaimAllFails(entries, paths, n, m - 1);
      var prev := ClaimAll(entries, paths, m - 1);
      assert prev.Failure?;
      assert ClaimAll(entries, paths, m) == Failure(prev.error);
    }
  }

  /** One turn of pass 1's loop: the `i`-th route is filed and claims its children. */
  method ClaimEntry(prefixLookup: PrefixLookupTrie, routeManifest: Manifest, sortedRouteIds: seq<RouteEntry>,
                    ghost paths: seq<Result<Option<string>, RouteError>>, i: nat)
    returns (r: Result<Manifest, RouteError>, next: nat)
    requires i < |sortedRouteIds| && paths == SegmentsOf(sortedRouteIds)
    requires prefixLookup.Valid()
    requires ClaimAll(sortedRouteIds, paths, i) == Success(FirstPass(routeManifest, prefixLookup.Marked()))
    modifies prefixLookup
    ensures next == i + 1
    ensures r.Failure? ==> ClaimAll(sortedRouteIds, paths, next) == Failure(r.error)
    ensures r.Success? ==> prefixLookup.Valid()
    ensures r.Success? ==> ClaimAll(sortedRouteIds, paths, next) == Success(FirstPass(r.value, prefixLookup.Marked()))
  {
    var id := sortedRouteIds[i].0;
    var file := sortedRouteIds[i].1;
    var path := GetRouteSegments(id);
    assert path == paths[i];
    r := ClaimRoute(prefixLookup, routeManifest, id, file, path);
    next := i + 1;
  }

  /** The body of pass 1's loop for one route whose segments are `segments`. */
  method ClaimRoute(prefixLookup: PrefixLookupTrie, routeManifest: Manifest, id: string, file: string,
                    segments: Result<Option<string>, RouteError>) returns (r: Result<Manifest, RouteError>)
    requires prefixLookup.Valid() && prefixLookup.Marked() <= routeManifest.Keys
    modifies prefixLookup
    ensures r.Failure? ==> Claim(FirstPass(routeManifest, old(prefixLookup.Marked())), id, file, segments) == Failure(r.error)
    ensures r.Success? ==> (prefixLookup.Valid() &&
      Claim(FirstPass(routeManifest, old(prefixLookup.Marked())), id, file, segments) == Success(FirstPass(r.value, prefixLookup.Marked())))
  {
    if segments.Failure? {
      return Failure(segments.error);
    }
    ghost var live := prefixLookup.Marked();
    ghost var children := Taken(live, id, ChildFilter(id));
    var m := routeManifest[id := Route(file, id, EndsWith(id, "_index"), segments.value, None)];
    assert children <= live <= m.Keys;
    assert id != "" ==>
      Claim(FirstPass(routeManifest, live), id, file, segments) == Success(FirstPass(SetParent(m, children, id), live - children + {id}));
    var childRouteIds := prefixLookup.FindAndRemove(id, ChildFilter(id));
    assert prefixLookup.Marked() == live - children;
    var ok := prefixLookup.Add(id);
    if !ok {
      return Failure(EmptyTrieValue);
    }
    assert prefixLookup.Marked() == live - children + {id};
    assert (set c | c in childRouteIds) == children;
    m := AdoptChildren(m, childRouteIds, id);
    return Success(m);
  }
}
