/**
 * What the path-collision reports of `getRouteManifest` say: one report per original path at
 * which some route collided, in the order those paths first collided, each listing the route
 * the first collider met and then every colliding route with that path, in input order.
 */
module ManifestGroups {
  import opened Wrappers
  import opened JsString
  import opened RouteErrors
  import opened ConflictMessages
  import opened RouteIds
  import opened Manifests
  import opened ManifestFacts

  /** `route.path || ""` of entry `k`. */
  function OrigAt(entries: seq<RouteEntry>, paths: seq<Result<Option<string>, RouteError>>, k: nat): string
    requires k < |entries| == |paths|
  {
    var p := PathOf(paths[k]);
    if p.Some? then p.value else ""
  }

  /** The last of the first `n` entries whose key is `key`: the one `uniqueRoutes` holds for it. */
  function LastWithKey(entries: seq<RouteEntry>, paths: seq<Result<Option<string>, RouteError>>, key: string, n: nat): (r: Option<nat>)
    requires n <= |entries| == |paths|
    ensures r.Some? ==> r.value < n
  {
    if n == 0 then None
    else if KeyAt(entries, paths, n - 1) == key then Some(n - 1)
    else LastWithKey(entries, paths, key, n - 1)
  }

  /** `LastWithKey` finds an entry exactly when one has the key, and then the last one. */
  lemma {:induction false} LastWithKeyFacts(entries: seq<RouteEntry>, paths: seq<Result<Option<string>, RouteError>>, key: string, n: nat)
    requires n <= |entries| == |paths|
    ensures var r := LastWithKey(entries, paths, key, n);
      (r.None? <==> forall j :: 0 <= j < n ==> KeyAt(entries, paths, j) != key) &&
      (r.Some? ==> KeyAt(entries, paths, r.value) == key && forall j :: r.value < j < n ==> KeyAt(entries, paths, j) != key)
  {
    if n > 0 {
      LastWithKeyFacts(entries, paths, key, n - 1);
    }
  }

  /** Among the first `n` entries, the first colliding one whose original path is `o`. */
  function Opener(entries: seq<RouteEntry>, paths: seq<Result<Option<string>, RouteError>>, o: string, n: nat): (r: Option<nat>)
    requires n <= |entries| == |paths|
    ensures r.Some? ==> r.value < n
  {
    if n == 0 then None
    else
      var r := Opener(entries, paths, o, n - 1);
      if r.Some? then r
      else if Collides(entries, paths, n - 1) && OrigAt(entries, paths, n - 1) == o then Some(n - 1)
      else None
  }

  /** `Opener` finds an entry exactly when a route collided at `o`, and then the first one. */
  lemma {:induction false} OpenerFacts(entries: seq<RouteEntry>, paths: seq<Result<Option<string>, RouteError>>, o: string, n: nat)
    requires n <= |entries| == |paths|
    ensures var r := Opener(entries, paths, o, n);
      (r.None? <==> forall j :: 0 <= j < n ==> !(Collides(entries, paths, j) && OrigAt(entries, paths, j) == o)) &&
      (r.Some? ==> Collides(entries, paths, r.value) && OrigAt(entries, paths, r.value) == o &&
                   forall j :: 0 <= j < r.value ==> !(Collides(entries, paths, j) && OrigAt(entries, paths, j) == o))
  {
    if n > 0 {
      OpenerFacts(entries, paths, o, n - 1);
    }
  }

  /** The colliding entries among the first `n` whose original path is `o`, in input order. */
  function Members(entries: seq<RouteEntry>, paths: seq<Result<Option<string>, RouteError>>, o: string, n: nat): seq<RouteEntry>
    requires n <= |entries| == |paths|
  {
    if n == 0 then []
    else Members(entries, paths, o, n - 1) +
         (if Collides(entries, paths, n - 1) && OrigAt(entries, paths, n - 1) == o then [entries[n - 1]] else [])
  }

  /** The route that the first collider at `o` collided with: the last earlier entry with its key. */
  function Head(entries: seq<RouteEntry>, paths: seq<Result<Option<string>, RouteError>>, o: string, n: nat): RouteEntry
    requires n <= |entries| == |paths| && Opener(entries, paths, o, n).Some?
  {
    var f := Opener(entries, paths, o, n).value;
    var last := LastWithKey(entries, paths, KeyAt(entries, paths, f), f);
    if last.Some? then entries[last.value] else entries[f]
  }

  /** The group reported for the original path `o`: the route first collided with, then the colliders. */
  function GroupOf(entries: seq<RouteEntry>, paths: seq<Result<Option<string>, RouteError>>, o: string, n: nat): seq<RouteEntry>
    requires n <= |entries| == |paths| && Opener(entries, paths, o, n).Some?
  {
    [Head(entries, paths, o, n)] + Members(entries, paths, o, n)
  }

  /** The original paths at which some route collided, in the order of their first collision. */
  function GroupOrder(entries: seq<RouteEntry>, paths: seq<Result<Option<string>, RouteError>>, n: nat): seq<string>
    requires n <= |entries| == |paths|
  {
    if n == 0 then []
    else
      var o := OrigAt(entries, paths, n - 1);
      var opens := Collides(entries, paths, n - 1) && Opener(entries, paths, o, n - 1).None?;
      GroupOrder(entries, paths, n - 1) + (if opens then [o] else [])
  }

  /** A path is listed exactly when some route collided at it. */
  lemma {:induction false} GroupOrderMembers(entries: seq<RouteEntry>, paths: seq<Result<Option<string>, RouteError>>, n: nat)
    requires n <= |entries| == |paths|
    ensures forall o :: o in GroupOrder(entries, paths, n) <==> Opener(entries, paths, o, n).Some?
  {
    if n > 0 {
      GroupOrderMembers(entries, paths, n - 1);
    }
  }

  /** No route has collided at a path that has no opener yet. */
  lemma {:induction false} MembersEmpty(entries: seq<RouteEntry>, paths: seq<Result<Option<string>, RouteError>>, o: string, n: nat)
    requires n <= |entries| == |paths| && Opener(entries, paths, o, n).None?
    ensures Members(entries, paths, o, n) == []
  {
    if n > 0 {
      MembersEmpty(entries, paths, o, n - 1);
    }
  }

  /**
   * The contents of `uniqueRoutes` and `urlConflicts` during pass 2: each key holds the last route
   * with that key, the paths are listed in the order they first collided, and each path's group is
   * `GroupOf`.
   */
  ghost predicate GroupsSpec(entries: seq<RouteEntry>, paths: seq<Result<Option<string>, RouteError>>, n: nat, s: SecondPass)
    requires n <= |entries| == |paths|
  {
    (forall key :: key in s.unique ==>
       LastWithKey(entries, paths, key, n).Some? && s.unique[key] == entries[LastWithKey(entries, paths, key, n).value]) &&
    GroupsSpecAt(entries, paths, n, s.groupOrder, s.groups)
  }

  /** `urlConflicts` during pass 2: the paths in order of first collision, each with its `GroupOf`. */
  ghost predicate GroupsSpecAt(entries: seq<RouteEntry>, paths: seq<Result<Option<string>, RouteError>>, n: nat,
                               order: seq<string>, groups: map<string, seq<RouteEntry>>)
    requires n <= |entries| == |paths|
  {
    order == GroupOrder(entries, paths, n) && forall o :: GroupFor(entries, paths, n, groups, o)
  }

  /** The path `o` has a group exactly when some route collided at it, and the group is `GroupOf`. */
  ghost predicate GroupFor(entries: seq<RouteEntry>, paths: seq<Result<Option<string>, RouteError>>, n: nat,
                           groups: map<string, seq<RouteEntry>>, o: string)
    requires n <= |entries| == |paths|
  {
    (o in groups <==> Opener(entries, paths, o, n).Some?) &&
    (o in groups ==> Opener(entries, paths, o, n).Some? && groups[o] == GroupOf(entries, paths, o, n))
  }

  /** The route pass 2 reads for entry `n` carries entry `n`'s file, original path and key. */
  lemma SettleReads(entries: seq<RouteEntry>, paths: seq<Result<Option<string>, RouteError>>, n: nat, s: SecondPass)
    requires n < |entries| == |paths| && ManifestAt(entries, paths, n, s.manifest)
    ensures var route := s.manifest[entries[n].0];
      route.file == entries[n].1 && OriginalPath(route) == OrigAt(entries, paths, n) &&
      ConflictKey(OriginalPath(route), route.index) == KeyAt(entries, paths, n)
  {
    assert s.manifest[entries[n].0] == Filed(entries, paths, n, |entries|);
  }

  /** What pass 2 reads for entry `n` from state `s`: entry `n`'s file, original path and key, and whether it collides. */
  ghost predicate ReadsEntry(entries: seq<RouteEntry>, paths: seq<Result<Option<string>, RouteError>>, n: nat, s: SecondPass)
    requires n < |entries| == |paths|
  {
    entries[n].0 in s.manifest &&
    var route := s.manifest[entries[n].0];
    route.file == entries[n].1 && OriginalPath(route) == OrigAt(entries, paths, n) &&
    ConflictKey(OriginalPath(route), route.index) == KeyAt(entries, paths, n) &&
    (Collides(entries, paths, n) <==> KeyAt(entries, paths, n) in s.unique && (OriginalPath(route) != "" || route.index))
  }

  /** Pass 2 reads entry `n` as `ReadsEntry` says once it has read the entries before it. */
  lemma SettleAllReads(entries: seq<RouteEntry>, paths: seq<Result<Option<string>, RouteError>>, n: nat, start: Manifest)
    requires n < |entries| == |paths| && UniqueIds(entries) && AllFiled(entries, paths)
    requires ManifestAt(entries, paths, 0, start)
    ensures ReadsEntry(entries, paths, n, SettleAll(entries, n, start))
  {
    var s := SettleAll(entries, n, start);
    SettleAllShape(entries, paths, n, start);
    SettleReads(entries, paths, n, s);
    SettleKey(entries, paths, n, s);
  }

  /** `uniqueRoutes` after entry `n` holds entry `n` under its key. */
  lemma UniqueSpecStep(entries: seq<RouteEntry>, paths: seq<Result<Option<string>, RouteError>>, n: nat,
                       unique: map<string, RouteEntry>)
    requires n < |entries| == |paths|
    requires forall key :: key in unique ==>
       LastWithKey(entries, paths, key, n).Some? && unique[key] == entries[LastWithKey(entries, paths, key, n).value]
    ensures var u := unique[KeyAt(entries, paths, n) := entries[n]];
      forall key :: key in u ==>
        LastWithKey(entries, paths, key, n + 1).Some? && u[key] == entries[LastWithKey(entries, paths, key, n + 1).value]
  {
  }

  /** One more entry: an opener stays, and a route colliding at a path without one becomes its opener. */
  lemma OpenerStep(entries: seq<RouteEntry>, paths: seq<Result<Option<string>, RouteError>>, o: string, n: nat)
    requires n < |entries| == |paths|
    ensures Opener(entries, paths, o, n + 1) ==
      if Opener(entries, paths, o, n).Some? then Opener(entries, paths, o, n)
      else if Collides(entries, paths, n) && OrigAt(entries, paths, n) == o then Some(n)
      else None
  {
  }

  /** One more entry: a group with an opener gains the entry when it collides at its path. */
  lemma GroupOfStep(entries: seq<RouteEntry>, paths: seq<Result<Option<string>, RouteError>>, o: string, n: nat)
    requires n < |entries| == |paths| && Opener(entries, paths, o, n).Some?
    ensures Opener(entries, paths, o, n + 1) == Opener(entries, paths, o, n)
    ensures GroupOf(entries, paths, o, n + 1) == GroupOf(entries, paths, o, n) +
      (if Collides(entries, paths, n) && OrigAt(entries, paths, n) == o then [entries[n]] else [])
  {
    OpenerStep(entries, paths, o, n);
    HeadStep(entries, paths, o, n);
    var h := Head(entries, paths, o, n);
    var more := if Collides(entries, paths, n) && OrigAt(entries, paths, n) == o then [entries[n]] else [];
    var ms := Members(entries, paths, o, n);
    assert Members(entries, paths, o, n + 1) == ms + more;
    assert [h] + (ms + more) == [h] + ms + more;
  }

  /** One more entry leaves the route the first collider met unchanged. */
  lemma HeadStep(entries: seq<RouteEntry>, paths: seq<Result<Option<string>, RouteError>>, o: string, n: nat)
    requires n < |entries| == |paths| && Opener(entries, paths, o, n).Some?
    ensures Opener(entries, paths, o, n + 1) == Opener(entries, paths, o, n)
    ensures Head(entries, paths, o, n + 1) == Head(entries, paths, o, n)
  {
    OpenerStep(entries, paths, o, n);
  }

  /** A path the entry does not collide at keeps its opener and its group. */
  lemma GroupUntouched(entries: seq<RouteEntry>, paths: seq<Result<Option<string>, RouteError>>, n: nat,
                       groups: map<string, seq<RouteEntry>>, o: string)
    requires n < |entries| == |paths|
    requires !(Collides(entries, paths, n) && OrigAt(entries, paths, n) == o)
    requires GroupFor(entries, paths, n, groups, o)
    ensures GroupFor(entries, paths, n + 1, groups, o)
  {
    OpenerStep(entries, paths, o, n);
    if o in groups {
      GroupOfStep(entries, paths, o, n);
    }
  }

  /** A route that does not collide leaves every group, opener and the order as they were. */
  lemma GroupsSpecKeep(entries: seq<RouteEntry>, paths: seq<Result<Option<string>, RouteError>>, n: nat,
                       order: seq<string>, groups: map<string, seq<RouteEntry>>)
    requires n < |entries| == |paths| && !Collides(entries, paths, n)
    requires GroupsSpecAt(entries, paths, n, order, groups)
    ensures GroupsSpecAt(entries, paths, n + 1, order, groups)
  {
    assert GroupOrder(entries, paths, n + 1) == GroupOrder(entries, paths, n) + [];
    var m := n + 1;
    forall o ensures GroupFor(entries, paths, m, groups, o) {
      GroupUntouched(entries, paths, n, groups, o);
    }
  }

  /** A colliding route at a path with a group joins the end of that group. */
  lemma GroupsSpecJoin(entries: seq<RouteEntry>, paths: seq<Result<Option<string>, RouteError>>, n: nat,
                       order: seq<string>, groups: map<string, seq<RouteEntry>>)
    requires n < |entries| == |paths| && Collides(entries, paths, n)
    requires GroupsSpecAt(entries, paths, n, order, groups)
    requires OrigAt(entries, paths, n) in groups
    ensures var orig := OrigAt(entries, paths, n);
      GroupsSpecAt(entries, paths, n + 1, order, groups[orig := groups[orig] + [entries[n]]])
  {
    var orig := OrigAt(entries, paths, n);
    var group := groups[orig] + [entries[n]];
    GroupJoined(entries, paths, n, order, groups);
    GroupsAfter(entries, paths, n, order, groups, orig, group, order);
  }

  /** Once the group of the path entry `n` collides at and the list of paths are right one entry later,
      every path's group is. */
  lemma GroupsAfter(entries: seq<RouteEntry>, paths: seq<Result<Option<string>, RouteError>>, n: nat,
                    order: seq<string>, groups: map<string, seq<RouteEntry>>, orig: string, group: seq<RouteEntry>,
                    order': seq<string>)
    requires n < |entries| == |paths| && Collides(entries, paths, n) && orig == OrigAt(entries, paths, n)
    requires GroupsSpecAt(entries, paths, n, order, groups)
    requires order' == GroupOrder(entries, paths, n + 1)
    requires GroupFor(entries, paths, n + 1, groups[orig := group], orig)
    ensures GroupsSpecAt(entries, paths, n + 1, order', groups[orig := group])
  {
    var m, g := n + 1, groups[orig := group];
    forall o ensures GroupFor(entries, paths, m, g, o) {
      if o != orig {
        assert GroupFor(entries, paths, n, groups, o);
        GroupElsewhere(entries, paths, n, groups, orig, group, o);
      }
    }
  }

  /** A path other than the one entry `n` collides at keeps its group when another path's group is replaced. */
  lemma GroupElsewhere(entries: seq<RouteEntry>, paths: seq<Result<Option<string>, RouteError>>, n: nat,
                       groups: map<string, seq<RouteEntry>>, orig: string, group: seq<RouteEntry>, o: string)
    requires n < |entries| == |paths| && Collides(entries, paths, n) && orig == OrigAt(entries, paths, n)
    requires o != orig && GroupFor(entries, paths, n, groups, o)
    ensures GroupFor(entries, paths, n + 1, groups[orig := group], o)
  {
    GroupUntouched(entries, paths, n, groups, o);
    assert o in groups[orig := group] <==> o in groups;
  }

  /** A collision at a path that already has a group lists no new path. */
  lemma JoinKeepsOrder(entries: seq<RouteEntry>, paths: seq<Result<Option<string>, RouteError>>, n: nat)
    requires n < |entries| == |paths| && Collides(entries, paths, n)
    requires Opener(entries, paths, OrigAt(entries, paths, n), n).Some?
    ensures GroupOrder(entries, paths, n + 1) == GroupOrder(entries, paths, n)
  {
    assert GroupOrder(entries, paths, n + 1) == GroupOrder(entries, paths, n) + [];
  }

  /** The group a colliding route joins is the group of its path one entry later, and no path is listed anew. */
  lemma GroupJoined(entries: seq<RouteEntry>, paths: seq<Result<Option<string>, RouteError>>, n: nat,
                    order: seq<string>, groups: map<string, seq<RouteEntry>>)
    requires n < |entries| == |paths| && Collides(entries, paths, n)
    requires GroupsSpecAt(entries, paths, n, order, groups) && OrigAt(entries, paths, n) in groups
    ensures GroupOrder(entries, paths, n + 1) == order
    ensures var orig := OrigAt(entries, paths, n);
      GroupFor(entries, paths, n + 1, groups[orig := groups[orig] + [entries[n]]], orig)
  {
    var orig := OrigAt(entries, paths, n);
    assert GroupFor(entries, paths, n, groups, orig);
    JoinKeepsOrder(entries, paths, n);
    GroupOfStep(entries, paths, orig, n);
  }

  /** A colliding route at a path with no group opens one: the route it collided with, then itself. */
  lemma GroupsSpecOpen(entries: seq<RouteEntry>, paths: seq<Result<Option<string>, RouteError>>, n: nat,
                       order: seq<string>, groups: map<string, seq<RouteEntry>>, head: RouteEntry)
    requires n < |entries| == |paths| && Collides(entries, paths, n)
    requires GroupsSpecAt(entries, paths, n, order, groups)
    requires OrigAt(entries, paths, n) !in groups
    requires var key := KeyAt(entries, paths, n);
      LastWithKey(entries, paths, key, n).Some? && head == entries[LastWithKey(entries, paths, key, n).value]
    ensures var orig := OrigAt(entries, paths, n);
      GroupsSpecAt(entries, paths, n + 1, order + [orig], groups[orig := [head] + [entries[n]]])
  {
    var orig := OrigAt(entries, paths, n);
    var group := [head] + [entries[n]];
    GroupOpened(entries, paths, n, order, groups, head);
    GroupsAfter(entries, paths, n, order, groups, orig, group, order + [orig]);
  }

  /** The group a collision opens is the group of its path one entry later, and that path is listed last. */
  lemma GroupOpened(entries: seq<RouteEntry>, paths: seq<Result<Option<string>, RouteError>>, n: nat,
                    order: seq<string>, groups: map<string, seq<RouteEntry>>, head: RouteEntry)
    requires n < |entries| == |paths| && Collides(entries, paths, n)
    requires GroupsSpecAt(entries, paths, n, order, groups) && OrigAt(entries, paths, n) !in groups
    requires var key := KeyAt(entries, paths, n);
      LastWithKey(entries, paths, key, n).Some? && head == entries[LastWithKey(entries, paths, key, n).value]
    ensures GroupOrder(entries, paths, n + 1) == order + [OrigAt(entries, paths, n)]
    ensures var orig := OrigAt(entries, paths, n);
      GroupFor(entries, paths, n + 1, groups[orig := [head] + [entries[n]]], orig)
  {
    var orig := OrigAt(entries, paths, n);
    assert GroupFor(entries, paths, n, groups, orig);
    OpenedGroup(entries, paths, n, head);
    assert GroupOrder(entries, paths, n + 1) == GroupOrder(entries, paths, n) + [orig];
  }

  /** The group a collision opens holds the route collided with and the collider. */
  lemma OpenedGroup(entries: seq<RouteEntry>, paths: seq<Result<Option<string>, RouteError>>, n: nat, head: RouteEntry)
    requires n < |entries| == |paths| && Collides(entries, paths, n)
    requires Opener(entries, paths, OrigAt(entries, paths, n), n).None?
    requires var key := KeyAt(entries, paths, n);
      LastWithKey(entries, paths, key, n).Some? && head == entries[LastWithKey(entries, paths, key, n).value]
    ensures Opener(entries, paths, OrigAt(entries, paths, n), n + 1) == Some(n)
    ensures GroupOf(entries, paths, OrigAt(entries, paths, n), n + 1) == [head] + [entries[n]]
  {
    var orig := OrigAt(entries, paths, n);
    MembersEmpty(entries, paths, orig, n);
    assert Members(entries, paths, orig, n + 1) == [] + [entries[n]];
  }

  /** Reading entry `n` in pass 2 keeps `uniqueRoutes` and `urlConflicts` as `GroupsSpec` says. */
  lemma GroupsSpecStep(entries: seq<RouteEntry>, paths: seq<Result<Option<string>, RouteError>>, n: nat, s: SecondPass)
    requires n < |entries| == |paths| && UniqueIds(entries) && AllFiled(entries, paths)
    requires ReadsEntry(entries, paths, n, s) && GroupsSpec(entries, paths, n, s)
    ensures GroupsSpec(entries, paths, n + 1, Settle(s, entries[n].0))
  {
    var id := entries[n].0;
    var key := KeyAt(entries, paths, n);
    var orig := OrigAt(entries, paths, n);
    var s' := Settle(s, id);
    assert s'.unique == s.unique[key := entries[n]];
    UniqueSpecStep(entries, paths, n, s.unique);
    if Collides(entries, paths, n) {
      if orig in s.groups {
        assert s'.groups == s.groups[orig := s.groups[orig] + [entries[n]]] && s'.groupOrder == s.groupOrder;
        GroupsSpecJoin(entries, paths, n, s.groupOrder, s.groups);
      } else {
        var head := s.unique[key];
        assert s'.groups == s.groups[orig := [head] + [entries[n]]] && s'.groupOrder == s.groupOrder + [orig];
        GroupsSpecOpen(entries, paths, n, s.groupOrder, s.groups, head);
      }
    } else {
      assert s'.groups == s.groups && s'.groupOrder == s.groupOrder;
      GroupsSpecKeep(entries, paths, n, s.groupOrder, s.groups);
    }
  }

  /** Before pass 2 reads anything, nothing is held and no path has collided. */
  lemma GroupsSpecStart(entries: seq<RouteEntry>, paths: seq<Result<Option<string>, RouteError>>, start: Manifest)
    requires |entries| == |paths|
    ensures GroupsSpec(entries, paths, 0, SecondPass(start, map[], [], map[]))
  {
    forall o ensures GroupFor(entries, paths, 0, map[], o) {
    }
  }

  /** Pass 2 over the first `n` entries leaves `uniqueRoutes` and `urlConflicts` as `GroupsSpec` says. */
  lemma {:induction false} GroupsSpecAll(entries: seq<RouteEntry>, paths: seq<Result<Option<string>, RouteError>>, n: nat, start: Manifest)
    requires n <= |entries| == |paths| && UniqueIds(entries) && AllFiled(entries, paths)
    requires ManifestAt(entries, paths, 0, start)
    ensures GroupsSpec(entries, paths, n, SettleAll(entries, n, start))
    decreases n, 0
  {
    if n > 0 {
      GroupsSpecAllStep(entries, paths, n - 1, start);
    } else {
      GroupsSpecStart(entries, paths, start);
    }
  }

  /** The induction step of `GroupsSpecAll`. */
  lemma {:induction false} GroupsSpecAllStep(entries: seq<RouteEntry>, paths: seq<Result<Option<string>, RouteError>>, n: nat, start: Manifest)
    requires n < |entries| == |paths| && UniqueIds(entries) && AllFiled(entries, paths)
    requires ManifestAt(entries, paths, 0, start)
    ensures GroupsSpec(entries, paths, n + 1, SettleAll(entries, n + 1, start))
    decreases n, 1
  {
    GroupsSpecAll(entries, paths, n, start);
    SettleAllReads(entries, paths, n, start);
    GroupsSpecStep(entries, paths, n, SettleAll(entries, n, start));
  }

  /** The `i`-th report is the one for the `i`-th listed path. */
  lemma {:induction false} PathReportsAt(order: seq<string>, groups: map<string, seq<RouteEntry>>, i: nat)
    requires i < |order| && forall o :: o in order ==> o in groups
    ensures PathReports(order, groups)[i] == RoutePathConflictMessage(order[i], Files(groups[order[i]]))
    decreases |order|
  {
    var init := order[..|order| - 1];
    var last := order[|order| - 1];
    assert forall o :: o in init ==> o in order;
    PathReportsSnoc(order, groups);
    AppendAt(PathReports(init, groups), RoutePathConflictMessage(last, Files(groups[last])), i);
    if i < |init| {
      PathReportsAt(init, groups, i);
      assert init[i] == order[i];
    }
  }

  /** The reports for a non-empty list of paths: those for all but the last path, then the last one's. */
  lemma PathReportsSnoc(order: seq<string>, groups: map<string, seq<RouteEntry>>)
    requires order != [] && forall o :: o in order ==> o in groups
    ensures var init, last := order[..|order| - 1], order[|order| - 1];
      (forall o :: o in init ==> o in groups) &&
      PathReports(order, groups) == PathReports(init, groups) + [RoutePathConflictMessage(last, Files(groups[last]))]
  {
  }

  /** An element of `s + [x]` is an element of `s`, or `x` at the end. */
  lemma AppendAt<T>(s: seq<T>, x: T, i: nat)
    requires i <= |s|
    ensures (s + [x])[i] == if i < |s| then s[i] else x
  {
  }

  /** The reports of groups that `GroupsSpecAt` describes: one per path of `GroupOrder`, listing `GroupOf`. */
  lemma ReportsOfGroups(entries: seq<RouteEntry>, paths: seq<Result<Option<string>, RouteError>>, n: nat,
                        order: seq<string>, groups: map<string, seq<RouteEntry>>)
    requires n <= |entries| == |paths| && GroupsSpecAt(entries, paths, n, order, groups)
    requires forall o :: o in order ==> o in groups
    ensures |PathReports(order, groups)| == |GroupOrder(entries, paths, n)|
    ensures forall i :: 0 <= i < |order| ==>
      (Opener(entries, paths, order[i], n).Some? &&
       PathReports(order, groups)[i] == RoutePathConflictMessage(order[i], Files(GroupOf(entries, paths, order[i], n))))
  {
    forall i | 0 <= i < |order|
      ensures Opener(entries, paths, order[i], n).Some? &&
        PathReports(order, groups)[i] == RoutePathConflictMessage(order[i], Files(GroupOf(entries, paths, order[i], n)))
    {
      assert GroupFor(entries, paths, n, groups, order[i]);
      PathReportsAt(order, groups, i);
    }
  }

  /**
   * `getRouteManifest` reports one path collision per original path at which some route
   * collided, in the order of the first collision at each: the report names the path and lists
   * the file of the route the first collider met, then the file of every route that collided at
   * that path, in input order.
   */
  lemma PathReportsContent(entries: seq<RouteEntry>)
    requires UniqueIds(entries) && RouteManifest(entries).Success?
    ensures var paths := SegmentsOf(entries);
      var order := GroupOrder(entries, paths, |entries|);
      var reports := RouteManifest(entries).value.1;
      |reports| == |order| &&
      forall i :: 0 <= i < |order| ==>
        (Opener(entries, paths, order[i], |entries|).Some? &&
         reports[i] == RoutePathConflictMessage(order[i], Files(GroupOf(entries, paths, order[i], |entries|))))
  {
    var paths := SegmentsOf(entries);
    var sp := Built(entries);
    var start := ClaimAll(entries, paths, |entries|).value.manifest;
    GroupsSpecAll(entries, paths, |entries|, start);
    ReportsOfGroups(entries, paths, |entries|, sp.groupOrder, sp.groups);
  }
}
