/**
 * What `getRouteManifest` promises about the manifest it builds from `(id, file)` pairs with
 * distinct ids: every route's parent is the first later route whose id it extends past a `.` or
 * `/` (the longest such id when the pairs come longest id first), or `root`; its path is made
 * relative to that parent's; and a route is dropped exactly when an earlier route had the same
 * path and index flag.
 */
module ManifestFacts {
  import opened Wrappers
  import opened JsString
  import opened RouteErrors
  import opened Segments
  import opened PrefixTrie
  import opened RouteIds
  import opened Manifests

  /** The template of a route whose segments did not throw. */
  function PathOf(segments: Result<Option<string>, RouteError>): Option<string> {
    if segments.Success? then segments.value else None
  }

  /**
   * The entry that claims entry `k` in pass 1 when only the first `n` entries are read: the first
   * later entry whose id is an ancestor of entry `k`'s.
   */
  function Claimer(entries: seq<RouteEntry>, k: nat, n: nat): (c: Option<nat>)
    requires k < n <= |entries|
    ensures c.Some? ==> k < c.value < n
    decreases n
  {
    if n == k + 1 then None
    else
      var c := Claimer(entries, k, n - 1);
      if c.Some? then c
      else if Boundary(entries[n - 1].0, entries[k].0) then Some(n - 1)
      else None
  }

  /** The claimer is an ancestor, and no entry between the two is one; with no claimer, no later entry is. */
  lemma {:induction false} ClaimerFirst(entries: seq<RouteEntry>, k: nat, n: nat)
    requires k < n <= |entries|
    ensures var c := Claimer(entries, k, n);
      c.Some? ==> (Boundary(entries[c.value].0, entries[k].0) &&
        forall j :: k < j < c.value ==> !Boundary(entries[j].0, entries[k].0))
    ensures Claimer(entries, k, n).None? ==> forall j :: k < j < n ==> !Boundary(entries[j].0, entries[k].0)
    decreases n
  {
    if n > k + 1 {
      ClaimerFirst(entries, k, n - 1);
    }
  }

  /** The parent id pass 1 gives entry `k`. */
  function ParentAt(entries: seq<RouteEntry>, k: nat, n: nat): Option<string>
    requires k < n <= |entries|
  {
    var c := Claimer(entries, k, n);
    if c.Some? then Some(entries[c.value].0) else None
  }

  /** The route pass 1 files for entry `k`, once `n` entries are read. */
  function Filed(entries: seq<RouteEntry>, paths: seq<Result<Option<string>, RouteError>>, k: nat, n: nat): Route
    requires k < n <= |entries| == |paths|
  {
    Route(entries[k].1, entries[k].0, EndsWith(entries[k].0, "_index"), PathOf(paths[k]), ParentAt(entries, k, n))
  }

  /** The state pass 1 is in after `n` entries, entry by entry. */
  ghost predicate Pass1Shape(entries: seq<RouteEntry>, paths: seq<Result<Option<string>, RouteError>>, n: nat, st: FirstPass)
    requires n <= |entries| == |paths|
  {
    (forall k :: 0 <= k < n ==> paths[k].Success? && entries[k].0 != "" && entries[k].0 in st.manifest) &&
    (forall k {:trigger st.manifest[entries[k].0]} :: 0 <= k < n ==> st.manifest[entries[k].0] == Filed(entries, paths, k, n)) &&
    (forall k :: 0 <= k < n ==> (entries[k].0 in st.live <==> Claimer(entries, k, n).None?))
  }

  /** Reading entry `n`: it takes the live ids it is an ancestor of, which are those it is the first claimer of. */
  lemma ClaimStepShape(entries: seq<RouteEntry>, paths: seq<Result<Option<string>, RouteError>>, n: nat, st: FirstPass)
    requires n < |entries| == |paths| && UniqueIds(entries)
    requires Pass1Shape(entries, paths, n, st)
    requires Claim(st, entries[n].0, entries[n].1, paths[n]).Success?
    ensures Pass1Shape(entries, paths, n + 1, Claim(st, entries[n].0, entries[n].1, paths[n]).value)
  {
    var id := entries[n].0;
    var st' := Claim(st, id, entries[n].1, paths[n]).value;
    var children := Taken(st.live, id, ChildFilter(id));
    assert paths[n].Success? && id != "";
    var filed := st.manifest[id := Route(entries[n].1, id, EndsWith(id, "_index"), paths[n].value, None)];
    assert st' == FirstPass(SetParent(filed, children, id), st.live - children + {id});
    assert id !in children by {
      BoundaryChar(id, id);
    }
    assert forall x :: x in children <==> x in st.live && Boundary(id, x);
    forall k | 0 <= k < n
      ensures entries[k].0 in children <==> Claimer(entries, k, n + 1) == Some(n)
      ensures st'.manifest[entries[k].0] == Filed(entries, paths, k, n + 1)
      ensures entries[k].0 in st'.live <==> Claimer(entries, k, n + 1).None?
    {
      ClaimStepEarlier(entries, paths, n, st, children, st', k);
    }
  }

  /** Reading entry `n` leaves an earlier entry filed as before unless entry `n` is its first claimer. */
  lemma ClaimStepEarlier(entries: seq<RouteEntry>, paths: seq<Result<Option<string>, RouteError>>, n: nat, st: FirstPass,
                         children: set<string>, st': FirstPass, k: nat)
    requires n < |entries| == |paths| && UniqueIds(entries) && k < n
    requires Pass1Shape(entries, paths, n, st) && paths[n].Success?
    requires forall x :: x in children <==> x in st.live && Boundary(entries[n].0, x)
    requires st'.manifest == SetParent(st.manifest[entries[n].0 := Route(entries[n].1, entries[n].0,
               EndsWith(entries[n].0, "_index"), paths[n].value, None)], children, entries[n].0)
    requires st'.live == st.live - children + {entries[n].0}
    ensures entries[k].0 in children <==> Claimer(entries, k, n + 1) == Some(n)
    ensures st'.manifest[entries[k].0] == Filed(entries, paths, k, n + 1)
    ensures entries[k].0 in st'.live <==> Claimer(entries, k, n + 1).None?
  {
    var x := entries[k].0;
    assert x != entries[n].0;
    assert x in children <==> x in st.live && Boundary(entries[n].0, x);
  }

  /** Pass 1, when it succeeds on entries with distinct ids, is in the shape above. */
  lemma {:induction false} ClaimAllShape(entries: seq<RouteEntry>, paths: seq<Result<Option<string>, RouteError>>, n: nat)
    requires n <= |entries| == |paths| && UniqueIds(entries)
    requires ClaimAll(entries, paths, n).Success?
    ensures Pass1Shape(entries, paths, n, ClaimAll(entries, paths, n).value)
    decreases n
  {
    if n > 0 {
      var prev := ClaimAll(entries, paths, n - 1);
      assert prev.Success?;
      ClaimAllShape(entries, paths, n - 1);
      ClaimStepShape(entries, paths, n - 1, prev.value);
    }
  }

  /** Pass 1 throws exactly when some id's segments throw or some id is empty. */
  lemma {:induction false} ClaimAllSucceeds(entries: seq<RouteEntry>, paths: seq<Result<Option<string>, RouteError>>, n: nat)
    requires n <= |entries| == |paths|
    ensures ClaimAll(entries, paths, n).Success? <==>
      forall k :: 0 <= k < n ==> paths[k].Success? && entries[k].0 != ""
    decreases n
  {
    if n > 0 {
      ClaimAllSucceeds(entries, paths, n - 1);
      ClaimAllStep(entries, paths, n);
      ReadSplit(entries, paths, n);
    }
  }

  /** Every entry below `n` reads, exactly when every entry below `n - 1` does and entry `n - 1` does. */
  lemma ReadSplit(entries: seq<RouteEntry>, paths: seq<Result<Option<string>, RouteError>>, n: nat)
    requires 0 < n <= |entries| == |paths|
    ensures (forall k :: 0 <= k < n ==> paths[k].Success? && entries[k].0 != "") <==>
      (forall k :: 0 <= k < n - 1 ==> paths[k].Success? && entries[k].0 != "") &&
      paths[n - 1].Success? && entries[n - 1].0 != ""
  {
  }

  /** One step of pass 1 succeeds exactly when the steps before it did and entry `n - 1` reads. */
  lemma ClaimAllStep(entries: seq<RouteEntry>, paths: seq<Result<Option<string>, RouteError>>, n: nat)
    requires 0 < n <= |entries| == |paths|
    ensures ClaimAll(entries, paths, n).Success? <==>
      ClaimAll(entries, paths, n - 1).Success? && paths[n - 1].Success? && entries[n - 1].0 != ""
  {
    var prev := ClaimAll(entries, paths, n - 1);
    if prev.Success? {
      ClaimSucceeds(prev.value, entries[n - 1].0, entries[n - 1].1, paths[n - 1]);
    }
  }

  lemma ClaimSucceeds(st: FirstPass, id: string, file: string, segments: Result<Option<string>, RouteError>)
    ensures Claim(st, id, file, segments).Success? <==> segments.Success? && id != ""
  {
  }

  /** When the ids come longest first, the claimer is the longest ancestor; any other one is shorter. */
  lemma ClaimerIsLongest(entries: seq<RouteEntry>, k: nat)
    requires k < |entries| && UniqueIds(entries) && LongestFirst(entries)
    ensures var c := Claimer(entries, k, |entries|);
      c.None? ==> forall j :: 0 <= j < |entries| ==> !Boundary(entries[j].0, entries[k].0)
    ensures var c := Claimer(entries, k, |entries|);
      c.Some? ==> forall j :: 0 <= j < |entries| && j != c.value && Boundary(entries[j].0, entries[k].0) ==>
        |entries[j].0| < |entries[c.value].0|
  {
    var c := Claimer(entries, k, |entries|);
    var x := entries[k].0;
    ClaimerFirst(entries, k, |entries|);
    forall j | 0 <= j <= k ensures !Boundary(entries[j].0, x) {
      assert |entries[j].0| >= |x|;
      NoLongerAncestor(entries[j].0, x);
    }
    if c.Some? {
      var p := entries[c.value].0;
      forall j | c.value < j < |entries| && Boundary(entries[j].0, x) ensures |entries[j].0| < |p| {
        assert entries[j].0 != p && |entries[j].0| <= |p|;
        ShorterAncestor(entries[j].0, p, x);
      }
    }
  }

  /** An id is never an ancestor of one no longer than itself. */
  lemma NoLongerAncestor(a: string, x: string)
    requires |a| >= |x|
    ensures !Boundary(a, x)
  {
    BoundaryChar(a, x);
  }

  /** Two different ancestors of one id, the first no longer than the second, are strictly shorter. */
  lemma ShorterAncestor(a: string, p: string, x: string)
    requires Boundary(a, x) && Boundary(p, x) && a != p && |a| <= |p|
    ensures |a| < |p|
  {
    BoundaryChar(a, x);
    BoundaryChar(p, x);
    assert a == x[..|a|] && p == x[..|p|];
  }

  // ----- Pass 2 -----

  /** `originalPathname + (index ? "?index" : "")` of entry `k`. */
  function KeyAt(entries: seq<RouteEntry>, paths: seq<Result<Option<string>, RouteError>>, k: nat): string
    requires k < |entries| == |paths|
  {
    var p := PathOf(paths[k]);
    ConflictKey(if p.Some? then p.value else "", EndsWith(entries[k].0, "_index"))
  }

  /** Entry `k` has a path or is an index route, and an earlier entry had the same path and index flag. */
  predicate Collides(entries: seq<RouteEntry>, paths: seq<Result<Option<string>, RouteError>>, k: nat)
    requires k < |entries| == |paths|
  {
    KeyAt(entries, paths, k) != "" && exists j :: 0 <= j < k && KeyAt(entries, paths, j) == KeyAt(entries, paths, k)
  }

  /**
   * The route of entry `k` once the manifest is built: its parent is its claimer, or `root`; its
   * path is cut by the length of the claimer's path, one `/` is trimmed at each end, and an empty
   * path becomes `undefined`.
   */
  function Settled(entries: seq<RouteEntry>, paths: seq<Result<Option<string>, RouteError>>, k: nat): Route
    requires k < |entries| == |paths|
  {
    var c := Claimer(entries, k, |entries|);
    var parentPath := if c.Some? then PathOf(paths[c.value]) else None;
    var rel := RelativePath(PathOf(paths[k]), parentPath);
    Route(entries[k].1, entries[k].0, EndsWith(entries[k].0, "_index"),
          if Truthy(rel) then rel else None,
          Some(if c.Some? then entries[c.value].0 else "root"))
  }

  /** Every id was filed by pass 1. */
  ghost predicate AllFiled(entries: seq<RouteEntry>, paths: seq<Result<Option<string>, RouteError>>)
    requires |entries| == |paths|
  {
    forall k :: 0 <= k < |entries| ==> paths[k].Success? && entries[k].0 != ""
  }

  /** The ids of the colliding entries among the first `n`. */
  function CollidingIds(entries: seq<RouteEntry>, paths: seq<Result<Option<string>, RouteError>>, n: nat): set<string>
    requires n <= |entries| == |paths|
  {
    set k | 0 <= k < n && Collides(entries, paths, k) :: entries[k].0
  }

  /** The manifest during pass 2: the first `n` routes are settled, the others as pass 1 left them. */
  ghost predicate ManifestAt(entries: seq<RouteEntry>, paths: seq<Result<Option<string>, RouteError>>, n: nat, m: Manifest)
    requires n <= |entries| == |paths|
  {
    (forall k :: 0 <= k < |entries| ==> entries[k].0 in m) &&
    (forall k {:trigger m[entries[k].0]} :: 0 <= k < n ==> m[entries[k].0] == Settled(entries, paths, k)) &&
    (forall k {:trigger m[entries[k].0]} :: n <= k < |entries| ==> m[entries[k].0] == Filed(entries, paths, k, |entries|))
  }

  /** `uniqueRoutes` during pass 2: the keys of the first `n` routes. */
  ghost predicate UniqueAt(entries: seq<RouteEntry>, paths: seq<Result<Option<string>, RouteError>>, n: nat,
                           unique: map<string, RouteEntry>)
    requires n <= |entries| == |paths|
  {
    forall key :: key in unique <==> exists k :: 0 <= k < n && KeyAt(entries, paths, k) == key
  }

  /** `urlConflicts` during pass 2: its groups delete exactly the colliding routes so far. */
  ghost predicate GroupsAt(entries: seq<RouteEntry>, paths: seq<Result<Option<string>, RouteError>>, n: nat,
                           order: seq<string>, groups: map<string, seq<RouteEntry>>)
    requires n <= |entries| == |paths|
  {
    (forall o :: o in order <==> o in groups) &&
    (forall o :: o in groups ==> |groups[o]| >= 2) &&
    DeletedIds(order, groups) == CollidingIds(entries, paths, n) &&
    (order == [] <==> forall k :: 0 <= k < n ==> !Collides(entries, paths, k))
  }

  /** The state pass 2 is in after `n` entries. */
  ghost predicate Pass2Shape(entries: seq<RouteEntry>, paths: seq<Result<Option<string>, RouteError>>, n: nat, s: SecondPass)
    requires n <= |entries| == |paths|
  {
    ManifestAt(entries, paths, n, s.manifest) && UniqueAt(entries, paths, n, s.unique) &&
    GroupsAt(entries, paths, n, s.groupOrder, s.groups)
  }

  /** The route entry `n` becomes, read off the manifest pass 2 has reached. */
  lemma SettleRouteShape(entries: seq<RouteEntry>, paths: seq<Result<Option<string>, RouteError>>, n: nat, s: SecondPass)
    requires n < |entries| == |paths| && UniqueIds(entries) && AllFiled(entries, paths)
    requires ManifestAt(entries, paths, n, s.manifest)
    ensures Settle(s, entries[n].0).manifest == s.manifest[entries[n].0 := Settled(entries, paths, n)]
  {
    var route := s.manifest[entries[n].0];
    assert route == Filed(entries, paths, n, |entries|);
    SettleManifest(s, entries[n].0);
    SettleParentPath(entries, paths, n, s.manifest);
  }

  /** Pass 2 rewrites only the route it reads: its parent defaults to the root and its path becomes relative. */
  lemma SettleManifest(s: SecondPass, id: string)
    requires id in s.manifest
    ensures var route := s.manifest[id];
      var pathname := RelativePath(route.path, ParentPath(s.manifest, route));
      Settle(s, id).manifest == s.manifest[id := route.(parentId := if Truthy(route.parentId) then route.parentId else Some("root"),
                                                         path := if Truthy(pathname) then pathname else None)]
  {
    var route := s.manifest[id];
    var orig := OriginalPath(route);
    if ConflictKey(orig, route.index) in s.unique && (orig != "" || route.index) {
    } else {
    }
  }

  /** The parent path pass 2 sees for entry `n` is the path of its claimer, if any. */
  lemma SettleParentPath(entries: seq<RouteEntry>, paths: seq<Result<Option<string>, RouteError>>, n: nat, m: Manifest)
    requires n < |entries| == |paths| && UniqueIds(entries) && AllFiled(entries, paths)
    requires ManifestAt(entries, paths, n, m)
    ensures var c := Claimer(entries, n, |entries|);
      ParentPath(m, m[entries[n].0]) == if c.Some? then PathOf(paths[c.value]) else None
  {
    var route := m[entries[n].0];
    assert route == Filed(entries, paths, n, |entries|);
    var c := Claimer(entries, n, |entries|);
    if c.Some? {
      assert m[entries[c.value].0] == Filed(entries, paths, c.value, |entries|);
    }
  }

  lemma SettleManifestStep(entries: seq<RouteEntry>, paths: seq<Result<Option<string>, RouteError>>, n: nat, s: SecondPass)
    requires n < |entries| == |paths| && UniqueIds(entries) && AllFiled(entries, paths)
    requires ManifestAt(entries, paths, n, s.manifest)
    ensures ManifestAt(entries, paths, n + 1, Settle(s, entries[n].0).manifest)
  {
    SettleRouteShape(entries, paths, n, s);
    var m' := s.manifest[entries[n].0 := Settled(entries, paths, n)];
    forall k | 0 <= k < |entries| && k != n ensures m'[entries[k].0] == s.manifest[entries[k].0] {
      assert entries[k].0 != entries[n].0;
    }
  }

  /** The key of the route pass 2 reads for entry `n`, and whether it collides. */
  lemma SettleKey(entries: seq<RouteEntry>, paths: seq<Result<Option<string>, RouteError>>, n: nat, s: SecondPass)
    requires n < |entries| == |paths|
    requires ManifestAt(entries, paths, n, s.manifest) && UniqueAt(entries, paths, n, s.unique)
    ensures var route := s.manifest[entries[n].0];
      ConflictKey(OriginalPath(route), route.index) == KeyAt(entries, paths, n)
    ensures var route := s.manifest[entries[n].0];
      Collides(entries, paths, n) <==> KeyAt(entries, paths, n) in s.unique && (OriginalPath(route) != "" || route.index)
  {
    assert s.manifest[entries[n].0] == Filed(entries, paths, n, |entries|);
  }

  lemma SettleUniqueStep(entries: seq<RouteEntry>, paths: seq<Result<Option<string>, RouteError>>, n: nat, s: SecondPass)
    requires n < |entries| == |paths| && entries[n].0 in s.manifest
    requires UniqueAt(entries, paths, n, s.unique)
    requires var route := s.manifest[entries[n].0]; ConflictKey(OriginalPath(route), route.index) == KeyAt(entries, paths, n)
    ensures UniqueAt(entries, paths, n + 1, Settle(s, entries[n].0).unique)
  {
    var route := s.manifest[entries[n].0];
    assert Settle(s, entries[n].0).unique == s.unique[KeyAt(entries, paths, n) := (entries[n].0, route.file)];
  }

  /** `TailIds` of a longer group gains the new id. */
  lemma TailIdsAppend(group: seq<RouteEntry>, e: RouteEntry)
    requires |group| >= 1
    ensures TailIds(group + [e]) == TailIds(group) + {e.0}
  {
    var g := group + [e];
    assert g[|group|] == e;
    forall x | x in TailIds(g) ensures x in TailIds(group) + {e.0} {
      var k :| 1 <= k < |g| && g[k].0 == x;
      if k < |group| {
        assert group[k] == g[k];
      }
    }
    forall x | x in TailIds(group) ensures x in TailIds(g) {
      var k :| 1 <= k < |group| && group[k].0 == x;
      assert g[k] == group[k];
    }
  }

  /** `DeletedIds` reads only the groups it lists. */
  lemma {:induction false} DeletedIdsFrame(order: seq<string>, g1: map<string, seq<RouteEntry>>, g2: map<string, seq<RouteEntry>>)
    requires forall o :: o in order ==> o in g1 && o in g2 && g1[o] == g2[o]
    ensures DeletedIds(order, g1) == DeletedIds(order, g2)
    decreases |order|
  {
    if order != [] {
      DeletedIdsFrame(order[..|order| - 1], g1, g2);
    }
  }

  /** A route appended to a listed group is deleted along with the rest. */
  lemma {:induction false} DeletedIdsAppend(order: seq<string>, groups: map<string, seq<RouteEntry>>, o: string, e: RouteEntry)
    requires forall q :: q in order ==> q in groups
    requires o in order && |groups[o]| >= 1
    ensures DeletedIds(order, groups[o := groups[o] + [e]]) == DeletedIds(order, groups) + {e.0}
    decreases |order|
  {
    var groups' := groups[o := groups[o] + [e]];
    var last := order[|order| - 1];
    var init := order[..|order| - 1];
    assert forall q :: q in init ==> q in order;
    TailIdsAppend(groups[o], e);
    if o in init {
      DeletedIdsAppend(init, groups, o, e);
    } else {
      DeletedIdsFrame(init, groups, groups');
      assert last == o;
    }
  }

  /** One more entry in the colliding ids. */
  lemma CollidingIdsStep(entries: seq<RouteEntry>, paths: seq<Result<Option<string>, RouteError>>, n: nat)
    requires n < |entries| == |paths|
    ensures CollidingIds(entries, paths, n + 1)
         == CollidingIds(entries, paths, n) + (if Collides(entries, paths, n) then {entries[n].0} else {})
  {
  }

  /** A colliding route joins the open group of its path. */
  lemma GroupsJoin(entries: seq<RouteEntry>, paths: seq<Result<Option<string>, RouteError>>, n: nat,
                   order: seq<string>, groups: map<string, seq<RouteEntry>>, orig: string, e: RouteEntry)
    requires n < |entries| == |paths| && e.0 == entries[n].0
    requires GroupsAt(entries, paths, n, order, groups) && orig in groups && Collides(entries, paths, n)
    ensures GroupsAt(entries, paths, n + 1, order, groups[orig := groups[orig] + [e]])
  {
    CollidingIdsStep(entries, paths, n);
    DeletedIdsAppend(order, groups, orig, e);
  }

  /** A colliding route whose path has no group yet opens one, after the route it collides with. */
  lemma GroupsOpen(entries: seq<RouteEntry>, paths: seq<Result<Option<string>, RouteError>>, n: nat,
                   order: seq<string>, groups: map<string, seq<RouteEntry>>, orig: string, head: RouteEntry, e: RouteEntry)
    requires n < |entries| == |paths| && e.0 == entries[n].0
    requires GroupsAt(entries, paths, n, order, groups) && orig !in groups && Collides(entries, paths, n)
    ensures GroupsAt(entries, paths, n + 1, order + [orig], groups[orig := [head] + [e]])
  {
    var order', groups' := order + [orig], groups[orig := [head] + [e]];
    CollidingIdsStep(entries, paths, n);
    DeletedIdsOpen(order, groups, orig, head, e);
    forall o ensures o in order' <==> o in groups' {
      assert o in order' <==> o in order || o == orig;
    }
    forall o | o in groups' ensures |groups'[o]| >= 2 {
      if o != orig {
        assert o in groups;
      }
    }
    assert order'[|order|] == orig;
  }

  /** A group opened for a new path deletes its second route. */
  lemma DeletedIdsOpen(order: seq<string>, groups: map<string, seq<RouteEntry>>, orig: string, head: RouteEntry, e: RouteEntry)
    requires forall q :: q in order ==> q in groups
    requires orig !in groups
    ensures DeletedIds(order + [orig], groups[orig := [head] + [e]]) == DeletedIds(order, groups) + {e.0}
  {
    var groups' := groups[orig := [head] + [e]];
    DeletedIdsFrame(order, groups, groups');
    assert (order + [orig])[..|order|] == order;
    TailIdsPair(head, e);
  }

  /** A route that does not collide leaves the groups alone. */
  lemma GroupsKeep(entries: seq<RouteEntry>, paths: seq<Result<Option<string>, RouteError>>, n: nat,
                   order: seq<string>, groups: map<string, seq<RouteEntry>>)
    requires n < |entries| == |paths|
    requires GroupsAt(entries, paths, n, order, groups) && !Collides(entries, paths, n)
    ensures GroupsAt(entries, paths, n + 1, order, groups)
  {
    CollidingIdsStep(entries, paths, n);
  }

  /** The groups after entry `n`: a colliding route joins the group of its path, opened when missing. */
  lemma SettleGroupsStep(entries: seq<RouteEntry>, paths: seq<Result<Option<string>, RouteError>>, n: nat, s: SecondPass)
    requires n < |entries| == |paths| && entries[n].0 in s.manifest
    requires GroupsAt(entries, paths, n, s.groupOrder, s.groups)
    requires var route := s.manifest[entries[n].0]; ConflictKey(OriginalPath(route), route.index) == KeyAt(entries, paths, n)
    requires var route := s.manifest[entries[n].0];
      Collides(entries, paths, n) <==> KeyAt(entries, paths, n) in s.unique && (OriginalPath(route) != "" || route.index)
    ensures var s' := Settle(s, entries[n].0); GroupsAt(entries, paths, n + 1, s'.groupOrder, s'.groups)
  {
    var id := entries[n].0;
    var route := s.manifest[id];
    var key := KeyAt(entries, paths, n);
    var orig := OriginalPath(route);
    var e := (id, route.file);
    if Collides(entries, paths, n) {
      if orig in s.groups {
        assert Settle(s, id).groups == s.groups[orig := s.groups[orig] + [e]];
        GroupsJoin(entries, paths, n, s.groupOrder, s.groups, orig, e);
      } else {
        assert Settle(s, id).groups == s.groups[orig := [s.unique[key]] + [e]];
        GroupsOpen(entries, paths, n, s.groupOrder, s.groups, orig, s.unique[key], e);
      }
    } else {
      GroupsKeep(entries, paths, n, s.groupOrder, s.groups);
    }
  }

  lemma TailIdsPair(a: RouteEntry, e: RouteEntry)
    ensures TailIds([a] + [e]) == {e.0}
  {
    assert ([a] + [e])[1] == e;
  }

  /** Reading entry `n` in pass 2 keeps the shape. */
  lemma SettleStepShape(entries: seq<RouteEntry>, paths: seq<Result<Option<string>, RouteError>>, n: nat, s: SecondPass)
    requires n < |entries| == |paths| && UniqueIds(entries) && AllFiled(entries, paths)
    requires Pass2Shape(entries, paths, n, s)
    ensures Pass2Shape(entries, paths, n + 1, Settle(s, entries[n].0))
  {
    SettleManifestStep(entries, paths, n, s);
    SettleKey(entries, paths, n, s);
    SettleUniqueStep(entries, paths, n, s);
    SettleGroupsStep(entries, paths, n, s);
  }

  /** Pass 2 over entries with distinct ids that pass 1 all filed. */
  lemma {:induction false} SettleAllShape(entries: seq<RouteEntry>, paths: seq<Result<Option<string>, RouteError>>, n: nat, start: Manifest)
    requires n <= |entries| == |paths| && UniqueIds(entries) && AllFiled(entries, paths)
    requires ManifestAt(entries, paths, 0, start)
    ensures Pass2Shape(entries, paths, n, SettleAll(entries, n, start))
    decreases n, 0
  {
    if n > 0 {
      SettleAllStep(entries, paths, n - 1, start);
    } else {
      SettleStartShape(entries, paths, start);
    }
  }

  /** The induction step of `SettleAllShape`: the shape after `n` entries carries over to `n + 1`. */
  lemma {:induction false} SettleAllStep(entries: seq<RouteEntry>, paths: seq<Result<Option<string>, RouteError>>, n: nat, start: Manifest)
    requires n < |entries| == |paths| && UniqueIds(entries) && AllFiled(entries, paths)
    requires ManifestAt(entries, paths, 0, start)
    ensures Pass2Shape(entries, paths, n + 1, SettleAll(entries, n + 1, start))
    decreases n, 1
  {
    SettleAllShape(entries, paths, n, start);
    SettleStepShape(entries, paths, n, SettleAll(entries, n, start));
  }

  lemma SettleStartShape(entries: seq<RouteEntry>, paths: seq<Result<Option<string>, RouteError>>, start: Manifest)
    requires |entries| == |paths|
    requires ManifestAt(entries, paths, 0, start)
    ensures Pass2Shape(entries, paths, 0, SecondPass(start, map[], [], map[]))
  {
    assert DeletedIds([], map[]) == {};
    assert CollidingIds(entries, paths, 0) == {};
  }

  /** Pass 1 files nothing but the ids it reads. */
  lemma {:induction false} ClaimAllKeys(entries: seq<RouteEntry>, paths: seq<Result<Option<string>, RouteError>>, n: nat)
    requires n <= |entries| == |paths|
    requires ClaimAll(entries, paths, n).Success?
    ensures forall id :: id in ClaimAll(entries, paths, n).value.manifest ==> exists k :: 0 <= k < n && entries[k].0 == id
    decreases n
  {
    if n > 0 {
      var prev := ClaimAll(entries, paths, n - 1);
      assert prev.Success?;
      ClaimAllKeys(entries, paths, n - 1);
      var last := entries[n - 1].0;
      assert ClaimAll(entries, paths, n) == Claim(prev.value, last, entries[n - 1].1, paths[n - 1]);
      ClaimKeys(prev.value, last, entries[n - 1].1, paths[n - 1]);
      forall id | id in ClaimAll(entries, paths, n).value.manifest ensures exists k :: 0 <= k < n && entries[k].0 == id {
        if id != last {
          assert id in prev.value.manifest;
          var k :| 0 <= k < n - 1 && entries[k].0 == id;
          assert entries[k].0 == id;
        }
      }
    }
  }

  lemma ClaimKeys(st: FirstPass, id: string, file: string, segments: Result<Option<string>, RouteError>)
    requires Claim(st, id, file, segments).Success?
    ensures Claim(st, id, file, segments).value.manifest.Keys == st.manifest.Keys + {id}
  {
  }

  /** The manifest and the reports are what pass 2 leaves, with the colliding routes deleted. */
  lemma Built(entries: seq<RouteEntry>) returns (sp: SecondPass)
    requires UniqueIds(entries) && RouteManifest(entries).Success?
    ensures AllFiled(entries, SegmentsOf(entries))
    ensures ClaimAll(entries, SegmentsOf(entries), |entries|).Success?
    ensures var start := ClaimAll(entries, SegmentsOf(entries), |entries|).value.manifest;
      ManifestAt(entries, SegmentsOf(entries), 0, start) && sp == SettleAll(entries, |entries|, start)
    ensures Pass2Shape(entries, SegmentsOf(entries), |entries|, sp)
    ensures forall id :: id in sp.manifest ==> exists k :: 0 <= k < |entries| && entries[k].0 == id
    ensures RouteManifest(entries).value
         == (sp.manifest - CollidingIds(entries, SegmentsOf(entries), |entries|), PathReports(sp.groupOrder, sp.groups))
  {
    var paths := SegmentsOf(entries);
    var n := |entries|;
    var first := ClaimAll(entries, paths, n);
    assert first.Success?;
    ClaimAllShape(entries, paths, n);
    ClaimAllSucceeds(entries, paths, n);
    ClaimAllKeys(entries, paths, n);
    var start := first.value.manifest;
    SettleAllShape(entries, paths, n, start);
    sp := SettleAll(entries, n, start);
  }

  /**
   * The manifest `getRouteManifest` builds from pairs with distinct ids holds exactly the routes
   * that do not collide with an earlier one, each settled as `Settled` says, and nothing else.
   */
  lemma RouteManifestShape(entries: seq<RouteEntry>)
    requires UniqueIds(entries) && RouteManifest(entries).Success?
    ensures var paths := SegmentsOf(entries);
      var final := RouteManifest(entries).value.0;
      (forall k :: 0 <= k < |entries| ==> (entries[k].0 in final <==> !Collides(entries, paths, k))) &&
      (forall k :: 0 <= k < |entries| && !Collides(entries, paths, k) ==> final[entries[k].0] == Settled(entries, paths, k)) &&
      (forall id :: id in final ==> exists k :: 0 <= k < |entries| && entries[k].0 == id)
  {
    var paths := SegmentsOf(entries);
    var n := |entries|;
    var sp := Built(entries);
    forall k | 0 <= k < n ensures entries[k].0 in CollidingIds(entries, paths, n) <==> Collides(entries, paths, k) {
      if entries[k].0 in CollidingIds(entries, paths, n) {
        var j :| 0 <= j < n && Collides(entries, paths, j) && entries[j].0 == entries[k].0;
        assert j == k;
      }
    }
  }

  /** There is a path-collision report exactly when some route collides with an earlier one. */
  lemma PathReportsIffCollision(entries: seq<RouteEntry>)
    requires UniqueIds(entries) && RouteManifest(entries).Success?
    ensures RouteManifest(entries).value.1 == [] <==> forall k :: 0 <= k < |entries| ==> !Collides(entries, SegmentsOf(entries), k)
  {
    var sp := Built(entries);
  }

  /** Pass 1, and so the whole build, throws exactly when some id is empty or its segments throw. */
  lemma RouteManifestSucceeds(entries: seq<RouteEntry>)
    ensures RouteManifest(entries).Success? <==>
      forall k :: 0 <= k < |entries| ==> RouteSegments(entries[k].0).Success? && entries[k].0 != ""
  {
    ClaimAllSucceeds(entries, SegmentsOf(entries), |entries|);
  }

  /**
   * Every route of the manifest carries its own id, and its parent is `root` when no id among
   * the entries is an ancestor of its own, and otherwise an ancestor id at least as long as any other.
   */
  ghost predicate ParentsAreLongestAncestors(entries: seq<RouteEntry>, final: Manifest) {
    forall id :: id in final ==> (
      final[id].id == id && final[id].parentId.Some? &&
      ((forall j :: 0 <= j < |entries| ==> !Boundary(entries[j].0, id)) ==> final[id].parentId.value == "root") &&
      (forall j :: 0 <= j < |entries| && Boundary(entries[j].0, id) ==>
        exists c :: 0 <= c < |entries| && entries[c].0 == final[id].parentId.value &&
          Boundary(entries[c].0, id) && |entries[j].0| <= |entries[c].0|))
  }

  /** With distinct ids given longest first, each route's parent is its longest ancestor, or `root`. */
  lemma ParentIsLongestAncestor(entries: seq<RouteEntry>)
    requires UniqueIds(entries) && LongestFirst(entries) && RouteManifest(entries).Success?
    ensures ParentsAreLongestAncestors(entries, RouteManifest(entries).value.0)
  {
    var paths := SegmentsOf(entries);
    var final := RouteManifest(entries).value.0;
    RouteManifestShape(entries);
    forall id | id in final
      ensures final[id].id == id && final[id].parentId.Some?
      ensures (forall j :: 0 <= j < |entries| ==> !Boundary(entries[j].0, id)) ==> final[id].parentId.value == "root"
      ensures forall j :: 0 <= j < |entries| && Boundary(entries[j].0, id) ==>
        exists c :: 0 <= c < |entries| && entries[c].0 == final[id].parentId.value &&
          Boundary(entries[c].0, id) && |entries[j].0| <= |entries[c].0|
    {
      var k :| 0 <= k < |entries| && entries[k].0 == id;
      SettledParent(entries, paths, k);
    }
  }

  /** The settled route of entry `k` names its claimer as parent, which is its longest ancestor. */
  lemma SettledParent(entries: seq<RouteEntry>, paths: seq<Result<Option<string>, RouteError>>, k: nat)
    requires k < |entries| == |paths| && UniqueIds(entries) && LongestFirst(entries)
    ensures var r := Settled(entries, paths, k); var x := entries[k].0;
      r.id == x && r.parentId.Some? &&
      ((forall j :: 0 <= j < |entries| ==> !Boundary(entries[j].0, x)) ==> r.parentId.value == "root") &&
      (forall j :: 0 <= j < |entries| && Boundary(entries[j].0, x) ==>
        exists c :: 0 <= c < |entries| && entries[c].0 == r.parentId.value &&
          Boundary(entries[c].0, x) && |entries[j].0| <= |entries[c].0|)
  {
    var c := Claimer(entries, k, |entries|);
    ClaimerIsLongest(entries, k);
    ClaimerFirst(entries, k, |entries|);
    if c.Some? {
      var x := entries[k].0;
      forall j | 0 <= j < |entries| && Boundary(entries[j].0, x)
        ensures exists c' :: (0 <= c' < |entries| && entries[c'].0 == entries[c.value].0 &&
                              Boundary(entries[c'].0, x) && |entries[j].0| <= |entries[c'].0|)
      {
        assert entries[c.value].0 == entries[c.value].0;
      }
    }
  }
}
