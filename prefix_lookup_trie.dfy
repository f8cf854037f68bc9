/**
 * PrefixLookupTrie.js: a character trie whose nodes carry a "live" mark. `Add` marks a string,
 * `FindAndRemove` collects and un-marks the live strings below a prefix that a filter accepts.
 * Marks are cleared but nodes are never deleted, so the structure only grows.
 */
module PrefixTrie {
  import opened JsString

  /** Every prefix of `value`, from "" to `value` itself: the paths `Add(value)` makes sure exist. */
  function Prefixes(value: string): (ps: set<string>)
    ensures forall p :: p in ps <==> StartsWith(value, p)
  {
    set k | 0 <= k <= |value| :: value[..k]
  }

  /**
   * No earlier string is a prefix of a later one. This says that each string appears once, and
   * that a string comes after every longer string that extends it (a post-order traversal).
   */
  predicate PostOrder(values: seq<string>) {
    forall i, j :: 0 <= i < j < |values| ==> !StartsWith(values[j], values[i])
  }

  /** `q` lies strictly below `prefix`, in the subtree of one of the children `cs`. */
  predicate BelowChildren(prefix: string, cs: set<char>, q: string) {
    |q| > |prefix| && q[..|prefix|] == prefix && q[|prefix|] in cs
  }

  lemma PostOrderAppend(a: seq<string>, b: seq<string>)
    requires PostOrder(a) && PostOrder(b)
    requires forall x, y :: x in a && y in b ==> !StartsWith(y, x)
    ensures PostOrder(a + b)
  {
    forall i, j | 0 <= i < j < |a + b|
      ensures !StartsWith((a + b)[j], (a + b)[i])
    {
      if j < |a| {
        assert (a + b)[i] == a[i] && (a + b)[j] == a[j];
      } else if i >= |a| {
        assert (a + b)[i] == b[i - |a|] && (a + b)[j] == b[j - |a|];
      } else {
        assert (a + b)[i] == a[i] && (a + b)[j] == b[j - |a|];
      }
    }
  }

  lemma PrefixesSnoc(value: string, i: nat)
    requires i < |value|
    ensures Prefixes(value[..i + 1]) == Prefixes(value[..i]) + {value[..i + 1]}
  {
    forall q ensures q in Prefixes(value[..i + 1]) <==> q in Prefixes(value[..i]) || q == value[..i + 1] {
      if StartsWith(value[..i + 1], q) && q != value[..i + 1] {
        assert q == value[..i + 1][..|q|] == value[..i][..|q|];
      }
    }
  }


  /** The live strings that `findAndRemove(prefix, filter)` collects: those under `prefix` that `filter` accepts. */
  function Taken(marked: set<string>, prefix: string, filter: string -> bool): set<string> {
    set x | x in marked && StartsWith(x, prefix) && filter(x)
  }

  /** The part of `Taken` that lies under the children `cs` of `prefix`. */
  function TakenBelow(marked: set<string>, prefix: string, cs: set<char>, filter: string -> bool): set<string> {
    set x | x in marked && BelowChildren(prefix, cs, x) && filter(x)
  }

  /** Visiting one more child `c` collects exactly what lies under `prefix + [c]`, which nothing before did. */
  lemma TakenBelowStep(marked: set<string>, prefix: string, cs: set<char>, c: char, filter: string -> bool)
    requires c !in cs
    ensures TakenBelow(marked, prefix, cs + {c}, filter)
         == TakenBelow(marked, prefix, cs, filter) + Taken(marked, prefix + [c], filter)
    ensures TakenBelow(marked, prefix, cs, filter) !! Taken(marked, prefix + [c], filter)
    ensures Taken(marked - TakenBelow(marked, prefix, cs, filter), prefix + [c], filter) == Taken(marked, prefix + [c], filter)
  {
    forall x ensures BelowChildren(prefix, {c}, x) <==> StartsWith(x, prefix + [c]) {
      if BelowChildren(prefix, {c}, x) {
        assert x[..|prefix| + 1] == x[..|prefix|] + [x[|prefix|]];
      }
      if StartsWith(x, prefix + [c]) {
        assert x[..|prefix|] == (prefix + [c])[..|prefix|];
      }
    }
  }

  /**
   * Once every child under which a live string below `prefix` can lie has been visited, what is
   * left to collect is `prefix` itself.
   */
  lemma TakenSplit(marked: set<string>, prefix: string, cs: set<char>, filter: string -> bool)
    requires forall x :: x in marked && StartsWith(x, prefix) && x != prefix ==> x[|prefix|] in cs
    ensures Taken(marked, prefix, filter)
         == TakenBelow(marked, prefix, cs, filter) + (if prefix in marked && filter(prefix) then {prefix} else {})
  {
    forall x | x in Taken(marked, prefix, filter) && x != prefix
      ensures x in TakenBelow(marked, prefix, cs, filter)
    {
      assert x[..|x|] == x;
    }
  }

  /** `m` keeps every entry of `m0` and adds exactly the prefixes of `s` it lacked. */
  ghost predicate GrownAlong(m0: map<string, nat>, m: map<string, nat>, s: string) {
    m.Keys == m0.Keys + Prefixes(s) &&
    forall p :: p in m0 ==> p in m && m[p] == m0[p]
  }

  lemma GrownAlongStep(m0: map<string, nat>, m: map<string, nat>, value: string, i: nat, next: nat)
    requires i < |value| && GrownAlong(m0, m, value[..i])
    requires value[..i + 1] in m ==> m[value[..i + 1]] == next
    ensures GrownAlong(m0, m[value[..i + 1] := next], value[..i + 1])
  {
    PrefixesSnoc(value, i);
  }

  /**
   * One trie node: the live mark (`PrefixLookupTrieEndSymbol`) and the children by character. The
   * nodes live in a table and a child is named by its index there.
   */
  datatype Node = Node(end: bool, children: map<char, nat>)

  /** The index of `root` in the node table. */
  const Root: nat := 0

  /**
   * The paths form a tree: node `k` sits at path `paths[k]` and back, the root at "", the paths
   * are closed under prefixes and no longer than `depth`.
   */
  ghost predicate PathTree(paths: seq<string>, nodeAt: map<string, nat>, depth: nat) {
    "" in nodeAt && nodeAt[""] == Root &&
    (forall p :: p in nodeAt ==> nodeAt[p] < |paths| && paths[nodeAt[p]] == p) &&
    (forall k :: 0 <= k < |paths| ==> paths[k] in nodeAt && nodeAt[paths[k]] == k && |paths[k]| <= depth) &&
    (forall p, q :: p in nodeAt && StartsWith(p, q) ==> q in nodeAt)
  }

  /**
   * A node has a child under `c` exactly when its path extended by `c` exists, and then that
   * child is the node at the extended path.
   */
  ghost predicate Linked(nodes: seq<Node>, paths: seq<string>, nodeAt: map<string, nat>) {
    |nodes| == |paths| &&
    (forall k, c :: 0 <= k < |nodes| ==> (c in nodes[k].children <==> paths[k] + [c] in nodeAt)) &&
    (forall k, c :: 0 <= k < |nodes| && c in nodes[k].children ==> nodes[k].children[c] == nodeAt[paths[k] + [c]])
  }

  /** The node table is a tree over the paths `paths`. */
  ghost predicate Tree(nodes: seq<Node>, paths: seq<string>, nodeAt: map<string, nat>, depth: nat) {
    PathTree(paths, nodeAt, depth) && Linked(nodes, paths, nodeAt)
  }

  /** Adding the missing path `p + [c]` as a new last node keeps the path tree... */
  lemma ExtendPathTree(paths: seq<string>, nodeAt: map<string, nat>, depth: nat, p: string, c: char)
    requires PathTree(paths, nodeAt, depth) && p in nodeAt && p + [c] !in nodeAt
    ensures PathTree(paths + [p + [c]], nodeAt[p + [c] := |paths|], if depth < |p| + 1 then |p| + 1 else depth)
  {
    var paths' := paths + [p + [c]];
    var nodeAt' := nodeAt[p + [c] := |paths|];
    var depth' := if depth < |p| + 1 then |p| + 1 else depth;
    forall q | q in nodeAt' ensures nodeAt'[q] < |paths'| && paths'[nodeAt'[q]] == q {
    }
    forall j | 0 <= j < |paths'| ensures paths'[j] in nodeAt' && nodeAt'[paths'[j]] == j && |paths'[j]| <= depth' {
    }
    forall q, r | q in nodeAt' && StartsWith(q, r) ensures r in nodeAt' {
      if q == p + [c] && r != q {
        assert StartsWith(p, r) by {
          assert r == q[..|r|];
          assert q[..|r|] == p[..|r|];
        }
      }
    }
  }

  /** ... and, with the new node appended as child `c` of the node at `p`, the links. */
  lemma ExtendLinked(nodes: seq<Node>, paths: seq<string>, nodeAt: map<string, nat>, depth: nat, p: string, c: char)
    requires Tree(nodes, paths, nodeAt, depth) && p in nodeAt && p + [c] !in nodeAt
    ensures Linked(nodes[nodeAt[p] := nodes[nodeAt[p]].(children := nodes[nodeAt[p]].children[c := |nodes|])]
                     + [Node(false, map[])],
                   paths + [p + [c]], nodeAt[p + [c] := |nodes|])
  {
    ExtendChildKeys(nodes, paths, nodeAt, depth, p, c);
    ExtendChildValues(nodes, paths, nodeAt, depth, p, c);
  }

  lemma ExtendChildKeys(nodes: seq<Node>, paths: seq<string>, nodeAt: map<string, nat>, depth: nat, p: string, c: char)
    requires Tree(nodes, paths, nodeAt, depth) && p in nodeAt && p + [c] !in nodeAt
    ensures var nodes' := nodes[nodeAt[p] := nodes[nodeAt[p]].(children := nodes[nodeAt[p]].children[c := |nodes|])]
                          + [Node(false, map[])];
            var paths' := paths + [p + [c]];
            forall j, d :: 0 <= j < |nodes'| ==> (d in nodes'[j].children <==> paths'[j] + [d] in nodeAt[p + [c] := |nodes|])
  {
    var k := nodeAt[p];
    var nodes' := nodes[k := nodes[k].(children := nodes[k].children[c := |nodes|])] + [Node(false, map[])];
    var paths' := paths + [p + [c]];
    var nodeAt' := nodeAt[p + [c] := |nodes|];
    forall j, d | 0 <= j < |nodes'| ensures d in nodes'[j].children <==> paths'[j] + [d] in nodeAt' {
      if j < |nodes| {
        SnocEq(paths[j], d, p, c);
      } else {
        NoChildYet(paths, nodeAt, depth, p + [c], d, |nodes|);
      }
    }
  }

  /** A path not in the tree has no extension in it, even once the path itself is added. */
  lemma NoChildYet(paths: seq<string>, nodeAt: map<string, nat>, depth: nat, q: string, d: char, n: nat)
    requires PathTree(paths, nodeAt, depth) && q !in nodeAt
    ensures q + [d] !in nodeAt[q := n]
  {
    assert StartsWith(q + [d], q) by {
      assert (q + [d])[..|q|] == q;
    }
  }

  /** Two strings extended by one character each are equal exactly when both parts are. */
  lemma SnocEq(a: string, d: char, b: string, c: char)
    ensures a + [d] == b + [c] <==> a == b && d == c
  {
    if a + [d] == b + [c] {
      assert a == (a + [d])[..|a|] && b == (b + [c])[..|b|];
      assert d == (a + [d])[|a|] && c == (b + [c])[|b|];
    }
  }

  lemma ExtendChildValues(nodes: seq<Node>, paths: seq<string>, nodeAt: map<string, nat>, depth: nat, p: string, c: char)
    requires Tree(nodes, paths, nodeAt, depth) && p in nodeAt && p + [c] !in nodeAt
    ensures var nodes' := nodes[nodeAt[p] := nodes[nodeAt[p]].(children := nodes[nodeAt[p]].children[c := |nodes|])]
                          + [Node(false, map[])];
            var paths' := paths + [p + [c]];
            forall j, d :: 0 <= j < |nodes'| && d in nodes'[j].children ==>
              nodes'[j].children[d] == nodeAt[p + [c] := |nodes|][paths'[j] + [d]]
  {
    var k := nodeAt[p];
    var nodes' := nodes[k := nodes[k].(children := nodes[k].children[c := |nodes|])] + [Node(false, map[])];
    var paths' := paths + [p + [c]];
    var nodeAt' := nodeAt[p + [c] := |nodes|];
    forall j, d | 0 <= j < |nodes'| && d in nodes'[j].children
      ensures nodes'[j].children[d] == nodeAt'[paths'[j] + [d]]
    {
      assert (paths[j] + [d])[..|paths[j]|] == paths[j];
      assert (p + [c])[..|p|] == p;
    }
  }

  /** The paths whose node carries the live mark. */
  ghost function MarkedOf(nodes: seq<Node>, nodeAt: map<string, nat>): set<string> {
    set p | p in nodeAt && nodeAt[p] < |nodes| && nodes[nodeAt[p]].end
  }

  /** ... and, the new node being unmarked, leaves the live strings alone. */
  lemma ExtendMarked(nodes: seq<Node>, paths: seq<string>, nodeAt: map<string, nat>, depth: nat, p: string, c: char)
    requires Tree(nodes, paths, nodeAt, depth) && p in nodeAt && p + [c] !in nodeAt
    ensures MarkedOf(nodes[nodeAt[p] := nodes[nodeAt[p]].(children := nodes[nodeAt[p]].children[c := |nodes|])]
                       + [Node(false, map[])], nodeAt[p + [c] := |nodes|])
         == MarkedOf(nodes, nodeAt)
  {
  }

  /** Setting or clearing the live mark of node `k` keeps the tree and marks or un-marks just its path. */
  lemma SetEndTree(nodes: seq<Node>, paths: seq<string>, nodeAt: map<string, nat>, depth: nat, k: nat, b: bool)
    requires Tree(nodes, paths, nodeAt, depth) && k < |nodes|
    ensures Tree(nodes[k := nodes[k].(end := b)], paths, nodeAt, depth)
    ensures MarkedOf(nodes[k := nodes[k].(end := b)], nodeAt)
         == if b then MarkedOf(nodes, nodeAt) + {paths[k]} else MarkedOf(nodes, nodeAt) - {paths[k]}
  {
    var nodes' := nodes[k := nodes[k].(end := b)];
    forall j | 0 <= j < |nodes'| ensures nodes'[j].children == nodes[j].children {
    }
    forall p | p in nodeAt
      ensures p in MarkedOf(nodes', nodeAt) <==> if p == paths[k] then b else p in MarkedOf(nodes, nodeAt)
    {
    }
  }

  class PrefixLookupTrie {
    /** The node table; `nodes[Root]` is `root`. */
    var nodes: seq<Node>

    /** The path from the root to each node, and back: the node reached along each path. */
    ghost var Paths: seq<string>
    ghost var NodeAt: map<string, nat>
    /** An upper bound on the length of every path, which bounds the recursion of the traversal. */
    ghost var Depth: nat

    ghost predicate Valid()
      reads this
    {
      Tree(nodes, Paths, NodeAt, Depth)
    }

    /** The strings currently marked live. */
    ghost function Marked(): set<string>
      reads this
      requires Valid()
    {
      MarkedOf(nodes, NodeAt)
    }

    constructor ()
      ensures Valid()
      ensures NodeAt.Keys == {""} && Marked() == {}
    {
      nodes := [Node(false, map[])];
      Paths := [""];
      NodeAt := map["" := Root];
      Depth := 0;
      new;
      forall k, c | 0 <= k < |nodes| ensures Paths[k] + [c] !in NodeAt {
        assert |Paths[k] + [c]| == 1;
      }
    }

    /**
     * One step of `add`'s walk: moves from the node at path `p` to its child `c`, creating that
     * child, unmarked, when it is missing (`if (!node[char]) node[char] = {...}`).
     */
    method Descend(node: nat, ghost p: string, c: char) returns (next: nat)
      requires Valid() && p in NodeAt && NodeAt[p] == node
      modifies this
      ensures Valid()
      ensures NodeAt == old(NodeAt)[p + [c] := next] && Marked() == old(Marked())
      ensures p + [c] in old(NodeAt) ==> next == old(NodeAt)[p + [c]] && nodes == old(nodes) && Paths == old(Paths) && Depth == old(Depth)
      ensures p + [c] !in old(NodeAt) ==>
        next == |old(nodes)| &&
        nodes == old(nodes)[node := old(nodes)[node].(children := old(nodes)[node].children[c := next])]
                 + [Node(false, map[])] &&
        Paths == old(Paths) + [p + [c]] &&
        Depth == if old(Depth) < |p| + 1 then |p| + 1 else old(Depth)
    {
      if c in nodes[node].children {
        next := nodes[node].children[c];
        return;
      }
      ExtendPathTree(Paths, NodeAt, Depth, p, c);
      ExtendLinked(nodes, Paths, NodeAt, Depth, p, c);
      ExtendMarked(nodes, Paths, NodeAt, Depth, p, c);
      next := |nodes|;
      nodes := nodes[node := nodes[node].(children := nodes[node].children[c := next])] + [Node(false, map[])];
      Paths := Paths + [p + [c]];
      NodeAt := NodeAt[p + [c] := next];
      if Depth < |p| + 1 {
        Depth := |p| + 1;
      }
    }
    /** `add`'s walk: follows `value` from the root, creating the missing nodes, and returns the last one. */
    method Walk(value: string) returns (node: nat)
      requires Valid()
      modifies this
      ensures Valid() && value in NodeAt && NodeAt[value] == node
      ensures NodeAt.Keys == old(NodeAt.Keys) + Prefixes(value)
      ensures forall p :: p in old(NodeAt) ==> NodeAt[p] == old(NodeAt[p])
      ensures Marked() == old(Marked())
    {
      ghost var initial := NodeAt;
      node := Root;
      var i := 0;
      while i < |value|
        invariant 0 <= i <= |value|
        invariant Valid()
        invariant value[..i] in NodeAt && NodeAt[value[..i]] == node
        invariant GrownAlong(initial, NodeAt, value[..i])
        invariant Marked() == old(Marked())
      {
        assert value[..i + 1] == value[..i] + [value[i]];
        ghost var before := NodeAt;
        node := Descend(node, value[..i], value[i]);
        GrownAlongStep(initial, before, value, i, node);
        i := i + 1;
      }
      assert value[..i] == value;
      assert GrownAlong(initial, NodeAt, value);
    }

    /**
     * `add(value)`: throws on "" (here: `ok` is false and nothing changes); otherwise creates the
     * missing nodes along `value`'s path and marks `value` live. No other mark changes and no
     * existing node moves, so adding the same string twice is the same as adding it once.
     */
    method Add(value: string) returns (ok: bool)
      requires Valid()
      modifies this
      ensures Valid()
      ensures ok <==> value != ""
      ensures Marked() == if ok then old(Marked()) + {value} else old(Marked())
      ensures NodeAt.Keys == if ok then old(NodeAt.Keys) + Prefixes(value) else old(NodeAt.Keys)
      ensures forall p :: p in old(NodeAt) ==> NodeAt[p] == old(NodeAt[p])
    {
      if value == "" {
        return false;
      }
      var node := Walk(value);
      SetEndTree(nodes, Paths, NodeAt, Depth, node, true);
      nodes := nodes[node := nodes[node].(end := true)];
      ok := true;
    }
    /**
     * `#findAndRemoveRecursive(values, node, prefix, filter)`: visits every child of the node at
     * path `prefix`, then the node itself; collects into `values` and un-marks every live string
     * under `prefix` that `filter` accepts, each subtree's strings before the subtree's root.
     */
    method FindAndRemoveRecursive(values: seq<string>, node: nat, prefix: string, filter: string -> bool)
      returns (out: seq<string>)
      requires Valid() && prefix in NodeAt && NodeAt[prefix] == node
      modifies this
      decreases Depth - |prefix|, 1
      ensures Valid() && NodeAt == old(NodeAt) && Paths == old(Paths) && Depth == old(Depth)
      ensures |nodes| == |old(nodes)| && forall k :: 0 <= k < |nodes| ==> nodes[k].children == old(nodes)[k].children
      ensures Marked() == old(Marked()) - Taken(old(Marked()), prefix, filter)
      ensures |out| >= |values| && out[..|values|] == values
      ensures forall x :: x in out[|values|..] <==> x in Taken(old(Marked()), prefix, filter)
      ensures PostOrder(out[|values|..])
    {
      ghost var m0 := Marked();
      ghost var keys := nodes[node].children.Keys;
      out := FindAndRemoveChildren(values, node, prefix, filter);
      ChildrenCoverBelow(prefix);
      TakenSplit(m0, prefix, keys, filter);
      assert prefix !in TakenBelow(m0, prefix, keys, filter);
      assert nodes[node].end <==> prefix in m0 by {
        assert nodes[node].end <==> prefix in Marked();
      }
      if nodes[node].end && filter(prefix) {
        SetEndTree(nodes, Paths, NodeAt, Depth, node, false);
        ghost var collected := out[|values|..];
        nodes := nodes[node := nodes[node].(end := false)];
        out := out + [prefix];
        assert out[|values|..] == collected + [prefix];
        PostOrderAppend(collected, [prefix]);
      }
    }

    /**
     * The loop of `#findAndRemoveRecursive` over `Object.keys(node)`, in no particular order: runs
     * the traversal on each child and so collects the live strings strictly below `prefix`.
     */
    method FindAndRemoveChildren(values: seq<string>, node: nat, prefix: string, filter: string -> bool)
      returns (out: seq<string>)
      requires Valid() && prefix in NodeAt && NodeAt[prefix] == node
      modifies this
      decreases Depth - |prefix|, 0
      ensures Valid() && NodeAt == old(NodeAt) && Paths == old(Paths) && Depth == old(Depth)
      ensures |nodes| == |old(nodes)| && forall k :: 0 <= k < |nodes| ==> nodes[k].children == old(nodes)[k].children
      ensures Marked() == old(Marked()) - TakenBelow(old(Marked()), prefix, old(nodes)[node].children.Keys, filter)
      ensures |out| >= |values| && out[..|values|] == values
      ensures forall x :: x in out[|values|..] <==> x in TakenBelow(old(Marked()), prefix, old(nodes)[node].children.Keys, filter)
      ensures PostOrder(out[|values|..])
    {
      ghost var m0 := Marked();
      ghost var table := nodes;
      var keys := nodes[node].children.Keys;
      ghost var done: set<char> := {};
      out := values;
      while keys != {}
        invariant Valid() && NodeAt == old(NodeAt) && Paths == old(Paths) && Depth == old(Depth)
        invariant |nodes| == |table| && forall k :: 0 <= k < |nodes| ==> nodes[k].children == table[k].children
        invariant keys + done == table[node].children.Keys && keys !! done
        invariant Marked() == m0 - TakenBelow(m0, prefix, done, filter)
        invariant |out| >= |values| && out[..|values|] == values
        invariant forall x :: x in out[|values|..] <==> x in TakenBelow(m0, prefix, done, filter)
        invariant PostOrder(out[|values|..])
        decreases keys
      {
        var c :| c in keys;
        TakenBelowStep(m0, prefix, done, c, filter);
        assert Paths[node] + [c] in NodeAt && nodes[node].children[c] == NodeAt[prefix + [c]];
        ghost var mid := out;
        out := FindAndRemoveRecursive(out, nodes[node].children[c], prefix + [c], filter);
        assert out[|values|..] == mid[|values|..] + out[|mid|..];
        PostOrderAppend(mid[|values|..], out[|mid|..]);
        assert Marked() == m0 - TakenBelow(m0, prefix, done + {c}, filter);
        keys := keys - {c};
        done := done + {c};
      }
    }

    /**
     * `findAndRemove(prefix, filter)`: walks to the node at `prefix`; when it is missing there is
     * nothing under it and the result is empty, otherwise the traversal above collects and un-marks
     * the live strings under it that `filter` accepts.
     */
    method FindAndRemove(prefix: string, filter: string -> bool) returns (values: seq<string>)
      requires Valid()
      modifies this
      ensures Valid() && NodeAt == old(NodeAt)
      ensures Marked() == old(Marked()) - Taken(old(Marked()), prefix, filter)
      ensures forall x :: x in values <==> x in Taken(old(Marked()), prefix, filter)
      ensures PostOrder(values)
    {
      var node := Root;
      var i := 0;
      while i < |prefix|
        invariant 0 <= i <= |prefix|
        invariant prefix[..i] in NodeAt && NodeAt[prefix[..i]] == node
      {
        assert prefix[..i + 1] == prefix[..i] + [prefix[i]];
        if prefix[i] !in nodes[node].children {
          NoPathNothingTaken(prefix, i, filter);
          return [];
        }
        node := nodes[node].children[prefix[i]];
        i := i + 1;
      }
      assert prefix[..i] == prefix;
      values := FindAndRemoveRecursive([], node, prefix, filter);
      assert values[0..] == values;
    }

    /** Every path strictly below `prefix` passes through one of its node's children. */
    lemma ChildrenCoverBelow(prefix: string)
      requires Valid() && prefix in NodeAt
      ensures forall x :: x in NodeAt && StartsWith(x, prefix) && x != prefix ==> x[|prefix|] in nodes[NodeAt[prefix]].children
    {
      forall x | x in NodeAt && StartsWith(x, prefix) && x != prefix
        ensures x[|prefix|] in nodes[NodeAt[prefix]].children
      {
        assert x[..|x|] == x;
        var step := prefix + [x[|prefix|]];
        assert StartsWith(x, step) by {
          assert x[..|prefix| + 1] == x[..|prefix|] + [x[|prefix|]];
        }
        assert Paths[NodeAt[prefix]] + [x[|prefix|]] in NodeAt;
      }
    }

    /** A prefix of `prefix` that has no node has no live string under it, and neither has `prefix`. */
    lemma NoPathNothingTaken(prefix: string, i: nat, filter: string -> bool)
      requires Valid() && i < |prefix| && prefix[..i + 1] !in NodeAt
      ensures Taken(Marked(), prefix, filter) == {}
    {
      forall x | x in Marked() && StartsWith(x, prefix) ensures false {
        assert StartsWith(x, prefix[..i + 1]) by {
          assert x[..i + 1] == prefix[..i + 1];
        }
      }
    }
  }
}
