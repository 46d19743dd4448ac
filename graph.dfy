/** The `Graph` class of graph.ts: mutable node and edge registries, the
    registry operations, the flat filter and the two forest builders. The
    pure parts it relies on are in `Registries`, `Hierarchy` and `TreeOrder`. */
module Graphs {
  import opened Wrappers
  import opened Attributes
  import opened Registries
  import opened Hierarchy
  import opened TreeOrder

  /** Every registered id spans a fully registered subtree of height at most
      `h` (in particular the edge registry has no cycle below it). */
  ghost predicate SubtreesWithin(reg: Registry, h: nat) {
    forall id :: id in reg.nodes ==> Spans(reg.nodes, reg.edges, id, h)
  }

  /** Subtrees bounded everywhere are in particular bounded below the roots. */
  lemma WithinSpansRoots(reg: Registry, h: nat)
    requires reg.Valid() && SubtreesWithin(reg, h)
    ensures AllSpan(reg.nodes, reg.edges, RootIds(reg), h)
  {
    RootIdsExact(reg);
  }

  /** The forest `buildTree` returns. Only the subtrees below the roots are
      built, so only they need to be finite and registered: a `parentId`
      cycle that no root reaches is simply left out of the forest. */
  function Forest(reg: Registry, ghost h: nat): seq<Tree>
    requires reg.Valid() && AllSpan(reg.nodes, reg.edges, RootIds(reg), h)
  {
    SortedTrees(Subtrees(reg.nodes, reg.edges, RootIds(reg), h))
  }

  /** `buildTree` returns one full subtree per root, as a permutation of the
      roots' subtrees, branches first; an empty graph gives no trees. */
  lemma ForestSpec(reg: Registry, h: nat)
    requires reg.Valid() && AllSpan(reg.nodes, reg.edges, RootIds(reg), h)
    ensures |Forest(reg, h)| == |RootIds(reg)|
    ensures AllSpan(reg.nodes, reg.edges, RootIds(reg), h) &&
            multiset(Forest(reg, h)) == multiset(Subtrees(reg.nodes, reg.edges, RootIds(reg), h))
    ensures forall t :: t in Forest(reg, h) ==>
              exists id :: id in reg.nodes && id !in ChildIds(reg.edges) &&
                           Spans(reg.nodes, reg.edges, id, h) && t == BuildSubtree(reg.nodes, reg.edges, id, h)
    ensures forall i, j :: 0 <= i < j < |Forest(reg, h)| ==> !(!HasChildren(Forest(reg, h)[i]) && HasChildren(Forest(reg, h)[j]))
    ensures reg.nodes == map[] ==> Forest(reg, h) == []
  {
    RootIdsExact(reg);
    var roots := RootIds(reg);
    var ts := Subtrees(reg.nodes, reg.edges, roots, h);
    SortedTreesSpec(ts);
    SortedTreesMembers(ts);
    SubtreesMembers(reg.nodes, reg.edges, roots, h);
    if reg.nodes == map[] {
      assert |Forest(reg, h)| == 0;
    }
  }

  /** The forest `buildBacktracedTree(m)` returns. */
  function BacktracedForest(reg: Registry, m: NodeMap, ghost h: nat, ghost n: nat): seq<Tree>
    requires reg.Valid() && SubtreesWithin(reg, h) && ChainsEnd(reg.nodes, n)
    requires m.Valid()
    requires forall id :: id in m.bags && !HasParent(m.bags[id]) ==> id in reg.nodes
  {
    BacktracedRootsRegistered(reg.nodes, m, m.ids, n);
    SortedTrees(Subtrees(reg.nodes, reg.edges, BacktracedRoots(reg.nodes, m, m.ids, n), h))
  }

  /** Every tree of the back-traced forest is the full, unpruned subtree of
      a root selected by some matched entry (the entry itself when its bag
      has no `parentId`, else the root of its parent); each root appears
      once; branches come first. */
  lemma BacktracedForestSpec(reg: Registry, m: NodeMap, h: nat, n: nat)
    requires reg.Valid() && SubtreesWithin(reg, h) && ChainsEnd(reg.nodes, n)
    requires m.Valid()
    requires forall id :: id in m.bags && !HasParent(m.bags[id]) ==> id in reg.nodes
    ensures Distinct(BacktracedRoots(reg.nodes, m, m.ids, n))
    ensures |BacktracedForest(reg, m, h, n)| == |BacktracedRoots(reg.nodes, m, m.ids, n)|
    ensures forall t :: t in BacktracedForest(reg, m, h, n) ==>
              exists r :: r in BacktracedRoots(reg.nodes, m, m.ids, n) &&
                          (exists id :: id in m.ids && Selects(reg.nodes, m, id, r, n)) &&
                          Spans(reg.nodes, reg.edges, r, h) && t == BuildSubtree(reg.nodes, reg.edges, r, h)
    ensures forall i, j :: 0 <= i < j < |BacktracedForest(reg, m, h, n)| ==>
              !(!HasChildren(BacktracedForest(reg, m, h, n)[i]) && HasChildren(BacktracedForest(reg, m, h, n)[j]))
    ensures AllSpan(reg.nodes, reg.edges, BacktracedRoots(reg.nodes, m, m.ids, n), h)
    ensures multiset(BacktracedForest(reg, m, h, n)) ==
            multiset(Subtrees(reg.nodes, reg.edges, BacktracedRoots(reg.nodes, m, m.ids, n), h))
    ensures forall r :: r in BacktracedRoots(reg.nodes, m, m.ids, n) ==>
              Spans(reg.nodes, reg.edges, r, h) && BuildSubtree(reg.nodes, reg.edges, r, h) in BacktracedForest(reg, m, h, n)
  {
    var roots := BacktracedRoots(reg.nodes, m, m.ids, n);
    BacktracedRootsRegistered(reg.nodes, m, m.ids, n);
    BacktracedRootsSound(reg.nodes, m, m.ids, n);
    var ts := Subtrees(reg.nodes, reg.edges, roots, h);
    SortedTreesSpec(ts);
    SortedTreesMembers(ts);
    SubtreesMembers(reg.nodes, reg.edges, roots, h);
    forall r | r in roots
      ensures BuildSubtree(reg.nodes, reg.edges, r, h) in BacktracedForest(reg, m, h, n)
    {
      var k :| 0 <= k < |roots| && roots[k] == r;
      assert ts[k] == BuildSubtree(reg.nodes, reg.edges, r, h);
    }
  }

  class Graph {
    var nodes: map<string, Bag>
    var order: seq<string>
    var edges: map<string, seq<string>>

    /** The registries as a value. */
    function State(): Registry
      reads this
    {
      Registry(nodes, order, edges)
    }

    ghost predicate Valid()
      reads this
    {
      State().Valid()
    }

    constructor ()
      ensures Valid() && State() == Empty
    {
      nodes, order, edges := map[], [], map[];
    }

    /** `hasNode(id)` */
    function HasNode(id: string): (b: bool)
      reads this
      ensures b <==> id in State().nodes
    {
      id in nodes
    }

    /** `getNode(id)`: absent for an unregistered id, otherwise the stored
        bag (a value, so no later change to it can reach the registry). */
    function GetNode(id: string): (r: Option<Bag>)
      reads this
      ensures r.None? <==> id !in State().nodes
      ensures r.Some? ==> r.value == State().nodes[id]
    {
      if id in nodes then Some(nodes[id]) else None
    }

    /** `setNode(id, attributes)`; omitted attributes store an empty bag. */
    method SetNode(id: string, attributes: Option<Bag>)
      requires Valid()
      modifies this
      ensures Valid()
      ensures State() == old(State()).SetNode(id, attributes.GetOr(map[]))
      ensures HasNode(id) && GetNode(id) == Some(attributes.GetOr(map[]))
    {
      if id !in nodes {
        order := order + [id];
      }
      nodes := nodes[id := attributes.GetOr(map[])];
    }

    /** `setEdge(parentId, childId)` */
    method SetEdge(parentId: string, childId: string)
      requires Valid()
      modifies this
      ensures Valid()
      ensures State() == old(State()).SetEdge(parentId, childId)
    {
      if parentId !in edges {
        edges := edges[parentId := []];
      }
      if childId !in edges[parentId] {
        edges := edges[parentId := edges[parentId] + [childId]];
      }
      assert edges == old(edges)[parentId := AddChild(old(State()).ChildrenOf(parentId), childId)];
    }

    /** `filterNodes(predicate)`: the registered nodes whose bag satisfies
        `pred`, in registration order, with their stored bags. */
    method FilterNodes(pred: Bag -> bool) returns (r: NodeMap)
      requires Valid()
      ensures r.Valid()
      ensures r.ids == Matching(nodes, order, pred)
      ensures forall id :: id in r.bags <==> id in nodes && pred(nodes[id])
      ensures forall id :: id in r.bags ==> r.bags[id] == nodes[id]
    {
      var registered, ordered := nodes, order;
      var ids: seq<string> := [];
      var bags: map<string, Bag> := map[];
      var i := 0;
      while i < |ordered|
        invariant 0 <= i <= |ordered|
        invariant ids == Matching(registered, ordered[..i], pred)
        invariant forall id :: id in bags <==> id in ids
        invariant forall id :: id in bags ==> id in registered && bags[id] == registered[id]
      {
        var id := ordered[i];
        var node := registered[id];
        MatchingSnoc(registered, ordered, i, pred);
        if pred(node) {
          bags := bags[id := node];
          ids := ids + [id];
        }
        i := i + 1;
      }
      assert ordered[..|ordered|] == ordered;
      MatchingSpec(registered, ordered, pred);
      r := NodeMap(ids, bags);
    }

    /** The first half of `buildTree()`: the registered ids, in registration
        order, left after deleting every child id of every edge set. */
    method UnparentedIds() returns (roots: seq<string>)
      requires Valid()
      ensures roots == RootIds(State())
    {
      roots := order;
      var pending := edges.Keys;
      ghost var removed: set<string> := {};
      WithoutNothing(order);
      while pending != {}
        invariant pending <= edges.Keys
        invariant removed == ChildIdsOf(edges, edges.Keys - pending)
        invariant roots == Without(order, removed)
        decreases pending
      {
        var p :| p in pending;
        var children := edges[p];
        var j := 0;
        ghost var gone := removed;
        while j < |children|
          invariant 0 <= j <= |children|
          invariant gone == removed + set k | 0 <= k < j :: children[k]
          invariant roots == Without(order, gone)
        {
          WithoutWithout(order, gone, {children[j]});
          roots := Without(roots, {children[j]});
          gone := gone + {children[j]};
          assert (set k | 0 <= k < j + 1 :: children[k]) == (set k | 0 <= k < j :: children[k]) + {children[j]};
          j := j + 1;
        }
        assert (set k | 0 <= k < |children| :: children[k]) == set c | c in children;
        assert ChildIdsOf(edges, edges.Keys - (pending - {p})) == ChildIdsOf(edges, edges.Keys - pending) + set c | c in children;
        removed := gone;
        pending := pending - {p};
      }
      assert edges.Keys - pending == edges.Keys;
    }

    /** The subtree of each id of `roots`, in the order of `roots`. */
    method SubtreesOf(roots: seq<string>, ghost h: nat) returns (trees: seq<Tree>)
      requires AllSpan(nodes, edges, roots, h)
      ensures trees == Subtrees(nodes, edges, roots, h)
    {
      trees := [];
      var i := 0;
      while i < |roots|
        invariant 0 <= i <= |roots|
        invariant trees == Subtrees(nodes, edges, roots[..i], h)
      {
        assert roots[..i + 1] == roots[..i] + [roots[i]];
        trees := trees + [BuildSubtree(nodes, edges, roots[i], h)];
        i := i + 1;
      }
      assert roots[..|roots|] == roots;
    }

    /** `buildTree()`: roots are the registered ids left after deleting every
        child id; one subtree per root, sorted. */
    method BuildTree(ghost h: nat) returns (forest: seq<Tree>)
      requires Valid() && AllSpan(nodes, edges, RootIds(State()), h)
      ensures forest == Forest(State(), h)
    {
      var roots := UnparentedIds();
      var trees := SubtreesOf(roots, h);
      forest := SortedCopy(trees);
    }

    /** `treeMap` holds, for exactly the ids in `keys`, the subtree of that
        registered id. */
    ghost predicate Stores(keys: seq<string>, treeMap: map<string, Tree>, h: nat)
      reads this
    {
      && (forall r :: r in treeMap <==> r in keys)
      && (forall r :: r in treeMap ==> r in nodes && Spans(nodes, edges, r, h) && treeMap[r] == BuildSubtree(nodes, edges, r, h))
    }

    /** One iteration of the loop of `buildBacktracedTree(matched)` over the
        matched entry `nodeId`/`node`. */
    method Visit(keys: seq<string>, treeMap: map<string, Tree>, nodeId: string, node: Bag, ghost h: nat, ghost n: nat)
      returns (keys': seq<string>, treeMap': map<string, Tree>)
      requires SubtreesWithin(State(), h) && ChainsEnd(nodes, n)
      requires Stores(keys, treeMap, h)
      requires !HasParent(node) ==> nodeId in nodes
      ensures keys' == BacktraceStep(nodes, keys, nodeId, node, n)
      ensures Stores(keys', treeMap', h)
    {
      keys', treeMap' := keys, treeMap;
      if nodeId in treeMap {
      } else if !HasParent(node) {
        treeMap' := treeMap[nodeId := BuildSubtree(nodes, edges, nodeId, h)];
        keys' := keys + [nodeId];
      } else {
        ChainEndsEverywhere(nodes, ParentOf(node), n);
        var rootNodeId := FindNodeRoot(nodes, ParentOf(node), n);
        if rootNodeId.Some? && rootNodeId.value !in treeMap {
          treeMap' := treeMap[rootNodeId.value := BuildSubtree(nodes, edges, rootNodeId.value, h)];
          keys' := keys + [rootNodeId.value];
        }
      }
    }

    /** The first half of `buildBacktracedTree(matched)`: each matched entry
        selects itself when it has no `parentId`, else the root of its
        parent; the first selection of a root stores that root's subtree. */
    method BacktracedSubtrees(matched: NodeMap, ghost h: nat, ghost n: nat)
      returns (keys: seq<string>, trees: seq<Tree>)
      requires SubtreesWithin(State(), h) && ChainsEnd(nodes, n)
      requires matched.Valid()
      requires forall id :: id in matched.bags && !HasParent(matched.bags[id]) ==> id in nodes
      ensures keys == BacktracedRoots(nodes, matched, matched.ids, n)
      ensures AllSpan(nodes, edges, keys, h) && trees == Subtrees(nodes, edges, keys, h)
    {
      keys := [];
      var treeMap: map<string, Tree> := map[];
      var i := 0;
      while i < |matched.ids|
        invariant 0 <= i <= |matched.ids|
        invariant keys == BacktracedRoots(nodes, matched, matched.ids[..i], n)
        invariant Stores(keys, treeMap, h)
      {
        var nodeId := matched.ids[i];
        BacktracedRootsSnoc(nodes, matched, matched.ids, i, n);
        keys, treeMap := Visit(keys, treeMap, nodeId, matched.bags[nodeId], h, n);
        i := i + 1;
      }
      assert matched.ids[..|matched.ids|] == matched.ids;
      assert forall k :: 0 <= k < |keys| ==> keys[k] in treeMap;
      trees := seq(|keys|, k requires 0 <= k < |keys| => treeMap[keys[k]]);
      assert AllSpan(nodes, edges, keys, h);
      assert forall k :: 0 <= k < |keys| ==> trees[k] == BuildSubtree(nodes, edges, keys[k], h);
    }

    /** `buildBacktracedTree(matched)`: for each matched entry, the whole
        subtree of its root, each root at most once, sorted. */
    method BuildBacktracedTree(matched: NodeMap, ghost h: nat, ghost n: nat) returns (forest: seq<Tree>)
      requires Valid() && SubtreesWithin(State(), h) && ChainsEnd(nodes, n)
      requires matched.Valid()
      requires forall id :: id in matched.bags && !HasParent(matched.bags[id]) ==> id in nodes
      ensures forest == BacktracedForest(State(), matched, h, n)
    {
      var keys, trees := BacktracedSubtrees(matched, h, n);
      forest := SortedCopy(trees);
    }
  }

  /** Copies `trees` into a fresh array and sorts it with `sortTree`. */
  method SortedCopy(trees: seq<Tree>) returns (forest: seq<Tree>)
    ensures forest == SortedTrees(trees)
  {
    var a := new Tree[|trees|](k requires 0 <= k < |trees| => trees[k]);
    assert a[..] == trees;
    SortTree(a);
    forest := a[..];
  }
}
