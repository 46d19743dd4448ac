/** The pure part of the hierarchy graph (graph.ts): the upward root walk
    `findNodeRoot`, the recursive subtree materialiser `buildSubtree`, the
    root derivation of `buildTree` and the root selection of
    `buildBacktracedTree`, all as functions of the graph's two registries. */
module Hierarchy {
  import opened Wrappers
  import opened Attributes
  import opened Registries

  /** A materialised tree node: a copy of the node's bag plus, when the node
      has an entry in the edge registry, the ordered sequence of its
      children's trees. A `Leaf` is a node whose `children` field is absent. */
  datatype Tree = Leaf(bag: Bag) | Branch(bag: Bag, children: seq<Tree>)

  // ---------------------------------------------------------------------
  // findNodeRoot

  /** The `parentId` walk starting at `id` stops within `n` steps: it reaches
      an unregistered id or a bag without `parentId`. (Acyclicity is the
      caller's responsibility in the source; here it is a precondition.) */
  ghost predicate ChainEnds(nodes: map<string, Bag>, id: string, n: nat)
    decreases n
  {
    id !in nodes || !HasParent(nodes[id]) || (n > 0 && ChainEnds(nodes, ParentOf(nodes[id]), n - 1))
  }

  /** Every walk from a registered id stops within `n` steps. */
  ghost predicate ChainsEnd(nodes: map<string, Bag>, n: nat) {
    forall id :: id in nodes ==> ChainEnds(nodes, id, n)
  }

  /** `findNodeRoot(id)`: follows `parentId` attributes upward. */
  function FindNodeRoot(nodes: map<string, Bag>, id: string, ghost n: nat): (r: Option<string>)
    requires ChainEnds(nodes, id, n)
    ensures id !in nodes ==> r == None
    ensures id in nodes && !HasParent(nodes[id]) ==> r == Some(id)
    ensures r.Some? ==> r.value in nodes && !HasParent(nodes[r.value])
    decreases n
  {
    if id !in nodes then None
    else if !HasParent(nodes[id]) then Some(id)
    else FindNodeRoot(nodes, ParentOf(nodes[id]), n - 1)
  }

  /** `anc` is reached from `id` by following `parentId` at most `n` times. */
  ghost predicate AncestorOrSelf(nodes: map<string, Bag>, id: string, anc: string, n: nat)
    decreases n
  {
    id == anc || (n > 0 && id in nodes && HasParent(nodes[id]) && AncestorOrSelf(nodes, ParentOf(nodes[id]), anc, n - 1))
  }

  /** Reference characterisation of the root walk: it returns `r` exactly
      when `r` is a registered ancestor-or-self of `id` without `parentId`. */
  lemma {:induction false} FindNodeRootIsTopAncestor(nodes: map<string, Bag>, id: string, r: string, n: nat)
    requires ChainEnds(nodes, id, n)
    ensures FindNodeRoot(nodes, id, n) == Some(r) <==>
            AncestorOrSelf(nodes, id, r, n) && r in nodes && !HasParent(nodes[r])
    decreases n
  {
    if id !in nodes {
    } else if !HasParent(nodes[id]) {
      if AncestorOrSelf(nodes, id, r, n) {
        assert id == r;
      }
    } else {
      FindNodeRootIsTopAncestor(nodes, ParentOf(nodes[id]), r, n - 1);
    }
  }

  /** The walk of a root's own root is the root itself. */
  lemma FindNodeRootIdempotent(nodes: map<string, Bag>, id: string, n: nat, m: nat)
    requires ChainEnds(nodes, id, n)
    requires FindNodeRoot(nodes, id, n).Some?
    ensures ChainEnds(nodes, FindNodeRoot(nodes, id, n).value, m)
    ensures FindNodeRoot(nodes, FindNodeRoot(nodes, id, n).value, m) == FindNodeRoot(nodes, id, n)
  {
  }

  /** The bound `n` is a proof device only: any two sufficient bounds give
      the same answer. */
  lemma {:induction false} FindNodeRootBoundIrrelevant(nodes: map<string, Bag>, id: string, n: nat, m: nat)
    requires ChainEnds(nodes, id, n) && ChainEnds(nodes, id, m)
    ensures FindNodeRoot(nodes, id, n) == FindNodeRoot(nodes, id, m)
    decreases n
  {
    if id in nodes && HasParent(nodes[id]) {
      FindNodeRootBoundIrrelevant(nodes, ParentOf(nodes[id]), n - 1, m - 1);
    }
  }

  /** A walk started from a non-empty id never answers the empty string, so
      the `!rootNodeId` test of `buildBacktracedTree` only ever rejects an
      absent root. */
  lemma {:induction false} FindNodeRootNonEmpty(nodes: map<string, Bag>, id: string, n: nat)
    requires ChainEnds(nodes, id, n) && id != ""
    ensures FindNodeRoot(nodes, id, n) != Some("")
    decreases n
  {
    if id in nodes && HasParent(nodes[id]) {
      FindNodeRootNonEmpty(nodes, ParentOf(nodes[id]), n - 1);
    }
  }

  /** Under `ChainsEnd`, the walk from any id (registered or not) stops. */
  lemma ChainEndsEverywhere(nodes: map<string, Bag>, id: string, n: nat)
    requires ChainsEnd(nodes, n)
    ensures ChainEnds(nodes, id, n)
  {
  }

  // ---------------------------------------------------------------------
  // buildSubtree

  /** The subtree under `id` has height at most `h` and every id in it is
      registered (so `getNode` never returns `undefined` inside it). */
  ghost predicate Spans(nodes: map<string, Bag>, edges: map<string, seq<string>>, id: string, h: nat)
    decreases h
  {
    id in nodes && (id in edges ==> h > 0 && forall c :: c in edges[id] ==> Spans(nodes, edges, c, h - 1))
  }

  ghost predicate AllSpan(nodes: map<string, Bag>, edges: map<string, seq<string>>, ids: seq<string>, h: nat) {
    forall id :: id in ids ==> Spans(nodes, edges, id, h)
  }

  /** `buildSubtree(id)`: the node's bag with, when `edges` has an entry for
      `id`, the child subtrees in child-set order (not sorted). */
  function BuildSubtree(nodes: map<string, Bag>, edges: map<string, seq<string>>, id: string, ghost h: nat): (t: Tree)
    requires Spans(nodes, edges, id, h)
    ensures t.bag == nodes[id]
    ensures t.Branch? <==> id in edges
    decreases h, 0
  {
    if id in edges then Branch(nodes[id], Subtrees(nodes, edges, edges[id], h - 1)) else Leaf(nodes[id])
  }

  /** `ids.map(buildSubtree)` */
  function Subtrees(nodes: map<string, Bag>, edges: map<string, seq<string>>, ids: seq<string>, ghost h: nat): seq<Tree>
    requires AllSpan(nodes, edges, ids, h)
    decreases h, 1
  {
    seq(|ids|, k requires 0 <= k < |ids| => BuildSubtree(nodes, edges, ids[k], h))
  }

  /** A node with a child set gets one child per child id, in child-set
      order, each the (unsorted) subtree of that id. */
  lemma BuildSubtreeChildren(nodes: map<string, Bag>, edges: map<string, seq<string>>, id: string, h: nat)
    requires Spans(nodes, edges, id, h) && id in edges
    ensures AllSpan(nodes, edges, edges[id], h - 1)
    ensures |BuildSubtree(nodes, edges, id, h).children| == |edges[id]|
    ensures forall k :: 0 <= k < |edges[id]| ==>
              BuildSubtree(nodes, edges, id, h).children[k] == BuildSubtree(nodes, edges, edges[id][k], h - 1)
  {
  }

  /** Two ids that are each other's child span no finite subtree: building
      either recurses without end. */
  lemma {:induction false} TwoCycleNeverSpans(nodes: map<string, Bag>, edges: map<string, seq<string>>, x: string, y: string, h: nat)
    requires x in edges && y in edges[x] && y in edges && x in edges[y]
    ensures !Spans(nodes, edges, x, h) && !Spans(nodes, edges, y, h)
    decreases h
  {
    if h > 0 {
      TwoCycleNeverSpans(nodes, edges, x, y, h - 1);
    }
  }

  /** Each tree of `Subtrees(ids)` is the subtree of one of `ids`. */
  lemma SubtreesMembers(nodes: map<string, Bag>, edges: map<string, seq<string>>, ids: seq<string>, h: nat)
    requires AllSpan(nodes, edges, ids, h)
    ensures forall t :: t in Subtrees(nodes, edges, ids, h) ==>
              exists id :: id in ids && Spans(nodes, edges, id, h) && t == BuildSubtree(nodes, edges, id, h)
  {
    forall t | t in Subtrees(nodes, edges, ids, h)
      ensures exists id :: id in ids && Spans(nodes, edges, id, h) && t == BuildSubtree(nodes, edges, id, h)
    {
      var k :| 0 <= k < |ids| && Subtrees(nodes, edges, ids, h)[k] == t;
      assert ids[k] in ids;
    }
  }

  /** Reference definition of a subtree's contents: the ids reachable from
      `id` through the edge registry, in preorder and child-set order. */
  ghost function Preorder(nodes: map<string, Bag>, edges: map<string, seq<string>>, id: string, h: nat): seq<string>
    requires Spans(nodes, edges, id, h)
    decreases h, 0, 0
  {
    [id] + if id in edges then PreorderAll(nodes, edges, edges[id], h - 1) else []
  }

  ghost function PreorderAll(nodes: map<string, Bag>, edges: map<string, seq<string>>, ids: seq<string>, h: nat): seq<string>
    requires AllSpan(nodes, edges, ids, h)
    decreases h, 1, |ids|
  {
    if ids == [] then [] else Preorder(nodes, edges, ids[0], h) + PreorderAll(nodes, edges, ids[1..], h)
  }

  /** The bags of a tree, in preorder. */
  function Flatten(t: Tree): seq<Bag>
    decreases t
  {
    [t.bag] + match t
              case Leaf(_) => []
              case Branch(_, cs) => FlattenAll(cs)
  }

  function FlattenAll(ts: seq<Tree>): seq<Bag>
    decreases ts
  {
    if ts == [] then [] else Flatten(ts[0]) + FlattenAll(ts[1..])
  }

  function BagsOf(nodes: map<string, Bag>, ids: seq<string>): seq<Bag>
    requires forall id :: id in ids ==> id in nodes
  {
    seq(|ids|, k requires 0 <= k < |ids| => nodes[ids[k]])
  }

  lemma BagsOfAppend(nodes: map<string, Bag>, a: seq<string>, b: seq<string>)
    requires forall id :: id in a + b ==> id in nodes
    ensures BagsOf(nodes, a + b) == BagsOf(nodes, a) + BagsOf(nodes, b)
  {
  }

  lemma {:induction false} PreorderRegistered(nodes: map<string, Bag>, edges: map<string, seq<string>>, id: string, h: nat)
    requires Spans(nodes, edges, id, h)
    ensures forall x :: x in Preorder(nodes, edges, id, h) ==> x in nodes
    decreases h, 0, 0
  {
    if id in edges {
      PreorderAllRegistered(nodes, edges, edges[id], h - 1);
    }
  }

  lemma {:induction false} PreorderAllRegistered(nodes: map<string, Bag>, edges: map<string, seq<string>>, ids: seq<string>, h: nat)
    requires AllSpan(nodes, edges, ids, h)
    ensures forall x :: x in PreorderAll(nodes, edges, ids, h) ==> x in nodes
    decreases h, 1, |ids|
  {
    if ids != [] {
      PreorderRegistered(nodes, edges, ids[0], h);
      PreorderAllRegistered(nodes, edges, ids[1..], h);
    }
  }

  /** Subtree completeness: the bags of `buildSubtree(id)` in preorder are
      exactly the registered bags of the ids reachable from `id` through the
      edge registry, in child-set order, with no omission and nothing extra. */
  lemma {:induction false} FlattenSubtree(nodes: map<string, Bag>, edges: map<string, seq<string>>, id: string, h: nat)
    requires Spans(nodes, edges, id, h)
    ensures forall x :: x in Preorder(nodes, edges, id, h) ==> x in nodes
    ensures Flatten(BuildSubtree(nodes, edges, id, h)) == BagsOf(nodes, Preorder(nodes, edges, id, h))
    decreases h, 0, 0
  {
    PreorderRegistered(nodes, edges, id, h);
    if id in edges {
      PreorderAllRegistered(nodes, edges, edges[id], h - 1);
      FlattenSubtrees(nodes, edges, edges[id], h - 1);
      BagsOfAppend(nodes, [id], PreorderAll(nodes, edges, edges[id], h - 1));
    }
  }

  lemma {:induction false} FlattenSubtrees(nodes: map<string, Bag>, edges: map<string, seq<string>>, ids: seq<string>, h: nat)
    requires AllSpan(nodes, edges, ids, h)
    ensures forall x :: x in PreorderAll(nodes, edges, ids, h) ==> x in nodes
    ensures FlattenAll(Subtrees(nodes, edges, ids, h)) == BagsOf(nodes, PreorderAll(nodes, edges, ids, h))
    decreases h, 1, |ids|
  {
    PreorderAllRegistered(nodes, edges, ids, h);
    if ids != [] {
      var ts := Subtrees(nodes, edges, ids, h);
      assert ts[1..] == Subtrees(nodes, edges, ids[1..], h);
      FlattenSubtree(nodes, edges, ids[0], h);
      FlattenSubtrees(nodes, edges, ids[1..], h);
      PreorderRegistered(nodes, edges, ids[0], h);
      PreorderAllRegistered(nodes, edges, ids[1..], h);
      BagsOfAppend(nodes, Preorder(nodes, edges, ids[0], h), PreorderAll(nodes, edges, ids[1..], h));
    }
  }

  // ---------------------------------------------------------------------
  // Roots of buildTree

  /** The union of all child sets of the parents in `ps`. */
  function ChildIdsOf(edges: map<string, seq<string>>, ps: set<string>): set<string> {
    set p, c | p in ps && p in edges && c in edges[p] :: c
  }

  /** The union of all child sets. */
  function ChildIds(edges: map<string, seq<string>>): set<string> {
    ChildIdsOf(edges, edges.Keys)
  }

  /** `s` with every member of `gone` deleted, order kept (`Set.delete`). */
  function Without(s: seq<string>, gone: set<string>): (r: seq<string>)
    ensures forall x :: x in r <==> x in s && x !in gone
    ensures |r| <= |s|
  {
    if s == [] then [] else (if s[0] in gone then [] else [s[0]]) + Without(s[1..], gone)
  }

  lemma {:induction false} WithoutNothing(s: seq<string>)
    ensures Without(s, {}) == s
  {
    if s != [] {
      WithoutNothing(s[1..]);
    }
  }

  lemma {:induction false} WithoutDistinct(s: seq<string>, gone: set<string>)
    requires Distinct(s)
    ensures Distinct(Without(s, gone))
  {
    if s != [] {
      WithoutDistinct(s[1..], gone);
    }
  }

  /** Deleting `a` and then `b` is deleting `a + b`. */
  lemma {:induction false} WithoutWithout(s: seq<string>, a: set<string>, b: set<string>)
    ensures Without(Without(s, a), b) == Without(s, a + b)
  {
    if s != [] {
      var w := Without(s[1..], a);
      WithoutWithout(s[1..], a, b);
      if s[0] in a {
        assert Without(s, a) == w;
        assert Without(s, a + b) == Without(s[1..], a + b);
      } else {
        assert Without(s, a) == [s[0]] + w;
        assert ([s[0]] + w)[0] == s[0] && ([s[0]] + w)[1..] == w;
        assert Without([s[0]] + w, b) == (if s[0] in b then [] else [s[0]]) + Without(w, b);
      }
    }
  }

  /** The root ids of `buildTree`: every registered id, in registration
      order, that is not in any child set. */
  function RootIds(reg: Registry): seq<string> {
    Without(reg.order, ChildIds(reg.edges))
  }

  /** Root derivation: the roots are exactly the registered ids minus the
      union of the child sets, each listed once. */
  lemma RootIdsExact(reg: Registry)
    requires reg.Valid()
    ensures forall id :: id in RootIds(reg) <==> id in reg.nodes && id !in ChildIds(reg.edges)
    ensures forall id :: id in reg.nodes && (forall p :: p in reg.edges ==> id !in reg.edges[p]) ==> id in RootIds(reg)
    ensures forall p, id :: p in reg.edges && id in reg.edges[p] ==> id !in RootIds(reg)
    ensures Distinct(RootIds(reg))
  {
    WithoutDistinct(reg.order, ChildIds(reg.edges));
  }

  // ---------------------------------------------------------------------
  // Root selection of buildBacktracedTree

  /** One iteration of the loop over the matched nodes: `acc` holds the keys
      of `treeMap` so far; `id`/`bag` is the current matched entry. The walk
      starts from a truthy `parentId`, so by `FindNodeRootNonEmpty` a found
      root is never the falsy empty string. */
  function BacktraceStep(nodes: map<string, Bag>, acc: seq<string>, id: string, bag: Bag, ghost n: nat): seq<string>
    requires ChainsEnd(nodes, n)
  {
    if id in acc then acc
    else if !HasParent(bag) then acc + [id]
    else
      ChainEndsEverywhere(nodes, ParentOf(bag), n);
      match FindNodeRoot(nodes, ParentOf(bag), n)
      case None => acc
      case Some(r) => if r in acc then acc else acc + [r]
  }

  /** The keys of `treeMap`, in insertion order, after the loop has visited
      the matched entries `ids` (taken from `m`). */
  function BacktracedRoots(nodes: map<string, Bag>, m: NodeMap, ids: seq<string>, ghost n: nat): seq<string>
    requires ChainsEnd(nodes, n)
    requires forall id :: id in ids ==> id in m.bags
  {
    if ids == [] then []
    else
      var last := ids[|ids| - 1];
      BacktraceStep(nodes, BacktracedRoots(nodes, m, ids[..|ids| - 1], n), last, m.bags[last], n)
  }

  /** Visiting one more matched entry is one more `BacktraceStep`. */
  lemma BacktracedRootsSnoc(nodes: map<string, Bag>, m: NodeMap, ids: seq<string>, i: nat, n: nat)
    requires ChainsEnd(nodes, n)
    requires i < |ids| && forall id :: id in ids ==> id in m.bags
    ensures BacktracedRoots(nodes, m, ids[..i + 1], n) ==
            BacktraceStep(nodes, BacktracedRoots(nodes, m, ids[..i], n), ids[i], m.bags[ids[i]], n)
  {
    assert ids[..i + 1][..i] == ids[..i];
  }

  /** The root that the matched entry `id` selects, if any: itself when its
      bag has no `parentId`, otherwise the root of its parent. */
  ghost predicate Selects(nodes: map<string, Bag>, m: NodeMap, id: string, r: string, n: nat)
    requires ChainsEnd(nodes, n)
    requires id in m.bags
  {
    if !HasParent(m.bags[id]) then r == id
    else
      ChainEndsEverywhere(nodes, ParentOf(m.bags[id]), n);
      FindNodeRoot(nodes, ParentOf(m.bags[id]), n) == Some(r)
  }

  /** Each root of the back-traced forest is emitted at most once, and every
      emitted root is selected by some matched entry (a match whose root
      lookup finds nothing selects nothing, so it is skipped). */
  lemma {:induction false} BacktracedRootsSound(nodes: map<string, Bag>, m: NodeMap, ids: seq<string>, n: nat)
    requires ChainsEnd(nodes, n)
    requires forall id :: id in ids ==> id in m.bags
    ensures Distinct(BacktracedRoots(nodes, m, ids, n))
    ensures forall r :: r in BacktracedRoots(nodes, m, ids, n) ==> exists id :: id in ids && Selects(nodes, m, id, r, n)
  {
    if ids != [] {
      var init := ids[..|ids| - 1];
      var last := ids[|ids| - 1];
      assert forall id :: id in init ==> id in ids;
      BacktracedRootsSound(nodes, m, init, n);
      var acc := BacktracedRoots(nodes, m, init, n);
      var bag := m.bags[last];
      if last !in acc && HasParent(bag) {
        ChainEndsEverywhere(nodes, ParentOf(bag), n);
        var root := FindNodeRoot(nodes, ParentOf(bag), n);
        if root.Some? && root.value !in acc {
          assert Selects(nodes, m, last, root.value, n);
        }
      } else if last !in acc {
        assert Selects(nodes, m, last, last, n);
      }
    }
  }

  /** Every root that a matched entry selects is emitted, provided the
      matched entries are distinct and carry their registered bags (as the
      result of `filterNodes` does). */
  lemma {:induction false} BacktracedRootsComplete(nodes: map<string, Bag>, m: NodeMap, ids: seq<string>, n: nat)
    requires ChainsEnd(nodes, n)
    requires Distinct(ids)
    requires forall id :: id in ids ==> id in m.bags && id in nodes && m.bags[id] == nodes[id]
    ensures forall id, r :: id in ids && Selects(nodes, m, id, r, n) ==> r in BacktracedRoots(nodes, m, ids, n)
  {
    if ids != [] {
      var init := ids[..|ids| - 1];
      var last := ids[|ids| - 1];
      assert ids == init + [last];
      assert last !in init;
      assert Distinct(init);
      BacktracedRootsComplete(nodes, m, init, n);
      BacktracedRootsSound(nodes, m, init, n);
      var acc := BacktracedRoots(nodes, m, init, n);
      var bag := m.bags[last];
      if HasParent(bag) {
        ChainEndsEverywhere(nodes, ParentOf(bag), n);
      }
      if last in acc {
        var id :| id in init && Selects(nodes, m, id, last, n);
        assert id != last;
        assert !HasParent(bag);
      }
    }
  }

  /** Every emitted root is registered. */
  lemma {:induction false} BacktracedRootsRegistered(nodes: map<string, Bag>, m: NodeMap, ids: seq<string>, n: nat)
    requires ChainsEnd(nodes, n)
    requires forall id :: id in ids ==> id in m.bags
    requires forall id :: id in ids && !HasParent(m.bags[id]) ==> id in nodes
    ensures forall r :: r in BacktracedRoots(nodes, m, ids, n) ==> r in nodes
  {
    if ids != [] {
      var init := ids[..|ids| - 1];
      var last := ids[|ids| - 1];
      assert forall id :: id in init ==> id in ids;
      BacktracedRootsRegistered(nodes, m, init, n);
      var bag := m.bags[last];
      if HasParent(bag) {
        ChainEndsEverywhere(nodes, ParentOf(bag), n);
      }
    }
  }
}
