/** The two registries of the hierarchy graph (graph.ts), as a value: the
    node registry `nodes` (id -> attribute bag, with the insertion order of a
    JavaScript `Map`) and the edge registry `edges` (parent id -> child ids,
    a JavaScript `Set` modelled as a duplicate-free sequence in insertion
    order). The class `Graphs.Graph` holds the same three components as
    mutable fields and is specified through this value. */
module Registries {
  import opened Attributes

  predicate Distinct(s: seq<string>) {
    forall i, j :: 0 <= i < j < |s| ==> s[i] != s[j]
  }

  /** An insertion-ordered `Map<string, Bag>` value, such as the one
      `filterNodes` returns and `buildBacktracedTree` consumes. */
  datatype NodeMap = NodeMap(ids: seq<string>, bags: map<string, Bag>) {
    ghost predicate Valid() {
      Distinct(ids) && forall id :: id in bags <==> id in ids
    }
  }

  /** `Set.add`: appends `c` unless it is already a member. */
  function AddChild(children: seq<string>, c: string): seq<string> {
    if c in children then children else children + [c]
  }

  datatype Registry = Registry(nodes: map<string, Bag>, order: seq<string>, edges: map<string, seq<string>>) {

    /** `order` lists every registered id once; every child set is non-empty
        (it is only ever created right before an `add`) and has no duplicates. */
    ghost predicate Valid() {
      && Distinct(order)
      && (forall id :: id in nodes <==> id in order)
      && (forall p :: p in edges ==> edges[p] != [] && Distinct(edges[p]))
    }

    /** The child set of `p`, empty when `p` has no entry. */
    function ChildrenOf(p: string): seq<string> {
      if p in edges then edges[p] else []
    }

    /** `nodes.set(id, bag)`; a re-registered id keeps its position. */
    function SetNode(id: string, bag: Bag): (r: Registry)
      ensures r.nodes.Keys == nodes.Keys + {id} && r.nodes[id] == bag
      ensures forall x :: x in nodes && x != id ==> r.nodes[x] == nodes[x]
      ensures id in nodes ==> r.order == order
      ensures id !in nodes ==> r.order == order + [id]
      ensures r.edges == edges
      ensures Valid() ==> r.Valid()
    {
      Registry(nodes[id := bag], if id in nodes then order else order + [id], edges)
    }

    /** `edges.get(p) ?? new Set()` followed by `.add(c)`. */
    function SetEdge(p: string, c: string): (r: Registry)
      ensures r.nodes == nodes && r.order == order
      ensures r.edges.Keys == edges.Keys + {p}
      ensures forall x :: x in r.edges[p] <==> x in ChildrenOf(p) || x == c
      ensures p !in edges ==> r.edges[p] == [c]
      ensures p in edges && c !in edges[p] ==> r.edges[p] == edges[p] + [c]
      ensures forall q :: q in edges && q != p ==> r.edges[q] == edges[q]
      ensures Valid() ==> r.Valid()
    {
      Registry(nodes, order, edges[p := AddChild(ChildrenOf(p), c)])
    }

    /** Adding the same edge a second time changes nothing. */
    lemma SetEdgeIdempotent(p: string, c: string)
      ensures SetEdge(p, c).SetEdge(p, c) == SetEdge(p, c)
    {
    }
  }

  const Empty := Registry(map[], [], map[])

  lemma EmptyValid()
    ensures Empty.Valid()
  {
  }

  /** `edges.get(p).has(c)` */
  predicate HasEdge(edges: map<string, seq<string>>, p: string, c: string) {
    p in edges && c in edges[p]
  }

  /** The ids among `ids` whose bag satisfies `pred`, in the same order. */
  function Matching(nodes: map<string, Bag>, ids: seq<string>, pred: Bag -> bool): seq<string>
    requires forall id :: id in ids ==> id in nodes
  {
    if ids == [] then []
    else
      var last := ids[|ids| - 1];
      Matching(nodes, ids[..|ids| - 1], pred) + if pred(nodes[last]) then [last] else []
  }

  /** `Matching` keeps exactly the ids whose bag satisfies `pred`, each once
      when the ids are distinct. */
  lemma {:induction false} MatchingSpec(nodes: map<string, Bag>, ids: seq<string>, pred: Bag -> bool)
    requires forall id :: id in ids ==> id in nodes
    ensures forall id :: id in Matching(nodes, ids, pred) <==> id in ids && pred(nodes[id])
    ensures Distinct(ids) ==> Distinct(Matching(nodes, ids, pred))
  {
    if ids != [] {
      var init, last := ids[..|ids| - 1], ids[|ids| - 1];
      assert ids == init + [last];
      MatchingSpec(nodes, init, pred);
    }
  }

  /** Visiting one more id appends it exactly when its bag satisfies `pred`. */
  lemma MatchingSnoc(nodes: map<string, Bag>, ids: seq<string>, i: nat, pred: Bag -> bool)
    requires i < |ids| && forall id :: id in ids ==> id in nodes
    ensures Matching(nodes, ids[..i + 1], pred) ==
            Matching(nodes, ids[..i], pred) + if pred(nodes[ids[i]]) then [ids[i]] else []
  {
    assert ids[..i + 1][..i] == ids[..i];
  }
}
