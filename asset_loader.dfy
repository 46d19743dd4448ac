/** The loader `buildGraph` (company-assets-page.tsx): registers every
    location, then every asset, as a node tagged with its kind, and links it
    under its `parentId`, creating an empty placeholder for a parent not seen
    yet. `Load` is the same process as a fold over registry values;
    `BuildGraph` runs it on a `Graph` object. */
module AssetLoader {
  import opened Wrappers
  import opened Attributes
  import opened Registries
  import opened Hierarchy
  import opened TreeOrder
  import opened Graphs

  /** A location or asset record as fetched: its `id` and its other fields
      (`name`, `parentId`, `sensorId`, ...; an absent or null field is a
      missing key). */
  datatype Record = Record(id: string, fields: Bag)

  /** The `type` attribute the loader adds. */
  function Kind(r: Record, asset: bool): string {
    if !asset then "location" else if Truthy(r.fields, "sensorId") then "component" else "asset"
  }

  /** `{ ...r, type: Kind(r) }` */
  function Tagged(r: Record, asset: bool): Bag {
    r.fields["id" := r.id]["type" := Kind(r, asset)]
  }

  /** The stored bag is the record's fields, its `id`, and `type`. */
  lemma TaggedSpec(r: Record, asset: bool)
    ensures Tagged(r, asset).Keys == r.fields.Keys + {"id", "type"}
    ensures Tagged(r, asset)["id"] == r.id && Tagged(r, asset)["type"] == Kind(r, asset)
    ensures forall k :: k in r.fields && k != "id" && k != "type" ==> Tagged(r, asset)[k] == r.fields[k]
  {
  }

  /** The record has a truthy `parentId`. */
  predicate HasParentId(r: Record) {
    HasParent(r.fields)
  }

  /** The record names `id`, as its own id or as its parent. */
  predicate Mentions(r: Record, id: string) {
    r.id == id || (HasParentId(r) && ParentOf(r.fields) == id)
  }

  /** The record links `c` under `p`. */
  predicate Links(r: Record, p: string, c: string) {
    HasParentId(r) && ParentOf(r.fields) == p && r.id == c
  }

  /** One iteration of either loop of `buildGraph`. */
  function LoadRecord(reg: Registry, r: Record, asset: bool): (next: Registry)
    ensures reg.Valid() ==> next.Valid()
  {
    var withNode := reg.SetNode(r.id, Tagged(r, asset));
    if HasParentId(r) then
      var parent := ParentOf(r.fields);
      var withParent := if parent in withNode.nodes then withNode else withNode.SetNode(parent, map[]);
      withParent.SetEdge(parent, r.id)
    else withNode
  }

  /** The record's id gets its tagged bag; its parent, if new, an empty
      placeholder; every other bag is kept. */
  lemma LoadRecordNodes(reg: Registry, r: Record, asset: bool)
    ensures forall id :: id in LoadRecord(reg, r, asset).nodes <==> id in reg.nodes || Mentions(r, id)
    ensures LoadRecord(reg, r, asset).nodes[r.id] == Tagged(r, asset)
    ensures forall id :: id in reg.nodes && id != r.id ==> LoadRecord(reg, r, asset).nodes[id] == reg.nodes[id]
    ensures forall id :: id in LoadRecord(reg, r, asset).nodes && id !in reg.nodes && id != r.id ==>
              LoadRecord(reg, r, asset).nodes[id] == map[]
  {
    LoadRecordBags(reg, r, asset);
    PlacedSpec(reg.nodes, r, Tagged(r, asset));
  }

  /** The bags after a record whose own bag is `bag`: `bag` under its id, and
      an empty placeholder under a parent id not registered yet. */
  function Placed(nodes: map<string, Bag>, r: Record, bag: Bag): map<string, Bag> {
    var withNode := nodes[r.id := bag];
    if HasParentId(r) && ParentOf(r.fields) !in withNode then withNode[ParentOf(r.fields) := map[]] else withNode
  }

  lemma LoadRecordBags(reg: Registry, r: Record, asset: bool)
    ensures LoadRecord(reg, r, asset).nodes == Placed(reg.nodes, r, Tagged(r, asset))
  {
  }

  lemma PlacedSpec(nodes: map<string, Bag>, r: Record, bag: Bag)
    ensures forall id :: id in Placed(nodes, r, bag) <==> id in nodes || Mentions(r, id)
    ensures Placed(nodes, r, bag)[r.id] == bag
    ensures forall id :: id in nodes && id != r.id ==> Placed(nodes, r, bag)[id] == nodes[id]
    ensures forall id :: id in Placed(nodes, r, bag) && id !in nodes && id != r.id ==> Placed(nodes, r, bag)[id] == map[]
  {
  }

  /** The record adds the edge `parentId -> id` when it has a `parentId`,
      and no other edge. */
  lemma LoadRecordEdges(reg: Registry, r: Record, asset: bool)
    ensures forall p, c :: HasEdge(LoadRecord(reg, r, asset).edges, p, c) <==> HasEdge(reg.edges, p, c) || Links(r, p, c)
  {
    var next := LoadRecord(reg, r, asset);
    var withNode := reg.SetNode(r.id, Tagged(r, asset));
    if HasParentId(r) {
      var parent := ParentOf(r.fields);
      var withParent := if parent in withNode.nodes then withNode else withNode.SetNode(parent, map[]);
      assert withParent.edges == reg.edges;
      assert next == withParent.SetEdge(parent, r.id);
      forall p, c ensures HasEdge(next.edges, p, c) <==> HasEdge(reg.edges, p, c) || Links(r, p, c) {
        if p == parent {
          assert c in next.edges[p] <==> c in withParent.ChildrenOf(p) || c == r.id;
        } else {
          assert p in next.edges <==> p in reg.edges;
        }
      }
    } else {
      assert next.edges == reg.edges;
    }
  }

  /** One loop of `buildGraph` over `rs`, starting from `reg`. */
  function Load(reg: Registry, rs: seq<Record>, asset: bool): (next: Registry)
    ensures reg.Valid() ==> next.Valid()
  {
    if rs == [] then reg
    else LoadRecord(Load(reg, rs[..|rs| - 1], asset), rs[|rs| - 1], asset)
  }

  /** Loading one more record is one more `LoadRecord`. */
  lemma LoadSnoc(reg: Registry, rs: seq<Record>, asset: bool, i: nat)
    requires i < |rs|
    ensures Load(reg, rs[..i + 1], asset) == LoadRecord(Load(reg, rs[..i], asset), rs[i], asset)
  {
    assert rs[..i + 1][..i] == rs[..i];
  }

  /** The registries `buildGraph(locations, assets)` fills. */
  function Loaded(locations: seq<Record>, assets: seq<Record>): (reg: Registry)
    ensures reg.Valid()
  {
    EmptyValid();
    Load(Load(Empty, locations, false), assets, true)
  }

  /** The body of either loop of `buildGraph`, on the graph object. */
  method Register(graph: Graph, r: Record, asset: bool)
    requires graph.Valid()
    modifies graph
    ensures graph.Valid()
    ensures graph.State() == LoadRecord(old(graph.State()), r, asset)
  {
    graph.SetNode(r.id, Some(Tagged(r, asset)));
    if HasParentId(r) {
      if !graph.HasNode(ParentOf(r.fields)) {
        graph.SetNode(ParentOf(r.fields), None);
      }
      graph.SetEdge(ParentOf(r.fields), r.id);
    }
  }

  /** Either loop of `buildGraph`: registers each record of `rs` in order. */
  method LoadAll(graph: Graph, rs: seq<Record>, asset: bool)
    requires graph.Valid()
    modifies graph
    ensures graph.Valid()
    ensures graph.State() == Load(old(graph.State()), rs, asset)
  {
    var i := 0;
    while i < |rs|
      invariant 0 <= i <= |rs|
      invariant graph.Valid()
      invariant graph.State() == Load(old(graph.State()), rs[..i], asset)
    {
      LoadSnoc(old(graph.State()), rs, asset, i);
      Register(graph, rs[i], asset);
      i := i + 1;
    }
    assert rs[..|rs|] == rs;
  }

  /** `buildGraph(locations, assets)` */
  method BuildGraph(locations: seq<Record>, assets: seq<Record>) returns (graph: Graph)
    ensures fresh(graph) && graph.Valid()
    ensures graph.State() == Loaded(locations, assets)
  {
    graph := new Graph();
    EmptyValid();
    LoadAll(graph, locations, false);
    LoadAll(graph, assets, true);
  }

  // ---------------------------------------------------------------------
  // Properties of one loop

  /** The registered ids after a loop: those registered before plus every
      id and every parent id of the records. */
  lemma {:induction false} LoadNodes(reg: Registry, rs: seq<Record>, asset: bool, id: string)
    ensures id in Load(reg, rs, asset).nodes <==> id in reg.nodes || exists r :: r in rs && Mentions(r, id)
  {
    if rs != [] {
      var init := rs[..|rs| - 1];
      assert rs == init + [rs[|rs| - 1]];
      LoadNodes(reg, init, asset, id);
      LoadRecordNodes(Load(reg, init, asset), rs[|rs| - 1], asset);
    }
  }

  /** The edges after a loop: those before plus `parentId -> id` for every
      record with a `parentId`; nothing else. */
  lemma {:induction false} LoadEdges(reg: Registry, rs: seq<Record>, asset: bool, p: string, c: string)
    ensures HasEdge(Load(reg, rs, asset).edges, p, c) <==> HasEdge(reg.edges, p, c) || exists r :: r in rs && Links(r, p, c)
  {
    if rs != [] {
      var init := rs[..|rs| - 1];
      assert rs == init + [rs[|rs| - 1]];
      LoadEdges(reg, init, asset, p, c);
      LoadRecordEdges(Load(reg, init, asset), rs[|rs| - 1], asset);
    }
  }

  /** An id that no record carries as its own id keeps its bag when it was
      registered (a placeholder never overwrites), and is an empty
      placeholder when it was not. */
  lemma {:induction false} LoadForeign(reg: Registry, rs: seq<Record>, asset: bool, id: string)
    requires forall r :: r in rs ==> r.id != id
    ensures id in reg.nodes ==> id in Load(reg, rs, asset).nodes && Load(reg, rs, asset).nodes[id] == reg.nodes[id]
    ensures id in Load(reg, rs, asset).nodes && id !in reg.nodes ==> Load(reg, rs, asset).nodes[id] == map[]
  {
    if rs != [] {
      var init := rs[..|rs| - 1];
      assert rs[|rs| - 1] in rs;
      assert forall r :: r in init ==> r in rs;
      LoadForeign(reg, init, asset, id);
      LoadRecordNodes(Load(reg, init, asset), rs[|rs| - 1], asset);
    }
  }

  /** The last record carrying an id decides that id's bag, whatever was
      registered under it before (in particular a placeholder). */
  lemma {:induction false} LoadLast(reg: Registry, rs: seq<Record>, asset: bool, k: nat)
    requires k < |rs| && forall j :: k < j < |rs| ==> rs[j].id != rs[k].id
    ensures rs[k].id in Load(reg, rs, asset).nodes
    ensures Load(reg, rs, asset).nodes[rs[k].id] == Tagged(rs[k], asset)
  {
    var init := rs[..|rs| - 1];
    LoadRecordNodes(Load(reg, init, asset), rs[|rs| - 1], asset);
    if k < |rs| - 1 {
      LoadLast(reg, init, asset, k);
    }
  }

  // ---------------------------------------------------------------------
  // Properties of buildGraph

  /** Every id and every parent id of a record is registered, and nothing else. */
  lemma LoadedNodes(locations: seq<Record>, assets: seq<Record>, id: string)
    ensures id in Loaded(locations, assets).nodes <==> exists r :: r in locations + assets && Mentions(r, id)
  {
    LoadNodes(Empty, locations, false, id);
    LoadNodes(Load(Empty, locations, false), assets, true, id);
    assert forall r :: r in locations + assets <==> r in locations || r in assets;
  }

  /** `parentId -> id` is an edge exactly when some record with that id has
      that `parentId`: records without `parentId` add no edge. */
  lemma LoadedEdges(locations: seq<Record>, assets: seq<Record>, p: string, c: string)
    ensures HasEdge(Loaded(locations, assets).edges, p, c) <==> exists r :: r in locations + assets && Links(r, p, c)
  {
    LoadEdges(Empty, locations, false, p, c);
    LoadEdges(Load(Empty, locations, false), assets, true, p, c);
    assert forall r :: r in locations + assets <==> r in locations || r in assets;
  }

  /** Both ends of every edge are registered. */
  lemma LoadedClosed(locations: seq<Record>, assets: seq<Record>, p: string, c: string)
    requires HasEdge(Loaded(locations, assets).edges, p, c)
    ensures p in Loaded(locations, assets).nodes && c in Loaded(locations, assets).nodes
  {
    LoadedEdges(locations, assets, p, c);
    var r :| r in locations + assets && Links(r, p, c);
    assert Mentions(r, p) && Mentions(r, c);
    LoadedNodes(locations, assets, p);
    LoadedNodes(locations, assets, c);
  }

  /** A location whose id no later location and no asset carries is
      registered with its own fields and `type = "location"`. */
  lemma LoadedLocation(locations: seq<Record>, assets: seq<Record>, k: nat)
    requires k < |locations| && forall j :: k < j < |locations| ==> locations[j].id != locations[k].id
    requires forall r :: r in assets ==> r.id != locations[k].id
    ensures locations[k].id in Loaded(locations, assets).nodes
    ensures Loaded(locations, assets).nodes[locations[k].id] == Tagged(locations[k], false)
    ensures Loaded(locations, assets).nodes[locations[k].id]["type"] == "location"
  {
    TaggedSpec(locations[k], false);
    LoadLast(Empty, locations, false, k);
    LoadForeign(Load(Empty, locations, false), assets, true, locations[k].id);
  }

  /** The last asset carrying an id decides its bag: its own fields and
      `type = "component"` when `sensorId` is set, `"asset"` otherwise. */
  lemma LoadedAsset(locations: seq<Record>, assets: seq<Record>, k: nat)
    requires k < |assets| && forall j :: k < j < |assets| ==> assets[j].id != assets[k].id
    ensures assets[k].id in Loaded(locations, assets).nodes
    ensures Loaded(locations, assets).nodes[assets[k].id] == Tagged(assets[k], true)
    ensures Loaded(locations, assets).nodes[assets[k].id]["type"] ==
            if Truthy(assets[k].fields, "sensorId") then "component" else "asset"
  {
    TaggedSpec(assets[k], true);
    LoadLast(Load(Empty, locations, false), assets, true, k);
  }

  /** An id that is only ever a parent is an empty placeholder. */
  lemma LoadedPlaceholder(locations: seq<Record>, assets: seq<Record>, id: string)
    requires forall r :: r in locations + assets ==> r.id != id
    requires id in Loaded(locations, assets).nodes
    ensures Loaded(locations, assets).nodes[id] == map[]
  {
    assert forall r :: r in locations ==> r in locations + assets;
    assert forall r :: r in assets ==> r in locations + assets;
    LoadForeign(Empty, locations, false, id);
    LoadForeign(Load(Empty, locations, false), assets, true, id);
  }

  // ---------------------------------------------------------------------
  // An example end to end: a location, an asset under it and a component
  // under the asset

  /** `plant` is a top-level location, `motor` an asset under it without a
      sensor, and `sensor` a component under `motor`; their ids differ. */
  predicate ExampleRecords(plant: Record, motor: Record, sensor: Record) {
    plant.id != motor.id && plant.id != sensor.id && motor.id != sensor.id &&
    !HasParentId(plant) &&
    HasParentId(motor) && ParentOf(motor.fields) == plant.id && !Truthy(motor.fields, "sensorId") &&
    HasParentId(sensor) && ParentOf(sensor.fields) == motor.id && Truthy(sensor.fields, "sensorId")
  }

  /** A new record under a registered parent that has no child set yet is
      appended to the order and becomes that parent's only child. */
  lemma LoadRecordNewChild(reg: Registry, r: Record, asset: bool)
    requires HasParentId(r) && ParentOf(r.fields) in reg.nodes && ParentOf(r.fields) !in reg.edges
    requires r.id !in reg.nodes
    ensures LoadRecord(reg, r, asset) ==
            Registry(reg.nodes[r.id := Tagged(r, asset)], reg.order + [r.id], reg.edges[ParentOf(r.fields) := [r.id]])
  {
  }

  /** A record under an unregistered parent: the record is appended, then
      the parent as an empty placeholder, and the record becomes the
      parent's only child. */
  lemma LoadRecordNewParent(reg: Registry, r: Record, asset: bool)
    requires HasParentId(r) && ParentOf(r.fields) != r.id
    requires r.id !in reg.nodes && ParentOf(r.fields) !in reg.nodes && ParentOf(r.fields) !in reg.edges
    ensures LoadRecord(reg, r, asset) ==
            Registry(reg.nodes[r.id := Tagged(r, asset)][ParentOf(r.fields) := map[]],
                     reg.order + [r.id, ParentOf(r.fields)], reg.edges[ParentOf(r.fields) := [r.id]])
  {
    assert reg.order + [r.id] + [ParentOf(r.fields)] == reg.order + [r.id, ParentOf(r.fields)];
  }

  /** A record whose id is already registered (say as a placeholder) replaces
      its bag in place, keeping its position in the order. */
  lemma LoadRecordReplaced(reg: Registry, r: Record, asset: bool)
    requires HasParentId(r) && ParentOf(r.fields) in reg.nodes && ParentOf(r.fields) !in reg.edges
    requires r.id in reg.nodes
    ensures LoadRecord(reg, r, asset) ==
            Registry(reg.nodes[r.id := Tagged(r, asset)], reg.order, reg.edges[ParentOf(r.fields) := [r.id]])
  {
  }

  /** The example after the location loop. */
  lemma ExampleLocations(plant: Record)
    requires !HasParentId(plant)
    ensures Load(Empty, [plant], false) == Registry(map[plant.id := Tagged(plant, false)], [plant.id], map[])
  {
    assert [plant][..0] == [];
    assert Load(Empty, [plant], false) == LoadRecord(Empty, plant, false);
  }

  /** The registries after the location loop and after the asset loop. */
  function ExamplePlant(plant: Record): Registry {
    Registry(map[plant.id := Tagged(plant, false)], [plant.id], map[])
  }

  function ExampleMotor(plant: Record, motor: Record): Registry {
    Registry(map[plant.id := Tagged(plant, false), motor.id := Tagged(motor, true)],
             [plant.id, motor.id], map[plant.id := [motor.id]])
  }

  function ExampleAll(plant: Record, motor: Record, sensor: Record): Registry {
    Registry(map[plant.id := Tagged(plant, false), motor.id := Tagged(motor, true), sensor.id := Tagged(sensor, true)],
             [plant.id, motor.id, sensor.id],
             map[plant.id := [motor.id], motor.id := [sensor.id]])
  }

  lemma ExampleMotorStep(plant: Record, motor: Record, sensor: Record)
    requires ExampleRecords(plant, motor, sensor)
    ensures Load(ExamplePlant(plant), [motor], true) == ExampleMotor(plant, motor)
  {
    assert [motor][..0] == [];
    assert Load(ExamplePlant(plant), [motor], true) == LoadRecord(ExamplePlant(plant), motor, true);
    LoadRecordNewChild(ExamplePlant(plant), motor, true);
  }

  lemma ExampleSensorStep(plant: Record, motor: Record, sensor: Record)
    requires ExampleRecords(plant, motor, sensor)
    ensures LoadRecord(ExampleMotor(plant, motor), sensor, true) == ExampleAll(plant, motor, sensor)
  {
    LoadRecordNewChild(ExampleMotor(plant, motor), sensor, true);
  }

  /** The registries of the example, each record tagged with its kind. */
  lemma ExampleLoaded(plant: Record, motor: Record, sensor: Record)
    requires ExampleRecords(plant, motor, sensor)
    ensures Loaded([plant], [motor, sensor]) == ExampleAll(plant, motor, sensor)
    ensures Kind(plant, false) == "location" && Kind(motor, true) == "asset" && Kind(sensor, true) == "component"
  {
    ExampleLocations(plant);
    ExampleMotorStep(plant, motor, sensor);
    ExampleSensorStep(plant, motor, sensor);
    assert [motor, sensor][..1] == [motor];
    assert Load(ExamplePlant(plant), [motor, sensor], true) ==
           LoadRecord(Load(ExamplePlant(plant), [motor], true), sensor, true);
  }

  /** The only root of the example is the location. */
  lemma ExampleRoots(plant: Record, motor: Record, sensor: Record)
    requires ExampleRecords(plant, motor, sensor)
    ensures RootIds(ExampleAll(plant, motor, sensor)) == [plant.id]
  {
    var reg := ExampleAll(plant, motor, sensor);
    var p, a, c := plant.id, motor.id, sensor.id;
    assert ChildIds(reg.edges) == {a, c} by {
      assert a in reg.edges[p] && c in reg.edges[a];
      forall x | x in ChildIds(reg.edges) ensures x == a || x == c {
        var q, y :| q in reg.edges && y in reg.edges[q] && x == y;
      }
    }
    assert [p, a, c][1..] == [a, c] && [a, c][1..] == [c] && [c][1..] == [];
    assert Without([c], {a, c}) == [];
    assert Without([a, c], {a, c}) == [];
  }

  /** The location's subtree holds the asset, which holds the component. */
  lemma ExampleSubtree(plant: Record, motor: Record, sensor: Record)
    requires ExampleRecords(plant, motor, sensor)
    ensures SubtreesWithin(ExampleAll(plant, motor, sensor), 2)
    ensures BuildSubtree(ExampleAll(plant, motor, sensor).nodes, ExampleAll(plant, motor, sensor).edges, plant.id, 2) ==
            Branch(Tagged(plant, false), [Branch(Tagged(motor, true), [Leaf(Tagged(sensor, true))])])
  {
    var reg := ExampleAll(plant, motor, sensor);
    var nodes, edges := reg.nodes, reg.edges;
    var p, a, c := plant.id, motor.id, sensor.id;
    assert Spans(nodes, edges, c, 0) && Spans(nodes, edges, c, 1) && Spans(nodes, edges, c, 2);
    assert Spans(nodes, edges, a, 1) && Spans(nodes, edges, a, 2);
    assert Spans(nodes, edges, p, 2);
    var component := BuildSubtree(nodes, edges, c, 0);
    assert component == Leaf(Tagged(sensor, true));
    var asset := BuildSubtree(nodes, edges, a, 1);
    assert asset == Branch(Tagged(motor, true), [component]);
  }

  /** `buildTree` on the example: one root, the location, holding the asset,
      holding the component. */
  lemma ExampleForest(plant: Record, motor: Record, sensor: Record)
    requires ExampleRecords(plant, motor, sensor)
    ensures SubtreesWithin(Loaded([plant], [motor, sensor]), 2)
    ensures AllSpan(Loaded([plant], [motor, sensor]).nodes, Loaded([plant], [motor, sensor]).edges,
                    RootIds(Loaded([plant], [motor, sensor])), 2)
    ensures Forest(Loaded([plant], [motor, sensor]), 2) ==
            [Branch(Tagged(plant, false), [Branch(Tagged(motor, true), [Leaf(Tagged(sensor, true))])])]
  {
    ExampleLoaded(plant, motor, sensor);
    ExampleRoots(plant, motor, sensor);
    ExampleSubtree(plant, motor, sensor);
    var reg := ExampleAll(plant, motor, sensor);
    WithinSpansRoots(reg, 2);
    var location := BuildSubtree(reg.nodes, reg.edges, plant.id, 2);
    assert Subtrees(reg.nodes, reg.edges, RootIds(reg), 2) == [location];
    assert SortedTrees([location]) == [location] by {
      assert [location][..0] == [];
      assert StableSort.Sorted([], Compare) == [];
    }
    assert Forest(reg, 2) == [location];
  }

  /** In the example the walk up from the asset reaches the location. */
  lemma ExampleChains(plant: Record, motor: Record, sensor: Record)
    requires ExampleRecords(plant, motor, sensor)
    ensures ChainsEnd(ExampleAll(plant, motor, sensor).nodes, 2)
    ensures FindNodeRoot(ExampleAll(plant, motor, sensor).nodes, motor.id, 2) == Some(plant.id)
  {
    var nodes := ExampleAll(plant, motor, sensor).nodes;
    var p, a, c := plant.id, motor.id, sensor.id;
    assert "parentId" != "id" && "parentId" != "type";
    assert HasParent(nodes[c]) && ParentOf(nodes[c]) == a;
    assert HasParent(nodes[a]) && ParentOf(nodes[a]) == p;
    assert !HasParent(nodes[p]);
    assert ChainEnds(nodes, p, 0) && ChainEnds(nodes, p, 1) && ChainEnds(nodes, p, 2);
    assert ChainEnds(nodes, a, 1) && ChainEnds(nodes, a, 2);
    assert ChainEnds(nodes, c, 2);
  }

  /** A search that matched only the component selects the location. */
  lemma ExampleSelection(plant: Record, motor: Record, sensor: Record)
    requires ExampleRecords(plant, motor, sensor)
    ensures ChainsEnd(ExampleAll(plant, motor, sensor).nodes, 2)
    ensures BacktracedRoots(ExampleAll(plant, motor, sensor).nodes,
                            NodeMap([sensor.id], map[sensor.id := Tagged(sensor, true)]), [sensor.id], 2) == [plant.id]
  {
    ExampleChains(plant, motor, sensor);
    var nodes := ExampleAll(plant, motor, sensor).nodes;
    var bag := Tagged(sensor, true);
    var m := NodeMap([sensor.id], map[sensor.id := bag]);
    TaggedSpec(sensor, true);
    assert "parentId" != "id" && "parentId" != "type";
    assert HasParent(bag) && ParentOf(bag) == motor.id;
    assert [sensor.id][..0] == [];
    assert BacktracedRoots(nodes, m, [sensor.id], 2) == BacktraceStep(nodes, [], sensor.id, bag, 2);
  }

  /** `buildBacktracedTree` on the example, for a search that matched only
      the component: the whole tree of its root, the location. */
  lemma ExampleBacktraced(plant: Record, motor: Record, sensor: Record)
    requires ExampleRecords(plant, motor, sensor)
    ensures ChainsEnd(Loaded([plant], [motor, sensor]).nodes, 2)
    ensures SubtreesWithin(Loaded([plant], [motor, sensor]), 2)
    ensures AllSpan(Loaded([plant], [motor, sensor]).nodes, Loaded([plant], [motor, sensor]).edges,
                    RootIds(Loaded([plant], [motor, sensor])), 2)
    ensures BacktracedForest(Loaded([plant], [motor, sensor]), NodeMap([sensor.id], map[sensor.id := Tagged(sensor, true)]), 2, 2) ==
            Forest(Loaded([plant], [motor, sensor]), 2)
  {
    ExampleLoaded(plant, motor, sensor);
    ExampleForest(plant, motor, sensor);
    ExampleSelection(plant, motor, sensor);
    ExampleRoots(plant, motor, sensor);
  }

  // ---------------------------------------------------------------------
  // A second example: a `parentId` cycle that no root reaches

  /** `top` is a top-level location; `left` and `right` are locations that
      name each other as parent; their ids differ. */
  predicate CycleRecords(top: Record, left: Record, right: Record) {
    top.id != left.id && top.id != right.id && left.id != right.id &&
    !HasParentId(top) &&
    HasParentId(left) && ParentOf(left.fields) == right.id &&
    HasParentId(right) && ParentOf(right.fields) == left.id
  }

  function CycleAll(top: Record, left: Record, right: Record): Registry {
    Registry(map[top.id := Tagged(top, false), left.id := Tagged(left, false), right.id := Tagged(right, false)],
             [top.id, left.id, right.id],
             map[right.id := [left.id], left.id := [right.id]])
  }

  function CycleLeft(top: Record, left: Record, right: Record): Registry {
    Registry(map[top.id := Tagged(top, false), left.id := Tagged(left, false), right.id := map[]],
             [top.id, left.id, right.id], map[right.id := [left.id]])
  }

  /** Loading `left` registers `right` as an empty placeholder after it. */
  lemma CycleLeftStep(top: Record, left: Record, right: Record)
    requires CycleRecords(top, left, right)
    ensures Load(Empty, [top, left], false) == CycleLeft(top, left, right)
  {
    ExampleLocations(top);
    var one := ExamplePlant(top);
    assert [top, left][..1] == [top];
    assert Load(Empty, [top, left], false) == LoadRecord(one, left, false);
    LoadRecordNewParent(one, left, false);
    var two := CycleLeft(top, left, right);
    assert one.nodes[left.id := Tagged(left, false)][right.id := map[]] == two.nodes;
    assert one.order + [left.id, right.id] == two.order;
    assert one.edges[right.id := [left.id]] == two.edges;
  }

  /** Loading `right` replaces the placeholder in place. */
  lemma CycleRightStep(top: Record, left: Record, right: Record)
    requires CycleRecords(top, left, right)
    ensures LoadRecord(CycleLeft(top, left, right), right, false) == CycleAll(top, left, right)
  {
    LoadRecordReplaced(CycleLeft(top, left, right), right, false);
  }

  /** `buildGraph([top, left, right], [])`. */
  lemma CycleLoaded(top: Record, left: Record, right: Record)
    requires CycleRecords(top, left, right)
    ensures Loaded([top, left, right], []) == CycleAll(top, left, right)
  {
    CycleLeftStep(top, left, right);
    CycleRightStep(top, left, right);
    assert [top, left, right][..2] == [top, left];
    assert Load(Empty, [top, left, right], false) == LoadRecord(Load(Empty, [top, left], false), right, false);
  }

  /** The only root of the cyclic example is `top`. */
  lemma CycleRoots(top: Record, left: Record, right: Record)
    requires CycleRecords(top, left, right)
    ensures RootIds(CycleAll(top, left, right)) == [top.id]
  {
    var reg := CycleAll(top, left, right);
    var t, l, r := top.id, left.id, right.id;
    assert ChildIds(reg.edges) == {l, r} by {
      assert l in reg.edges[r] && r in reg.edges[l];
      forall x | x in ChildIds(reg.edges) ensures x == l || x == r {
        var q, y :| q in reg.edges && y in reg.edges[q] && x == y;
      }
    }
    assert [t, l, r][1..] == [l, r] && [l, r][1..] == [r] && [r][1..] == [];
    assert Without([r], {l, r}) == [];
    assert Without([l, r], {l, r}) == [];
  }

  /** `buildTree` on the cyclic example terminates in the source and returns
      the top location's tree alone: the cycle hangs below no root. The
      model admits the input, because only the roots' subtrees must be
      finite, whereas no bound on every registered subtree exists. */
  lemma CycleForest(top: Record, left: Record, right: Record)
    requires CycleRecords(top, left, right)
    ensures RootIds(Loaded([top, left, right], [])) == [top.id]
    ensures AllSpan(Loaded([top, left, right], []).nodes, Loaded([top, left, right], []).edges,
                    RootIds(Loaded([top, left, right], [])), 0)
    ensures Forest(Loaded([top, left, right], []), 0) == [Leaf(Tagged(top, false))]
    ensures forall h :: !SubtreesWithin(Loaded([top, left, right], []), h)
  {
    CycleLoaded(top, left, right);
    CycleRoots(top, left, right);
    var reg := CycleAll(top, left, right);
    assert Spans(reg.nodes, reg.edges, top.id, 0);
    var leaf := BuildSubtree(reg.nodes, reg.edges, top.id, 0);
    assert leaf == Leaf(Tagged(top, false));
    assert Subtrees(reg.nodes, reg.edges, [top.id], 0) == [leaf];
    assert SortedTrees([leaf]) == [leaf] by {
      assert [leaf][..0] == [];
      assert StableSort.Sorted([], Compare) == [];
    }
    forall h ensures !SubtreesWithin(reg, h) {
      TwoCycleNeverSpans(reg.nodes, reg.edges, left.id, right.id, h);
    }
  }
}
