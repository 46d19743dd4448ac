# Hierarchy graph of the company assets page, in Dafny

This project models the engine that turns the flat lists of locations and
assets into the forest the assets page displays. It covers two parts:

- the `Graph` class of `src/datastructures/graph.ts` with its helper
  `sortTree`;
- the loader `buildGraph` of
  `src/pages/company-assets-page/company-assets-page.tsx`.

`Graph` keeps two registries:
- a node registry: id to attribute bag, in a JavaScript `Map`'s insertion
  order;
- an edge registry: parent id to an insertion-ordered set of child ids.

It offers:
- `hasNode`/`getNode`/`setNode`/`setEdge`;
- the upward root walk `findNodeRoot`;
- the flat filter `filterNodes`;
- the recursive `buildSubtree`;
- two forest builders: `buildTree` (every root, each with its whole subtree)
  and `buildBacktracedTree` (for a set of matched nodes, the whole tree of
  each matched node's root, each root once).

Both builders sort their top-level trees with `sortTree`: nodes with truthy
`children` first, then by name in natural, case-insensitive order.
`buildGraph` registers every location and then every asset, each tagged with
a `type`. It links each record under its `parentId` and creates an empty
placeholder for a parent that has not been seen yet.

Modules, one concern each:

| module | file | what it holds |
|---|---|---|
| `Wrappers` | wrappers.dfy | `Option` |
| `Attributes` | attributes.dfy | attribute bags (`map<string, string>`), JavaScript truthiness of `parentId`/`sensorId`, the `name` the collator sees |
| `Registries` | registries.dfy | the two registries as a value (`Registry`), `Map.set`/`Set.add` on them, the insertion-ordered map value `NodeMap`, the filter's specification `Matching` |
| `Hierarchy` | hierarchy.dfy | the pure functions of the two registries: `FindNodeRoot`, `BuildSubtree`, the roots of `buildTree`, the root selection of `buildBacktracedTree`, with their lemmas |
| `StableSort` | stable_sort.dfy | `Array.prototype.sort`, which must be stable: a comparator-generic insertion sort, as a function and as an in-place array method |
| `TreeOrder` | tree_order.dfy | the `sortTree` comparator and `SortTree` on an array |
| `Graphs` | graph.dfy | `class Graph` with fields `nodes`, `order`, `edges` and its methods; the forest specifications `Forest` and `BacktracedForest` |
| `AssetLoader` | asset_loader.dfy | `BuildGraph` on a `Graph` object, the same loop as a fold `Load`, its lemmas, and a worked example |

The class's state is also available as a value through `Graph.State()`. Each
method is proved against a function of the old and new state:
- `SetNode`/`SetEdge` against `Registry.SetNode`/`Registry.SetEdge`;
- `FilterNodes` against `Matching`;
- `BuildTree` against `Forest`;
- `BuildBacktracedTree` against `BacktracedForest`;
- `BuildGraph` against `Loaded`.

The properties are then lemmas about those functions.

JavaScript facts the model makes explicit:
- A re-set `Map` key keeps its position. The node order is a separate
  sequence, `order`.
- A `Set` is a duplicate-free sequence in insertion order.
- `!x` on an attribute means absent or the empty string.
- `structuredClone` becomes value semantics: a `Tree` is a value, so no
  returned tree can alias a stored bag.
- A missing `name` reaches the collator as the string `"undefined"`.
- `node.children` is truthy for a built node with children (an array, even
  an empty one) and for a leaf whose own bag has a truthy `children`
  attribute (`HasChildren`).

Termination of the two recursions is stated with ghost bounds:
- `ChainEnds`/`ChainsEnd`: every `parentId` walk stops within `n` steps;
- `Spans`/`AllSpan`: the subtrees below the given ids have height at most
  `h` and only registered ids. `buildTree` needs this only for its roots;
  `SubtreesWithin` states it for every registered id.

The source does not check either property; the model makes them
preconditions (see "Left out").

Two behaviours of the code that a reader might not expect:
- **Nested children are not sorted.** Only the top-level array of a forest
  is sorted (graph.ts:91, :125). `buildSubtree` keeps child-set order
  (graph.ts:64), which is what `BuildSubtree` and `BuildSubtreeChildren`
  state.
- **A child can have several parents.** `buildGraph` adds `parentId -> id`
  for every record (company-assets-page.tsx:139, :154), so two records with
  one id and different parents leave that id in two child sets.
  `LoadedEdges` states this exactly.

## Model

| member | source | states |
|---|---|---|
| `Graphs.Graph.constructor` | src/datastructures/graph.ts:1-8 | a new graph has empty registries (in the valid shape) |
| `Graphs.Graph.HasNode` | src/datastructures/graph.ts:10-12 | true exactly when the id is registered |
| `Graphs.Graph.GetNode` | src/datastructures/graph.ts:14-17 | absent exactly for an unregistered id, else the stored bag, as a value |
| `Graphs.Graph.SetNode` | src/datastructures/graph.ts:19-21 | the new state is `Registry.SetNode` of the old state with the bag, or an empty bag when none is given; afterwards `hasNode` holds and `getNode` returns that bag |
| `Graphs.Graph.SetEdge` | src/datastructures/graph.ts:23-29 | the new state is `Registry.SetEdge` of the old state: the child set is created when missing and the child added once |
| `Registries.Registry.SetNode` | src/datastructures/graph.ts:19-21 | the id maps to the bag and every other bag is unchanged; a new id is appended to the order and a re-set id keeps its place; edges unchanged; the registry shape is preserved |
| `Registries.Registry.SetEdge` | src/datastructures/graph.ts:23-29 | the parent's child set is its old members plus the child, appended at the end when new and created as `[child]` when missing; other child sets and the nodes are unchanged; shape preserved |
| `Registries.AddChild` | src/datastructures/graph.ts:28 | definition of `Set.add` on an ordered set; `Registry.SetEdge` and `SetEdgeIdempotent` state its effect |
| `Registries.Registry.SetEdgeIdempotent` | src/datastructures/graph.ts:28 | adding the same edge twice is the same as adding it once (`Set.add`) |
| `Registries.EmptyValid` | src/datastructures/graph.ts:2-3 | empty registries have the valid shape |
| `Graphs.Graph.FilterNodes` | src/datastructures/graph.ts:45-57 | the result lists, in registration order and each once, exactly the registered ids whose bag satisfies the predicate, each with its stored bag |
| `Registries.Matching` | src/datastructures/graph.ts:48-54 | definition of the filter loop on the registration order; its property is `MatchingSpec` |
| `Registries.MatchingSpec` | src/datastructures/graph.ts:48-54 | an id is kept exactly when it is listed and its bag satisfies the predicate; distinct ids stay distinct |
| `Hierarchy.FindNodeRoot` | src/datastructures/graph.ts:31-43 | an unregistered id gives nothing; an id without `parentId` is its own root; any answer is a registered id without `parentId` |
| `Hierarchy.FindNodeRootIsTopAncestor` | src/datastructures/graph.ts:31-43 | the walk answers `r` if and only if `r` is a registered ancestor-or-self of the id without `parentId` (both directions) |
| `Hierarchy.FindNodeRootIdempotent` | src/datastructures/graph.ts:38-40 | the root of a root is that root |
| `Hierarchy.FindNodeRootBoundIrrelevant` | src/datastructures/graph.ts:31-43 | the answer does not depend on which sufficient step bound is used |
| `Hierarchy.FindNodeRootNonEmpty` | src/datastructures/graph.ts:112-114 | a walk from a non-empty id never answers the empty string, so `!rootNodeId` rejects only a missing root |
| `Hierarchy.ChainEndsEverywhere` | src/datastructures/graph.ts:31-36 | when every walk from a registered id stops, so does a walk from any id |
| `Hierarchy.BuildSubtree` | src/datastructures/graph.ts:59-68 | the tree carries the node's stored bag and has `children` exactly when the edge registry has an entry for the id |
| `Hierarchy.BuildSubtreeChildren` | src/datastructures/graph.ts:61-65 | the children are one subtree per child id, in child-set order, unsorted |
| `Hierarchy.Subtrees` | src/datastructures/graph.ts:64 | definition of `ids.map(buildSubtree)`; its properties are `SubtreesMembers` and `FlattenSubtrees` |
| `Hierarchy.SubtreesMembers` | src/datastructures/graph.ts:64 | every tree of `ids.map(buildSubtree)` is the subtree of one of the ids |
| `Hierarchy.FlattenSubtree` | src/datastructures/graph.ts:59-68 | the bags of a subtree, in preorder, are exactly the stored bags of the ids reachable from its root through the edge registry, in child-set order, with nothing omitted or added |
| `Hierarchy.FlattenSubtrees` | src/datastructures/graph.ts:64 | the same for a sequence of sibling subtrees |
| `Hierarchy.Without` | src/datastructures/graph.ts:76-78 | deleting a set from an ordered set keeps exactly the other members, in order |
| `Hierarchy.WithoutWithout` | src/datastructures/graph.ts:75-79 | deleting one set and then another is deleting their union, so the deletion loop may visit the child sets in any order |
| `Hierarchy.WithoutDistinct` | src/datastructures/graph.ts:71 | deletion keeps a duplicate-free order duplicate-free |
| `Hierarchy.RootIds` | src/datastructures/graph.ts:71-81 | definition: the registration order with the union of the child sets deleted; its property is `RootIdsExact` |
| `Hierarchy.RootIdsExact` | src/datastructures/graph.ts:70-81 | the roots are exactly the registered ids in no child set, each once; an id in no child set is a root and a child is never a root |
| `Graphs.Graph.UnparentedIds` | src/datastructures/graph.ts:71-79 | the deletion loops leave exactly `RootIds` of the current state |
| `Graphs.Graph.SubtreesOf` | src/datastructures/graph.ts:83-89 | the loop collects the subtree of every root, in root order |
| `Graphs.Graph.BuildTree` | src/datastructures/graph.ts:70-94 | the result is `Forest` of the current state; only the roots' subtrees must be finite and registered |
| `Graphs.Forest` | src/datastructures/graph.ts:70-94 | definition: the roots' subtrees, in root order, then `SortedTrees`; its properties are `ForestSpec` |
| `Graphs.ForestSpec` | src/datastructures/graph.ts:70-94 | one tree per root: a permutation of the roots' full subtrees, each the subtree of a registered id in no child set; trees with truthy `children` before the others; an empty graph gives no trees |
| `Graphs.WithinSpansRoots` | src/datastructures/graph.ts:83-89 | when every registered subtree is bounded, so are the roots' subtrees, so `buildBacktracedTree`'s bound also suffices for `buildTree` |
| `Hierarchy.BacktraceStep` | src/datastructures/graph.ts:100-120 | definition of one iteration's effect on the keys of `treeMap`: skip a stored id, add an entry without `parentId`, else add the root of its parent unless missing or stored; `Visit` is proved against it |
| `Hierarchy.BacktracedRoots` | src/datastructures/graph.ts:99-121 | definition: `BacktraceStep` folded over the matched entries; its properties are `BacktracedRootsSound`, `BacktracedRootsComplete` and `BacktracedRootsRegistered` |
| `Hierarchy.BacktracedRootsSound` | src/datastructures/graph.ts:99-121 | each emitted root appears once and is selected by some matched entry: the entry itself when it has no `parentId`, else the root of its parent |
| `Hierarchy.BacktracedRootsComplete` | src/datastructures/graph.ts:99-121 | for distinct matched entries carrying their registered bags, every selected root is emitted |
| `Hierarchy.BacktracedRootsRegistered` | src/datastructures/graph.ts:104-120 | every emitted root is registered |
| `Graphs.Graph.Visit` | src/datastructures/graph.ts:100-120 | one iteration adds the root its entry selects, unless that root is already stored or missing, and stores that root's full subtree |
| `Graphs.Graph.BacktracedSubtrees` | src/datastructures/graph.ts:96-123 | the loop stores, in first-selection order, exactly the roots of `BacktracedRoots`, and `treeMap.values()` are their full subtrees |
| `Graphs.Graph.BuildBacktracedTree` | src/datastructures/graph.ts:96-128 | the result is `BacktracedForest` of the current state and the matched map |
| `Graphs.BacktracedForest` | src/datastructures/graph.ts:96-128 | definition: the subtrees of `BacktracedRoots`, then `SortedTrees`; its properties are `BacktracedForestSpec` |
| `Graphs.BacktracedForestSpec` | src/datastructures/graph.ts:96-128 | each root appears once; every tree is the full, unpruned subtree of a root selected by some matched entry; the forest is a permutation of the emitted roots' subtrees, one per root, and contains every emitted root's subtree; trees with truthy `children` first |
| `Graphs.SortedCopy` | src/datastructures/graph.ts:123-125 | `Array.from` followed by `sortTree` gives `SortedTrees` of the trees |
| `TreeOrder.HasChildren` | src/datastructures/graph.ts:138-142 | definition of truthy `node.children`: a built node with children, or a leaf whose bag has a truthy `children` attribute |
| `TreeOrder.Compare` | src/datastructures/graph.ts:137-147 | definition of the comparator: truthy `children` first, then the collator on the names; its property is `CompareConsistent`, and `SortedTreesSpec` states the order it induces |
| `TreeOrder.CompareNames` | src/datastructures/graph.ts:146 | definition of `collator.compare` in this model; its properties are `CompareTokenSeqsAntisymmetric` and `CompareTokenSeqsTransitive` |
| `TreeOrder.SortedTrees` | src/datastructures/graph.ts:137-147 | definition: `StableSort.Sorted` of the siblings with `Compare`; its properties are `SortedTreesSpec` and `SortedTreesMembers` |
| `TreeOrder.SortTree` | src/datastructures/graph.ts:131-148 | sorts the array in place into `SortedTrees` of its old contents |
| `TreeOrder.SortedTreesSpec` | src/datastructures/graph.ts:131-148 | the sort is a permutation; every tree with truthy `children` precedes every tree without; within a group the names are in collator order; trees that compare equal keep their input order |
| `TreeOrder.SortedTreesMembers` | src/datastructures/graph.ts:137-147 | sorting keeps exactly the trees it was given |
| `TreeOrder.CompareConsistent` | src/datastructures/graph.ts:137-147 | the comparator is antisymmetric and transitive, as `Array.prototype.sort` requires |
| `TreeOrder.CompareTokenSeqsAntisymmetric` | src/datastructures/graph.ts:132-135 | the name comparison is antisymmetric |
| `TreeOrder.CompareTokenSeqsTransitive` | src/datastructures/graph.ts:132-135 | the name comparison is transitive |
| `TreeOrder.DigitRun` | src/datastructures/graph.ts:133 | a maximal run of digits, which the numeric collator reads as one number |
| `TreeOrder.SortExample` | src/datastructures/graph.ts:137-147 | siblings `b2`, `B10` and `a-branch`, where only the last has children, sort to `a-branch`, `b2`, `B10` |
| `TreeOrder.SortExampleCompares` | src/datastructures/graph.ts:137-147 | the comparisons of that example: `b2` before `B10` by digit value, and `a-branch` before both because it has children |
| `StableSort.Insert` | src/datastructures/graph.ts:137 | definition of one insertion step; its properties are `InsertAt`, `InsertPermutes`, `InsertOrdered` and `InsertStable` |
| `StableSort.Sorted` | src/datastructures/graph.ts:137 | definition of the stable sort as repeated insertion; its properties are `SortedSpec` and `SortedStable` |
| `StableSort.SortInPlace` | src/datastructures/graph.ts:137 | the in-place insertion sort leaves `Sorted` of the old contents |
| `StableSort.InsertInPlace` | src/datastructures/graph.ts:137 | one pass inserts the next element into the sorted prefix and leaves the suffix unchanged |
| `StableSort.SortedSpec` | src/datastructures/graph.ts:137 | for a consistent comparator the sort is a permutation, of the same length, and ordered |
| `StableSort.SortedStable` | src/datastructures/graph.ts:137 | elements that compare equal keep their relative order |
| `StableSort.InsertAt` | src/datastructures/graph.ts:137 | where the insertion step puts the new element |
| `StableSort.InsertPermutes` | src/datastructures/graph.ts:137 | the insertion step adds exactly the new element |
| `StableSort.InsertOrdered` | src/datastructures/graph.ts:137 | the insertion step keeps an ordered sequence ordered |
| `StableSort.InsertStable` | src/datastructures/graph.ts:137 | the insertion step keeps the order among equal elements |
| `AssetLoader.BuildGraph` | src/pages/company-assets-page/company-assets-page.tsx:125-159 | returns a new graph whose state is `Loaded(locations, assets)` |
| `AssetLoader.LoadAll` | src/pages/company-assets-page/company-assets-page.tsx:128-141 | either loop leaves the state `Load` of the old state over the records |
| `AssetLoader.Register` | src/pages/company-assets-page/company-assets-page.tsx:128-140 | one loop body leaves the state `LoadRecord` of the old state |
| `AssetLoader.LoadRecord` | src/pages/company-assets-page/company-assets-page.tsx:128-140 | one record keeps the registry shape valid |
| `AssetLoader.Load` | src/pages/company-assets-page/company-assets-page.tsx:128-141 | a whole loop keeps the registry shape valid |
| `AssetLoader.Loaded` | src/pages/company-assets-page/company-assets-page.tsx:125-159 | the filled registries have the valid shape |
| `AssetLoader.Kind` | src/pages/company-assets-page/company-assets-page.tsx:129-132 | definition of the `type` tag: `"location"` in the first loop; in the second `"component"` when `sensorId` is truthy, `"asset"` otherwise; `LoadedLocation` and `LoadedAsset` state where it ends up |
| `AssetLoader.Tagged` | src/pages/company-assets-page/company-assets-page.tsx:129-132 | definition of `{ ...record, type }`; its property is `TaggedSpec` |
| `AssetLoader.TaggedSpec` | src/pages/company-assets-page/company-assets-page.tsx:129-132 | the stored bag is the record's fields plus its `id` and the `type` tag, with the other fields unchanged |
| `AssetLoader.LoadRecordNodes` | src/pages/company-assets-page/company-assets-page.tsx:128-140 | one record registers exactly its id and its parent id; its id gets the tagged bag, a new parent an empty placeholder, and every other bag is kept |
| `AssetLoader.LoadRecordEdges` | src/pages/company-assets-page/company-assets-page.tsx:134-140 | one record adds the edge `parentId -> id` when it has a `parentId`, and no other edge |
| `AssetLoader.LoadRecordNewChild` | src/pages/company-assets-page/company-assets-page.tsx:134-140 | a new record under a registered parent without children is appended and becomes that parent's only child |
| `AssetLoader.LoadRecordNewParent` | src/pages/company-assets-page/company-assets-page.tsx:128-140 | a new record under an unseen parent is appended, then the parent as an empty placeholder, and the record becomes its only child |
| `AssetLoader.LoadRecordReplaced` | src/pages/company-assets-page/company-assets-page.tsx:129-132 | a record with a `parentId` whose parent is registered and has no child set yet, and whose own id is already registered, replaces that bag, keeps its place in the order and becomes the parent's only child; for any record, `Registry.SetNode` and `LoadRecordNodes` give the replacement in general |
| `AssetLoader.LoadNodes` | src/pages/company-assets-page/company-assets-page.tsx:128-141 | after a loop the registered ids are the earlier ones plus every id and parent id of the records (both directions) |
| `AssetLoader.LoadEdges` | src/pages/company-assets-page/company-assets-page.tsx:128-141 | after a loop the edges are the earlier ones plus `parentId -> id` for every record with a `parentId` (both directions) |
| `AssetLoader.LoadForeign` | src/pages/company-assets-page/company-assets-page.tsx:134-137 | an id no record carries keeps its bag, since a placeholder never overwrites, and is an empty placeholder when it was new |
| `AssetLoader.LoadLast` | src/pages/company-assets-page/company-assets-page.tsx:129-132 | the last record with an id decides that id's bag, overwriting a placeholder |
| `AssetLoader.LoadedNodes` | src/pages/company-assets-page/company-assets-page.tsx:125-159 | an id is registered if and only if some location or asset has it as its id or parent id |
| `AssetLoader.LoadedEdges` | src/pages/company-assets-page/company-assets-page.tsx:125-159 | `p -> c` is an edge if and only if some record with id `c` has `parentId` `p` |
| `AssetLoader.LoadedClosed` | src/pages/company-assets-page/company-assets-page.tsx:134-155 | both ends of every edge are registered |
| `AssetLoader.LoadedLocation` | src/pages/company-assets-page/company-assets-page.tsx:128-132 | a location whose id no later record carries is stored with its fields and `type = "location"` |
| `AssetLoader.LoadedAsset` | src/pages/company-assets-page/company-assets-page.tsx:143-147 | the last asset with an id is stored with its fields and `type = "component"` when `sensorId` is truthy, `"asset"` otherwise |
| `AssetLoader.LoadedPlaceholder` | src/pages/company-assets-page/company-assets-page.tsx:135-137 | an id that is only ever a parent is an empty placeholder |
| `AssetLoader.ExampleLocations` | src/pages/company-assets-page/company-assets-page.tsx:128-141 | example: one top-level location gives one node, one order entry and no edges |
| `AssetLoader.ExampleMotorStep` | src/pages/company-assets-page/company-assets-page.tsx:143-156 | example: an asset under the location is registered and linked |
| `AssetLoader.ExampleSensorStep` | src/pages/company-assets-page/company-assets-page.tsx:143-156 | example: a component under the asset is registered and linked |
| `AssetLoader.ExampleLoaded` | src/pages/company-assets-page/company-assets-page.tsx:125-159 | example: the registries after `buildGraph`, with kinds location, asset and component |
| `AssetLoader.ExampleRoots` | src/datastructures/graph.ts:70-81 | example: the location is the only root |
| `AssetLoader.ExampleSubtree` | src/datastructures/graph.ts:59-68 | example: the location's subtree holds the asset, which holds the component |
| `AssetLoader.ExampleForest` | src/datastructures/graph.ts:70-94 | example: `buildTree` gives that one tree |
| `AssetLoader.ExampleChains` | src/datastructures/graph.ts:31-43 | example: the walk from the asset reaches the location |
| `AssetLoader.ExampleSelection` | src/datastructures/graph.ts:99-121 | example: matching only the component selects the location |
| `AssetLoader.ExampleBacktraced` | src/datastructures/graph.ts:96-128 | example: `buildBacktracedTree` on the component alone gives the whole forest, the location's full tree |
| `AssetLoader.CycleLeftStep` | src/pages/company-assets-page/company-assets-page.tsx:128-140 | example: a location under an unseen parent registers that parent as a placeholder |
| `AssetLoader.CycleRightStep` | src/pages/company-assets-page/company-assets-page.tsx:128-140 | example: the placeholder's own record replaces it in place and links back, closing a cycle |
| `AssetLoader.CycleLoaded` | src/pages/company-assets-page/company-assets-page.tsx:125-159 | example: the registries `buildGraph` leaves for a top-level location plus two locations that name each other as parent |
| `AssetLoader.CycleRoots` | src/datastructures/graph.ts:70-81 | example: the top-level location is the only root; the cycle has none |
| `AssetLoader.CycleForest` | src/datastructures/graph.ts:70-94 | example: `buildTree` admits the cyclic input and returns the top-level location alone, while no bound covers every registered subtree |
| `Hierarchy.TwoCycleNeverSpans` | src/datastructures/graph.ts:59-68 | two ids that are each other's child have no finite subtree, so `buildSubtree` on either recurses until the call stack overflows (`RangeError`) |

## Left out

- The React components, the data fetching, routing and URL state of the page: presentation glue outside the graph engine. Only `buildGraph` of company-assets-page.tsx is modelled.
- The `bind` in the constructor (graph.ts:7) only preserves `this` for `map(this.buildSubtree)`; it has no counterpart in Dafny.
- `Intl.Collator("en-US", { numeric: true, sensitivity: "base" })` is a simplified stand-in: ASCII case folding, each maximal digit run compared by value, other characters by code point. Locale tables, accents and Unicode folding are not modelled.
- Attribute values are strings, and `null`/`undefined` is an absent key. The engine inspects `parentId`, `sensorId`, `name` and `children`. Other value types of the fetched records are not modelled.
- TreeOrder.CompareNames: a `name` that is `null` is an absent key, so it compares as `"undefined"`; the collator would see `"null"`.
- Hierarchy.BuildSubtree: a built node's bag keeps any `children` attribute of its own next to the child trees; the source overwrites that attribute with the array. Only its truthiness is read (`HasChildren`), and a built node is truthy either way.
- A fetched record is `Record(id, fields)`, with its `id` kept apart from its other fields. The stored bag puts `id` back, as `{ ...record }` does.
- Cyclic `parentId` chains: the source does not detect them, and `findNodeRoot` recurses until the call stack overflows (`RangeError`); its tail call at graph.ts:42 does not run in constant stack. `FindNodeRoot` and the methods using it require `ChainEnds`/`ChainsEnd` with a ghost step bound instead. A very deep acyclic chain, or a very deep subtree, overflows the stack the same way in the source, while the model returns a value: stack depth is not modelled.
- Cyclic edges, and child ids that are not registered: on a cycle `buildSubtree` recurses inside `map` (graph.ts:64) until the call stack overflows (`RangeError`). An unregistered child id puts `undefined` into `children`, and an unregistered id that has its own child set makes graph.ts:64 throw a `TypeError` (`undefined.children = …`). `BuildSubtree` requires `Spans` with a ghost height bound instead. `buildGraph` never leaves a child unregistered (`LoadedClosed`).
- Graphs.Graph.BuildTree: requires `AllSpan` of the roots, that is, finite registered subtrees below the roots only. A cycle that no root reaches is dropped, as in the source (`CycleForest`). A cycle below a root, which two records with one id and different parents can create, makes the source overflow the call stack; the model excludes it. That `buildGraph` output meets this requirement is not proved.
- Graphs.Graph.BuildBacktracedTree: requires `SubtreesWithin` and `ChainsEnd` for the whole graph, because the matched map may select any registered root.
- Graphs.Graph.BacktracedSubtrees: a matched entry without `parentId` must be registered. The source would store `undefined` as its tree; the model requires the entry to be registered, as every entry of a `filterNodes` result is.
- Graphs.Graph.UnparentedIds: the source visits the child sets in the edge map's insertion order; the model picks them in any order. The result is the same either way (`WithoutWithout`).
- `structuredClone` and `getNode`'s deep copy become value semantics. Aliasing between returned trees and stored bags cannot arise in the model, so it is not stated separately.
- Graphs.Graph.FilterNodes: the source returns the live stored bag objects (graph.ts:53, no clone), so a caller mutating a result changes the registry; the model's values cannot capture that aliasing.
