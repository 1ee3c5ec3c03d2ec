# Road network editor and route finder — verified model

The map component of a small traffic simulator lets a user edit a road
network and ask for the shortest route between two intersections. Intersections
have an id, a name and a position; roads join two intersections and have a
weight. The parts modelled here are:

- the `Graph` class: the constructor, `addEdge`, and `shortestPath`. `shortestPath` is
  Dijkstra's algorithm without a priority queue. Each round it scans every
  node for the first unvisited one with the strictly smallest finite distance,
  relaxes its outgoing entries, and stops when it picks the destination or
  finds nothing. It then follows predecessor pointers back from the destination.
- the list logic of the six handlers: add an intersection, add a road, change
  a road's weight, remove an intersection with its roads, remove a road, and
  compute a route. The route handler builds a fresh `Graph` and inserts every
  road in both directions.

Files:

- `wrappers.dfy`: `Option`.
- `walks.dfy` (module `Walks`): adjacency maps, weighted walks, reachability,
  shortest distance, and the lemmas about them: concatenation, reversal over a
  symmetric map, the triangle inequality, and lower bounds from potentials.
- `graph.dfy` (module `RoadGraph`): the `Graph` class. Its methods keep the
  fields in place and the search is a loop with invariants.
- `editor.dfy` (module `Editor`): the handlers as pure functions from the
  current lists and the parsed form inputs to `Rejected(reason)` or
  `Updated(newValue)`, with lemmas about them.
- `route.dfy` (module `Route`): building the graph from the lists, the
  symmetric snapshot it produces, and the route query.
- `scenarios.dfy` (module `Scenarios`): a three-intersection example worked
  through the model.

Modelling decisions:

- Ids are strings. Weights are natural numbers. A distance is `Fin(n)` or `Infinity`.
- A table key that does not exist stands for JavaScript's `undefined`, and every
  comparison with it is false. So relaxation never gives a distance to an
  id that is not a node.
- The walk back along `prev` stops on a missing entry, on `null`, and also on
  the empty id, since `while (u)` treats `""` as false. The theorems that say
  the returned path is a walk assume that no intersection has the empty id.
  The editor never creates one.
- When the destination is not a node and is not the start, `shortestPath`
  returns the path `[end]` with an undefined distance. This is
  `PathResult.UnknownEnd`.
- Shortest distances are taken over walks whose nodes all belong to the
  graph's node list, because the search never enters any other id.
- `parseFloat` followed by `isNaN` is modelled as an `Option` that is already
  parsed. A road selection (`"from-to"` split on `-`) is modelled as the ordered
  pair it names, or `None` when nothing is selected.

Three consequences of the code that are easy to miss:

- Line 54 sets `distances[start] = 0` even when `start` is not a node. So a
  query with equal start and end returns `[start]` at distance 0 even then
  (`RoadGraph.Graph.ShortestPath`).
- Lines 192 and 212 use `map` and `filter`, so changing or deleting a road by
  its ordered pair changes or removes every road with that pair, not only the
  first (`Editor.Reweigh`, `Editor.RemoveEdge`).
- Removing intersection 2 from the network 1-2 (2), 2-3 (3), 1-3 (10) keeps
  the road 1-3, so the route 1, 3 of weight 10 remains
  (`Scenarios.RemovingTheMiddle`, `Scenarios.MiddleRemovedDistance`,
  `Scenarios.RouteAfterRemovingTheMiddle`). Before the removal the computed
  route is 1, 2, 3 (`Scenarios.RouteThroughTheMiddle`).

## Model

| member | source | states |
|---|---|---|
| `RoadGraph.Graph.constructor` | src/components/MapComponent.js:33-37 | the node list is kept, and every node id, and no other key, gets an empty adjacency list |
| `RoadGraph.Graph.AddEdge` | src/components/MapComponent.js:39-42 | exactly one entry `{to, weight}` is appended to the end of `from`'s list, and that list is created if it is missing; nothing else changes |
| `RoadGraph.Less` | src/components/MapComponent.js:60 | (definition) the numeric `<` of lines 60 and 71: `Infinity` is below nothing, every finite distance is below `Infinity`, and finite distances compare as numbers |
| `RoadGraph.PrevOf` | src/components/MapComponent.js:86 | (definition) `prev[u]` names a predecessor exactly when `u` has an entry that is not `null`; a missing entry (`undefined`) and `null` both end the walk back |
| `RoadGraph.SubsetSize` | src/components/MapComponent.js:56-77 | a subset of the node ids is no larger than the set, which bounds the number of iterations |
| `RoadGraph.Graph.InitTables` | src/components/MapComponent.js:45-54 | every node starts at `Infinity` with no predecessor; the start is at 0 whether or not it is a node |
| `RoadGraph.Graph.SelectMin` | src/components/MapComponent.js:57-64 | it finds nothing exactly when every unvisited node is at `Infinity`; otherwise it returns the FIRST unvisited node with the smallest finite distance, and every unvisited node before it is strictly farther |
| `RoadGraph.PickIsShortest` | src/components/MapComponent.js:56-65 | under the loop invariant, the picked node's tentative distance is a lower bound on every walk from the start to it |
| `RoadGraph.Frontier` | src/components/MapComponent.js:56-79 | a walk from the start to an unvisited node passes an unvisited node whose finite distance is at most the walk's weight; so `Infinity` for the end means it is unreachable |
| `RoadGraph.Graph.Relax` | src/components/MapComponent.js:67-76 | distances only decrease; visited nodes are untouched; `prev[n]` becomes the current node exactly when `n`'s distance strictly improves; every entry to an unvisited node ends relaxed; every improvement comes from an entry of the current node |
| `RoadGraph.ImproveKeeps` | src/components/MapComponent.js:69-74 | one strict improvement of a neighbour keeps the relaxation facts of the pass |
| `RoadGraph.NotImprovedUnchanged` | src/components/MapComponent.js:71-74 | (helper, an order fact about distances) a distance that did not strictly improve is unchanged |
| `RoadGraph.StepKeepsRooted` | src/components/MapComponent.js:67-76 | after relaxation, every reached node other than the start still has a predecessor |
| `RoadGraph.StepKeepsAcyclic` | src/components/MapComponent.js:67-76 | predecessor pointers still lead to strictly earlier visited nodes, so the walk back terminates |
| `RoadGraph.StepKeepsPrevLinks` | src/components/MapComponent.js:67-76 | every predecessor is visited, and the node's distance is the predecessor's distance plus the weight of a real entry |
| `RoadGraph.StepKeepsRelaxed` | src/components/MapComponent.js:67-76 | every entry out of a visited node is relaxed |
| `RoadGraph.StepKeepsSettled` | src/components/MapComponent.js:67-76 | adding the picked node keeps every visited node at its shortest distance |
| `RoadGraph.StepKeepsBookkeeping` | src/components/MapComponent.js:67 | visiting one more node keeps the key sets and the visit ranks consistent |
| `RoadGraph.StepKeepsInvariant` | src/components/MapComponent.js:56-77 | one loop iteration preserves the whole search invariant |
| `RoadGraph.InitInvariant` | src/components/MapComponent.js:45-54 | the initial tables satisfy the search invariant |
| `RoadGraph.Graph.Pick` | src/components/MapComponent.js:56-65 | the picked node is an unvisited node with a finite distance that no walk beats; if none is picked, every unvisited node is at `Infinity` |
| `RoadGraph.Graph.Visit` | src/components/MapComponent.js:67-76 | visiting a settled node and relaxing its entries keeps the invariant and adds exactly that node, a new one, to the visited set |
| `RoadGraph.Graph.Search` | src/components/MapComponent.js:44-77 | the loop terminates because the unvisited node set shrinks, after at most one visiting iteration per distinct node id (the number of iterations that visit a node equals the number of visited nodes, which never exceeds the number of distinct ids); at exit, either every unvisited node is unreached, or the end was picked at its shortest distance |
| `RoadGraph.Graph.Walkback` | src/components/MapComponent.js:81-87 | the reconstructed path is the chain of predecessors from the end, read from the first node to the end |
| `RoadGraph.AtMostTrans` | src/components/MapComponent.js:71 | (helper, an order fact about distances) "at most" on distances is transitive |
| `RoadGraph.LinkStep` | src/components/MapComponent.js:84-87 | one step back along `prev` extends a walk from the start by a real entry, and its weight by exactly that entry's weight |
| `RoadGraph.LinksWalk` | src/components/MapComponent.js:81-88 | following predecessors back from a reached node gives a walk from the start whose weight equals the node's distance |
| `RoadGraph.ChainIsTrace` | src/components/MapComponent.js:84-87 | when no node has the empty id, the `while (u)` walk back stops exactly at the start |
| `RoadGraph.Graph.ShortestPath` | src/components/MapComponent.js:44-89 | it returns null iff the end is a node that cannot be reached; `[end]` with an undefined distance iff the end is not a node and not the start; `[start]` at 0 when start equals end. A returned path ends at the end, and the distance returned for a node is the shortest distance. When no id is empty, the path starts at the start and is a walk of real entries whose weight is that distance |
| `Walks.Neighbors` | src/components/MapComponent.js:68 | `this.adjList[current] \|\| []`: a node without an adjacency list has no neighbours |
| `Walks.SumAppend` | src/components/MapComponent.js:70 | the weight of two joined step sequences is the sum of their weights |
| `Walks.WalkExtend` | src/components/MapComponent.js:68-73 | a walk extended by an entry out of its last node is a walk, heavier by exactly that weight |
| `Walks.WalkConcat` | src/components/MapComponent.js:68-73 | two walks that meet join into a walk whose weight is the sum of their weights |
| `Walks.SumAtLeast` | src/components/MapComponent.js:70 | a walk whose every step weighs at least m weighs at least m times its number of steps |
| `Walks.SumReversed` | src/components/MapComponent.js:222-225 | a reversed step sequence has the same weight |
| `Walks.ReverseStep` | src/components/MapComponent.js:222-225 | a single step of a walk, taken backwards over its mirror entry, is a step of the reversed walk |
| `Walks.ReverseSteps` | src/components/MapComponent.js:222-225 | over a symmetric map, the reversal of a walk is a walk |
| `Walks.ReverseWalk` | src/components/MapComponent.js:222-225 | over a symmetric map, every walk can be travelled backwards within the same nodes and at the same cost |
| `Walks.PotentialBound` | src/components/MapComponent.js:217-226 | if no entry lets a potential grow by more than its weight, the potential grows by no more than the weight along any walk |
| `Walks.PotentialCertifies` | src/components/MapComponent.js:217-226 | a walk along which such a potential grows by exactly its weight is a shortest walk |
| `Walks.Triangle` | src/components/MapComponent.js:44-89 | shortest distances satisfy the triangle inequality |
| `Walks.NoShorterSymmetric` | src/components/MapComponent.js:222-225 | over a symmetric map, a lower bound on the walks from a to b also bounds the walks from b to a |
| `Walks.ShortestSymmetric` | src/components/MapComponent.js:222-225 | over a symmetric map, the shortest distance from a to b equals the one from b to a |
| `Walks.ShortestUnique` | src/components/MapComponent.js:79-89 | the shortest distance between two nodes is a single number: two shortest distances are equal |
| `Editor.Filter` | src/components/MapComponent.js:201-202 | the result is no longer than the input, and an element is kept iff it is in the input and the predicate accepts it |
| `Editor.FilterConcat` | src/components/MapComponent.js:201-202 | filtering distributes over concatenation, so the kept elements stay in their order |
| `Editor.FilterKeepsAll` | src/components/MapComponent.js:201-202 | filtering a list whose every element is accepted gives back the same list |
| `Editor.HasId` | src/components/MapComponent.js:165 | (definition) `nodes.some(...)`: some position of the list holds an intersection with exactly this id |
| `Editor.NewNode` | src/components/MapComponent.js:168 | (definition) the appended object has the given id and position, and its name is "Intersection " followed by the id |
| `Editor.AddNode` | src/components/MapComponent.js:160-170 | rejected as missing input iff the id is empty or a coordinate does not parse; rejected as a duplicate iff the inputs are present and the id is already used, compared exactly; accepted iff the id is non-empty and unused and both coordinates parse, and then exactly one node, named "Intersection <id>", is appended |
| `Editor.AddNodeKeepsIdsUnique` | src/components/MapComponent.js:165-168 | after an accepted add the ids stay distinct and the new id can be found |
| `Editor.AddRoad` | src/components/MapComponent.js:173-183 | rejected as missing input iff an endpoint or the weight is missing; rejected as a self-loop iff the inputs are present and both endpoints are equal; accepted iff both endpoints and the weight are present and the endpoints differ, and then exactly one road is appended at the end |
| `Editor.Reweigh` | src/components/MapComponent.js:192 | length and order are kept; every road with exactly the ordered pair (from, to) gets the new weight, and every other road is unchanged |
| `Editor.ModifyWeight` | src/components/MapComponent.js:186-194 | rejected iff no road is selected or the weight does not parse; otherwise the list is reweighed for the selected ordered pair |
| `Editor.ReweighThenRemove` | src/components/MapComponent.js:192-212 | reweighing is idempotent and does not change which roads a removal of the same pair keeps |
| `Editor.RemoveNode` | src/components/MapComponent.js:197-204 | rejected iff no intersection is selected; otherwise the intersection is filtered out of the node list, and every road touching it out of the road list, in order |
| `Editor.RemoveNodeDropsIncident` | src/components/MapComponent.js:201-202 | afterwards no node has the id and no road touches it, and every other node and road remains |
| `Editor.RemoveAbsentNode` | src/components/MapComponent.js:201-202 | removing an id that is not present leaves both well-formed lists exactly as they were |
| `Editor.AddThenRemoveNode` | src/components/MapComponent.js:160-204 | adding an intersection and then removing it by its id restores both lists |
| `Editor.RemoveEdge` | src/components/MapComponent.js:207-214 | rejected iff no road is selected; otherwise it removes exactly the roads with the selected ordered pair, in order |
| `Editor.RemoveEdgeDropsPair` | src/components/MapComponent.js:211-212 | no road with the ordered pair is left, and every other road (the reverse direction included) remains |
| `Editor.AddThenRemoveRoad` | src/components/MapComponent.js:173-214 | adding a new ordered pair and then removing it restores the road list |
| `Editor.AddNodeKeepsWellFormed` | src/components/MapComponent.js:160-170 | an accepted add keeps the ids distinct and non-empty, and keeps every road between known intersections |
| `Editor.AddRoadKeepsWellFormed` | src/components/MapComponent.js:173-183 | an accepted road between two known intersections keeps the lists well formed |
| `Editor.ModifyKeepsWellFormed` | src/components/MapComponent.js:186-194 | changing weights keeps the lists well formed |
| `Editor.RemoveEdgeKeepsWellFormed` | src/components/MapComponent.js:207-214 | removing a road keeps the lists well formed |
| `Editor.RemoveNodeKeepsWellFormed` | src/components/MapComponent.js:197-204 | removing an intersection leaves only roads between surviving intersections, with ids still distinct |
| `Editor.FilterUnique` | src/components/MapComponent.js:201 | filtering a list of intersections with distinct ids keeps the ids distinct |
| `Route.Ids` | src/components/MapComponent.js:221 | the graph's node list has one id per intersection, in list order |
| `Route.EmptyLists` | src/components/MapComponent.js:33-37 | (definition) the adjacency map of a new graph, as a value: exactly the given ids have lists, and every list is empty |
| `Route.Append` | src/components/MapComponent.js:39-42 | `addEdge` as a value: the keys gain `from`, if it was missing (its contents are stated by `Route.AppendEntries`) |
| `Route.Snapshot` | src/components/MapComponent.js:221-225 | the adjacency map after the constructor and all the `addEdge` calls: every id has a list (its entries are characterised by `Route.SnapshotEntries`) |
| `Route.AppendEntries` | src/components/MapComponent.js:39-42 | after `addEdge`, a list holds an entry iff it held it before or it is the added entry of that list |
| `Route.SnapshotStep` | src/components/MapComponent.js:222-225 | inserting one more road adds exactly its two directed entries |
| `Route.SnapshotEntries` | src/components/MapComponent.js:221-225 | the built graph holds an entry (u → v, w) iff some road joins u and v, in either direction, with weight w |
| `Route.SnapshotSymmetric` | src/components/MapComponent.js:222-225 | the built graph is symmetric |
| `Route.RouteSymmetric` | src/components/MapComponent.js:221-226 | over the built graph, reachability and shortest distance do not depend on the direction of travel |
| `Route.BuildGraph` | src/components/MapComponent.js:221-225 | the graph has the intersections' ids as nodes, and its adjacency map is the snapshot of all roads in both directions |
| `Route.ComputeRoute` | src/components/MapComponent.js:217-233 | rejected iff the start or end is missing. Start equal to end gives `[start]`; an end that is not a node gives `[end]`. For a known end, the route is empty iff the end is unreachable; otherwise, when no intersection has the empty id, it is a shortest walk from the start to the end |
| `Scenarios.CrossingIds` | src/components/MapComponent.js:221 | the example's node list is the ids 1, 2, 3; 3 is an intersection and no intersection has the empty id |
| `Scenarios.FromOneFeasible` | src/components/MapComponent.js:221-225 | the distances 0, 2, 5 from intersection 1 never grow by more than an entry's weight |
| `Scenarios.MiddleEntries` | src/components/MapComponent.js:221-225 | the built graph has the entries 1 → 2 (weight 2) and 2 → 3 (weight 3) |
| `Scenarios.ThroughTheMiddle` | src/components/MapComponent.js:217-226 | in any adjacency map with those entries over which the distances 0, 2, 5 are feasible, the walk 1, 2, 3 is shortest, at 5 |
| `Scenarios.ThreeCrossingsDistance` | src/components/MapComponent.js:217-226 | in the example network, the shortest distance from 1 to 3 is 5, not the 10 of the direct road |
| `Scenarios.RoadEntries` | src/components/MapComponent.js:221-225 | every entry of the built example graph is one of the six directed copies of its three roads |
| `Scenarios.ShortSums` | src/components/MapComponent.js:70 | a one-step walk weighs its step, a two-step walk the sum of its two steps |
| `Scenarios.OnlyWalkOfFive` | src/components/MapComponent.js:217-226 | over those entries, the only walk from 1 to 3 of weight 5 is 1, 2, 3 |
| `Scenarios.AnswerThroughTheMiddle` | src/components/MapComponent.js:226-232 | over those entries, a route answer that is empty only when 3 is unreachable, and otherwise a shortest walk, is 1, 2, 3 |
| `Scenarios.RouteThroughTheMiddle` | src/components/MapComponent.js:217-233 | computing the route from 1 to 3 in the example yields exactly the walk 1, 2, 3 |
| `Scenarios.RemovingTheMiddle` | src/components/MapComponent.js:197-204 | removing intersection 2 leaves the intersections 1 and 3 and the road 1-3 |
| `Scenarios.FromOneDirectFeasible` | src/components/MapComponent.js:221-225 | after that removal, the distances 0 and 10 are a feasible potential |
| `Scenarios.DirectRoad` | src/components/MapComponent.js:217-226 | in any adjacency map with the entry 1 → 3 (weight 10) over which 0, 10 is feasible, the walk 1, 3 is shortest, at 10 |
| `Scenarios.MiddleRemovedDistance` | src/components/MapComponent.js:217-226 | after that removal, 1 and 3 are still connected, at distance 10 |
| `Scenarios.CornerIds` | src/components/MapComponent.js:221 | after that removal the node list is the ids 1, 3; 3 is an intersection and no intersection has the empty id |
| `Scenarios.DirectEntries` | src/components/MapComponent.js:221-225 | after that removal every entry of the built graph weighs 10 |
| `Scenarios.OnlyWalkOfTen` | src/components/MapComponent.js:217-226 | when every entry weighs 10, the only walk from 1 to 3 of weight 10 is the single step 1, 3 |
| `Scenarios.AnswerDirect` | src/components/MapComponent.js:226-232 | after that removal, a route answer that is empty only when 3 is unreachable, and otherwise a shortest walk, is 1, 3 |
| `Scenarios.RouteAfterRemovingTheMiddle` | src/components/MapComponent.js:197-233 | removing intersection 2 and then computing the route from 1 to 3 yields exactly the direct road 1, 3 |
| `Scenarios.SelfLoopRefused` | src/components/MapComponent.js:178-180 | a road from an intersection to itself is refused |
| `Scenarios.DuplicateIdRefused` | src/components/MapComponent.js:165-167 | an id in use is refused, and ids differ by case ("a" is not "A") |

## Left out

- React state, hooks, the `alert` messages and the clearing of form fields after each handler: a rejection is `Rejected(reason)`, and the lists are what the handler would set.
- Persistence to `localStorage` and the loading of the stored lists, including discarding unparseable JSON: this is browser I/O.
- The Leaflet map, the `ClickHandler` click capture with its `toFixed(5)` rounding, and all rendering.
- `src/data/intersections.js`, the initial intersection list, is not part of this model: the handlers are modelled for any list, that one included.
- Floating-point weights and coordinates: weights are natural numbers, and coordinates are `real` values that are only stored. `parseFloat` and `NaN` are folded into `Option` inputs, and negative or fractional weights (which the form accepts) are not modelled.
- Editor.ModifyWeight, Editor.RemoveEdge: the `"from-to"` selection string and its `split('-')` are not modelled. The selection is the ordered pair it names, so ids that contain `-` (which would split wrongly) are outside the model.
- Route.Ids: ids are strings in the model. The initial list uses numeric ids, but every comparison in the core stringifies the id (lines 165, 201 and 221), and road endpoints come from the `<select>` values of lines 264-270, which are strings. So a numeric id `k` is modelled exactly by the string `${k}`.
- JavaScript object keys that collide with `Object.prototype` members (such as an id `"constructor"`) are not modelled: the tables are plain maps.
- Editor.AddRoad: like the source, it does not check that the endpoints exist. `Editor.AddRoadKeepsWellFormed` assumes that they do. The program does not guarantee this: `handleRemoveNode` clears only its own selection (line 203), so a `fromId` or `toId` that named the removed intersection survives, and `handleAddEdge` then appends a road to it. Well-formedness of the lists is therefore not an invariant of the program as a whole.
- Route.ComputeRoute: the shortest-walk fact about a non-empty route is stated only when no intersection has the empty id, for the same reason as for `ShortestPath` below.
- RoadGraph.Graph.ShortestPath: the facts that the path starts at the start and is a walk are stated only when no node has the empty id. With such a node, `while (u)` stops early.
- Repeating a route query gives the same answer; this is not stated as a lemma, since each query builds a fresh graph from the same lists.
