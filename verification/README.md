# Dijkstra shortest-path engine — Dafny model

This project models the `Dijkstra` class of `Dijkstra.rb`. The class is a
single-source shortest-path engine over a directed graph with natural-number
edge weights. The graph is stored as a map of maps: `@graph[a][b]` is the
weight of the edge from `a` to `b`.

The engine keeps a `Journey` per node. A journey pairs the best distance found
so far with the node that best path came from. Journeys live in two maps:

- `@unvisited` is the frontier.
- `@visited` holds the nodes whose distance is settled.

`shortest_path` does three things. It seeds the frontier with one journey per
graph key: the start at distance 0, every other node at the sentinel 1000000.
It then moves the current node into the settled map. Finally it returns that
node's distance. The selection loop between these steps is an empty
placeholder in the source. Its doc comments say what the loop must achieve,
and the model fills it in with Dijkstra's algorithm. `output_route` follows
the predecessor links back from a node and lists the route from the start.

Modules, one file each:

- `Wrappers` (`wrappers.dfy`): `Option` and `Result`.
- `Graphs` (`graphs.dfy`): the graph and `Distance`. It also defines paths,
  path weights, optimality and reachability, plus the lemmas about paths.
- `Labels` (`labels.dfy`): `Dist`, `Journey` and the frontier/settled `State`.
  It holds the initialisation (`Init`), the move into the settled map
  (`Finalise`), and `Skeleton`, which is `shortest_path` exactly as written,
  with its loop still empty.
- `Route` (`route.dfy`): `OutputRoute`, the predecessor walk.
- `Dijkstra` (`dijkstra.dfy`): relaxation, minimum selection, the loop
  invariant with its preservation proof, and the completed `ShortestPath`.
- `Sample` (`sample.dfy`): the five-node graph built by the constructor and
  the driver's query from `a` to `c`.

Correspondences:

- Node symbols are strings.
- The sentinel 1000000 is `Dist.Infinity`.
- Ruby's `nil` is `Option.None`.
- A call that would raise `NoMethodError` on `nil` is an `Error` result:
  - `NodeNotFound` when the start (or, for `Distance`, the origin) is not a
    graph key.
  - `NodeNotFinalized` when `output_route` looks up a node with no settled
    journey.
- `NodeUnreachable` is the completed loop's answer for a finish that no path
  reaches.

Where the intended design and the code differ, the model follows the code
or chooses one reading:

- The constructor creates both maps empty, and every call re-seeds each key
  of `@unvisited`. Only `@visited` carries entries over from one call to the
  next. The model starts every query from empty maps.
- The loop stops on one of three conditions:
  - the frontier is empty;
  - the least frontier label is infinite, so the rest of the frontier is
    unreachable;
  - the finish has just been settled.
- A finish that is not a graph key is reported as `NodeNotFound` (see
  "## Left out").

## Model

| member | source | states |
|---|---|---|
| Graphs.Distance | Dijkstra.rb:11-17 | For an origin that is a key, the result is the edge weight when the edge exists and `None` when the destination is missing. A missing origin fails with `NodeNotFound`. |
| Graphs.EdgeIsPath | Dijkstra.rb:31-34 | A single edge u→v is a path, and its weight is exactly what `Distance(u, v)` reports. |
| Graphs.ExtendPath | Dijkstra.rb:4-7 | Extending a path by an edge gives a path whose weight is the old weight plus that edge's weight. |
| Graphs.PrefixPath | Dijkstra.rb:4-7 | Every prefix of a path is a path that weighs no more than the whole path, because weights are non-negative. |
| Graphs.ShortestDistanceUnique | Dijkstra.rb:36-37 | Two numbers that are both the shortest distance between the same pair of nodes are equal. So the answer does not depend on which of several equal-cost routes is found. |
| Graphs.PotentialBound | Dijkstra.rb:36-37 | A potential that never drops by more than an edge's weight along that edge is a lower bound on the weight of every path. |
| Graphs.TightPrefix | Dijkstra.rb:36-37 | Suppose a path from a zero-potential node weighs exactly the potential of its end. Then so does the path without its last edge, and that last edge is tight. |
| Labels.Init | Dijkstra.rb:39-50 | The frontier has exactly one entry per graph key and the settled map is empty. The start gets distance 0 with no predecessor. Every other key gets the unreached label (sentinel distance, no predecessor). `current` is the start exactly when the start is a key. |
| Labels.Finalise | Dijkstra.rb:56-57 | The node leaves the frontier and enters the settled map with an identical journey. No other entry of either map changes. Disjointness of the two key sets is preserved, and so is their union. |
| Labels.Skeleton | Dijkstra.rb:38-60 | The operation as written, with an empty loop. It returns 0 (the start's own distance) whenever the start is a key, whatever the finish. Otherwise it fails with `NodeNotFound`, because `current` stays nil. The state it leaves has only the start settled, with distance 0 and no predecessor; every other key is still in the frontier. |
| Route.OutputRoute | Dijkstra.rb:62-70 | The route is `[node]` when `node` has no predecessor. Otherwise it is the predecessor's route followed by `node`. A successful route ends at `node` and starts at a node without a predecessor. Each node in it is the recorded predecessor of the next. A node without a settled journey fails with `NodeNotFinalized`. |
| Route.RouteIsSimple | Dijkstra.rb:62-70 | No node occurs twice in a successful route, so the walk cannot loop. |
| Dijkstra.Relax | Dijkstra.rb:52-54 | Relaxation keeps the frontier's keys and the selected node's own label. Labels only decrease. After relaxation, every out-edge of the selected node is respected. A label changes only on a strict improvement: the new label is the selected node's distance plus the edge weight, with the selected node as predecessor, and it is strictly less than the old distance. A tie leaves the label and its predecessor as they were. |
| Dijkstra.Step | Dijkstra.rb:52-57 | One round moves the selected node from the frontier to the settled map with its label. Settled distances never change afterward, and frontier labels only decrease. |
| Dijkstra.SelectMin | Dijkstra.rb:52-54 | The selected node is in the frontier, and no frontier label is smaller than its label. |
| Dijkstra.InitInv | Dijkstra.rb:41-50 | The initial state satisfies the loop invariant. |
| Dijkstra.LeavesSettled | Dijkstra.rb:36-37 | A path from the start to a frontier node passes through some frontier node whose label is at most the path's weight. |
| Dijkstra.MinIsOptimal | Dijkstra.rb:4-7 | A least frontier label with a finite distance is optimal: no path to that node is lighter. |
| Dijkstra.StepLinked | Dijkstra.rb:4-7 | After a round, every journey is still justified by the settled map. Either it has no predecessor and is unreached (or is the start at distance 0), or it names a settled predecessor joined to it by an edge, with distance equal to the predecessor's plus the edge weight. |
| Dijkstra.StepInv | Dijkstra.rb:52-57 | A round preserves the whole loop invariant: partition of the keys, start first, justified labels, optimal settled distances, relaxed edges, settled ≤ frontier. It also preserves the settling order. |
| Dijkstra.RouteFromRank | Dijkstra.rb:62-70 | For a settled node, the predecessor walk terminates at the start. It yields a path whose weight equals the node's stored distance. |
| Dijkstra.AllRoutesValid | Dijkstra.rb:24-26 | Every settled node has a route from the start that is a graph path as heavy as its stored distance. |
| Dijkstra.ExhaustedUnreachable | Dijkstra.rb:36-37 | When every frontier label is infinite, no frontier node is reachable from the start. |
| Dijkstra.ShortestPath | Dijkstra.rb:38-60 | The call succeeds exactly when start and finish are keys and the finish is reachable. It then returns the least weight of any path from start to finish, which is the finish's settled distance, and 0 when start equals finish. A missing key gives `NodeNotFound`; an unreachable finish gives `NodeUnreachable`. Every settled node's route is a path from the start as heavy as its optimal distance. |
| Sample.SampleFeasible | Dijkstra.rb:18-22 | The distances 0, 4, 5, 1, 2 for a–e form a feasible potential of the sample graph. |
| Sample.SampleLowerBound | Dijkstra.rb:18-22 | No path from a to c in the sample graph weighs less than 5. |
| Sample.SampleBestRoute | Dijkstra.rb:18-22 | a, d, e, c is a path of the sample graph of weight 5. |
| Sample.SampleShortestRouteUnique | Dijkstra.rb:18-22 | The only path from a to c of weight 5 is a, d, e, c. |
| Sample.EdgesAreDirected | Dijkstra.rb:14-17 | `distance(a, b)` is 4 but `distance(b, a)` is 3, and a graph with only x→y has no y→x. A missing destination gives none; a missing origin fails. |
| Sample.SampleDriverAsWritten | Dijkstra.rb:73-75 | Against the code as written, the driver's first call returns 0 (the start's own distance). Its route lookup for c fails, because only a has been settled. |
| Sample.SampleQuery | Dijkstra.rb:73-75 | With the loop completed, the driver's query from a to c yields distance 5 and route a, d, e, c, whichever least node is picked on ties. |

## Left out

- `require 'debugger'` (line 1) is a tooling dependency with no behaviour.
- The console driver (lines 73-75) is not modelled as a program, because its output is console printing. As written it prints 0, and its `output_route(:c)` then raises on a nil journey at line 65, since only `:a` is settled. `Sample.SampleDriverAsWritten` states both outcomes. `Sample.SampleQuery` states the answer of the completed loop.
- `output_route` builds a string with `to_s` and `" -> "`. The model returns the route as a sequence of nodes, since the joining is only formatting.
- Reuse of one engine instance across calls is not modelled. The source creates `@visited` only in its constructor, so settled entries from an earlier call would survive into the next. It promises nothing about reuse. Every modelled query starts from empty maps.
- The sentinel 1000000 is not modelled as a number. It is the distinct value `Dist.Infinity`, so no overflow or comparison against real path sums arises.
- Dijkstra.SelectMin: when several frontier nodes share the least label, the choice is left open (any least node). Every proved property holds for any choice. Among equal-cost routes, the one reported is therefore not fixed.
- Route.OutputRoute: on a predecessor chain that returns to an earlier node, the Ruby recursion exhausts the stack and raises `SystemStackError`. The model reports this failure as `NodeNotFinalized`, the same error it gives for a node with no settled journey. The settled map built by `Dijkstra.ShortestPath` has no such cycle (`Dijkstra.RouteFromRank`).
- Dijkstra.ShortestPath: the model promises the same distance for repeated queries (`Graphs.ShortestDistanceUnique`), but not the same route when routes tie.
- Dijkstra.ShortestPath: a finish that is not a graph key is reported as `NodeNotFound`, not `NodeUnreachable`. This holds even when some edge points to that finish, as with `map["a" := map["z" := 1]]` queried from a to z. The completed loop only labels graph keys, so such a node is never settled.
