# MapGraph road graph: a Dafny model

This project models `MapGraph` from the UCSD road-graph exercises. It is a
directed graph whose vertices are geographic locations (road intersections)
and whose edges are road segments. The model covers two parts:

- the **graph store**. It is an adjacency map from each vertex to the ordered
  list of its out-neighbours, with a vertex counter and an edge counter kept
  beside it. It has `addVertex`, `addEdge`, the neighbour queries and the
  counters;
- **breadth-first search**. It uses a FIFO queue, a visited set and a parent
  map, then rebuilds the route by following parent pointers back from the
  goal and reversing the list.

Locations are an opaque type parameter `V` with equality. A Java `null` is
`Option.None`. The `IllegalArgumentException` thrown by `addEdge` is the
`Status` value `IllegalArgumentException`. A `null` returned by `bfs` is
`None`.

Files:

- `Wrappers.dfy`: `Option` and a `Get` lookup that answers `None` for a
  missing key, as `HashMap.get` does.
- `Graph.dfy`: the reference definitions on a plain adjacency map. They are
  duplicate-free out-lists, edges, the sum of the out-list lengths, the set of
  directed pairs, walks and reachability. The lemmas about them live here too.
- `RoadGraph.dfy`: the class `MapGraph`. Its fields are `adjacency`,
  `numberOfVertices` and `numberOfEdges`. Its invariant `Valid()` says:
  - the vertex counter is the number of keys;
  - the edge counter is the sum of the out-list lengths;
  - no out-list repeats a vertex;
  - every out-neighbour is a vertex.

  The mutators keep `Valid()`, and `Bfs` is proved against walks in the graph.
- `Fixtures.dfy`: the scenarios of the unit tests, stated as client code of
  the class.

What is proved about breadth-first search:

- it answers `None` exactly when `start` or `goal` is null, or no walk leads
  from `start` to `goal`. A location that is not a vertex lies on no walk;
- otherwise it returns a walk from `start` to `goal`: it begins at `start`,
  ends at `goal`, and each consecutive pair is a stored edge;
- the walk repeats no vertex;
- no walk from `start` to `goal` is shorter. So `start == goal` yields
  `[start]`, and the eight-location test map yields `0, 5, 7`.

The minimality proof keeps ghost bookkeeping beside the search: each visited
vertex's hop count, the set of vertices whose out-neighbours have all been
discovered, and a level up to which every vertex is known to be visited.

Three points about the code:

- edges keep no road name, type or length. Those arguments are only checked;
- vertex and in-neighbour order follow `HashMap` order, which the model
  leaves arbitrary;
- `getVertices` and `getOutNeighborsFromVertex` return the live internal
  collections. The model returns values.

## Model

| member | source | states |
|---|---|---|
| `RoadGraph.MapGraph.constructor` | src/main/java/roadgraph/MapGraph.java:48-50 | a new graph has no vertices and no edges, and satisfies the invariant |
| `RoadGraph.MapGraph.GetVertices` | src/main/java/roadgraph/MapGraph.java:66-68 | the vertex set has as many members as the vertex counter says, and contains every out-neighbour of its members |
| `RoadGraph.MapGraph.GetNumVertices` | src/main/java/roadgraph/MapGraph.java:57-59 | the vertex counter equals the size of the vertex set |
| `RoadGraph.MapGraph.GetNumEdges` | src/main/java/roadgraph/MapGraph.java:93-95 | the edge counter equals the number of distinct directed (source, destination) pairs in the graph |
| `RoadGraph.MapGraph.GetOutNeighborsFromVertex` | src/main/java/roadgraph/MapGraph.java:70-72 | for null or a non-vertex: the empty list; otherwise the stored out-list; its members are exactly the destinations of the vertex's edges; under the invariant it is duplicate-free and holds only vertices |
| `RoadGraph.MapGraph.GetInNeighborsFromVertex` | src/main/java/roadgraph/MapGraph.java:74-86 | `u` is in the result exactly when `vertex` is in `u`'s out-list, and no `u` appears twice; null has no in-neighbours |
| `RoadGraph.MapGraph.AddVertex` | src/main/java/roadgraph/MapGraph.java:107-116 | returns true exactly when the location is non-null and not yet a vertex; then the location becomes a vertex with an empty out-list and the vertex counter goes up by one; otherwise the map is unchanged; the edge counter never changes; the invariant is kept |
| `RoadGraph.MapGraph.AddEdge` | src/main/java/roadgraph/MapGraph.java:137-151 | throws exactly when an endpoint, the road name or the road type is null, the length is negative, or an endpoint is not a vertex, and then changes nothing; for a new pair it appends `to` to `from`'s out-list only and raises the edge counter by one; for an existing pair it changes nothing; the vertex counter never changes; the invariant is kept |
| `RoadGraph.MapGraph.Bfs` | src/main/java/roadgraph/MapGraph.java:183-226 | `None` exactly when `start` or `goal` is null or `goal` is unreachable from `start`; otherwise a walk from `start` to `goal` along stored edges, with no repeated vertex and no more vertices than any walk between them |
| `RoadGraph.MapGraph.RaiseLevel` | src/main/java/roadgraph/MapGraph.java:195-197 | when the queue head lies one hop beyond the current level, every vertex one level further out is already visited, so the search bookkeeping holds at the next level |
| `RoadGraph.MapGraph.VisitOutNeighbors` | src/main/java/roadgraph/MapGraph.java:214-220 | the loop over the current vertex's out-neighbours keeps the old queue as a prefix and the old parent entries; every newly visited vertex is an out-neighbour of the current vertex, gets it as parent and one hop more than it; afterwards all of the current vertex's out-neighbours are visited, it counts as expanded, and the bookkeeping holds |
| `RoadGraph.MapGraph.VisitOne` | src/main/java/roadgraph/MapGraph.java:215-219 | an unvisited out-neighbour becomes visited, gets the current vertex as parent and one more hop, and joins the back of the queue; a visited one changes nothing; either way the bookkeeping holds |
| `RoadGraph.MapGraph.Discover` | src/main/java/roadgraph/MapGraph.java:215-219 | discovering an unvisited out-neighbour at one hop beyond the current vertex keeps the bookkeeping: that hop count is the fewest for it |
| `RoadGraph.MapGraph.Expand` | src/main/java/roadgraph/MapGraph.java:214-220 | once every out-neighbour of the current vertex is visited, the vertex joins the expanded set and the search bookkeeping still holds |
| `RoadGraph.MapGraph.ReconstructPath` | src/main/java/roadgraph/MapGraph.java:199-211 | the parent walk from the goal ends at `start` and terminates; reversed, it is a duplicate-free walk from `start` to `goal` whose length is the goal's hop count plus one |
| `RoadGraph.Reverse` | src/main/java/roadgraph/MapGraph.java:209 | the reversed list has the same length, and its element `i` is the original's element at the mirrored index |
| `Graph.TotalLengthRemove` | src/main/java/roadgraph/MapGraph.java:41-43 | the sum of the out-list lengths can be split off at any vertex, whichever vertex is taken first |
| `Graph.TotalLengthInsert` | src/main/java/roadgraph/MapGraph.java:109-111 | adding a vertex with an empty out-list leaves the sum of out-list lengths unchanged |
| `Graph.TotalLengthUpdate` | src/main/java/roadgraph/MapGraph.java:145-150 | replacing one out-list changes the sum of out-list lengths by exactly the difference in that list's length |
| `Graph.EdgeCount` | src/main/java/roadgraph/MapGraph.java:145-150 | when out-lists are duplicate-free, the sum of their lengths equals the number of distinct directed pairs, so each edge is counted once |
| `Graph.OutPairsSize` | src/main/java/roadgraph/MapGraph.java:148-149 | a duplicate-free out-list yields as many distinct (source, destination) pairs as it has entries |
| `Graph.ClosedSetContainsWalks` | src/main/java/roadgraph/MapGraph.java:195-225 | a set holding `start` and all out-neighbours of its members holds every vertex reachable from `start`, so a search that runs dry without meeting the goal rightly answers null |
| `Graph.NoDupsCardinality` | src/test/java/roadgraph/MapGraphTest.java:95-123 | helper of `Fixtures.InNeighborsScenario`: a duplicate-free list has as many elements as distinct members, so a duplicate-free list whose members are exactly 1 and 2 has length two |
| `Fixtures.AddVertexScenario` | src/test/java/roadgraph/MapGraphTest.java:125-150 | null is refused; the first insertion of a location succeeds and a repeat is refused; the vertex count is then 1 |
| `Fixtures.TwoLocations` | src/test/java/roadgraph/MapGraphEdgesTest.java:28-36 | a fresh graph after adding locations 1 and 2 holds exactly those two vertices and no road |
| `Fixtures.AddEdgeRefusedScenario` | src/test/java/roadgraph/MapGraphEdgesTest.java:41-107 | an unknown endpoint, a null endpoint, a null road name, a null road type and a negative length are each refused, and no edge is stored |
| `Fixtures.AddEdgeTwiceScenario` | src/test/java/roadgraph/MapGraphEdgesTest.java:108-129 | the same edge added twice is accepted both times, stored once in the source's out-list, and counted once |
| `Fixtures.InNeighborsScenario` | src/test/java/roadgraph/MapGraphTest.java:95-123 | in the four-location test map, the in-neighbours of location 4 are 1 and 2, in either order |
| `Fixtures.FewestHopsToSeven` | src/test/java/roadgraph/MapGraphTest.java:152-186 | in the eight-location test map, the only fewest-hops walk from 0 to 7 is 0, 5, 7 |
| `Fixtures.BfsScenario` | src/test/java/roadgraph/MapGraphTest.java:152-186 | breadth-first search from 0 to 7 in the eight-location test map returns 0, 5, 7 |

## Left out

- `dijkstra` and `aStarSearch` (src/main/java/roadgraph/MapGraph.java:238-307) are unimplemented and always return null, so there is no behaviour to model.
- `main` (src/main/java/roadgraph/MapGraph.java:309-334) and `GraphLoader.loadRoadMap` do file I/O and console output. `util.GraphLoader` is not part of this model, and neither are the tests that load map files (src/test/java/roadgraph/MapGraphTest.java:188-234).
- The `nodeSearched` visualisation callback and the two-argument `bfs` overload that passes a no-op callback. The callback is foreign code and has no effect on the result.
- `GeographicPoint` is not part of this model. Its coordinates and distance are floating point. Locations are an opaque type with equality.
- `RoadGraph.MapGraph.AddEdge`: the length is a mathematical `real`. A Java `double` NaN passes the `length < 0` test and is not modelled.
- `numberOfVertices` and `numberOfEdges` are Java `int`s. Wrap-around after 2^31 - 1 insertions is not modelled, because the counters here are unbounded integers.
- `HashMap` iteration order. `GetInNeighborsFromVertex` takes the keys in whatever order the running program picks with `:|`. Its contract is proved for every such choice, so it states membership and no duplicates, not an order.
- Aliasing of the live collections returned by `getVertices` and `getOutNeighborsFromVertex`. The model returns values, so a caller cannot change the graph through them.
- `Fixtures.InNeighborsScenario`, `Fixtures.BfsScenario`: the tests build the map through `addVertex` and `addEdge` calls. These scenarios take a graph that already holds that adjacency. Verifying that long chain of `addVertex`/`addEdge` calls on literal locations costs the verifier too much.
