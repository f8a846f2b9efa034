/**
 * The unit-test scenarios of the road graph, stated as client methods whose
 * postconditions follow from the contracts of `MapGraph` alone. Locations
 * are plain integers here. In the vertex, in-neighbour and search scenarios
 * location k stands for the point (k, 1); in the edge scenarios 1 and 2
 * stand for the points (1, 1) and (1, 2), and the unknown 3 and 4 for
 * (2, 1) and (2, 2).
 */
module Fixtures {
  import opened Wrappers
  import opened Graph
  import opened RoadGraph

  /** Adding a vertex counts it once; a repeated or null location is refused. */
  method AddVertexScenario() returns (first: bool, again: bool, nullAdded: bool, count: int)
    ensures first && !again && !nullAdded
    ensures count == 1
  {
    var graph := new MapGraph<int>();
    nullAdded := graph.AddVertex(None);
    first := graph.AddVertex(Some(1));
    again := graph.AddVertex(Some(1));
    count := graph.GetNumVertices();
  }

  /** A fresh graph holding the two locations 1 and 2 and no road. */
  method TwoLocations() returns (graph: MapGraph<int>)
    ensures fresh(graph) && graph.Valid()
    ensures graph.adjacency == map[1 := [], 2 := []]
  {
    graph := new MapGraph<int>();
    var added := graph.AddVertex(Some(1));
    added := graph.AddVertex(Some(2));
  }

  /**
   * Between two vertices, an edge with an unknown endpoint, a null endpoint,
   * a null road name, a null road type or a negative length is refused and
   * leaves no edge.
   */
  method AddEdgeRefusedScenario() returns (refused: seq<Status>, edges: int)
    ensures refused == [IllegalArgumentException, IllegalArgumentException, IllegalArgumentException,
                        IllegalArgumentException, IllegalArgumentException]
    ensures edges == 0
  {
    var graph := TwoLocations();
    var name, kind := Some("Oziel Doria"), Some("residential");
    var r0 := graph.AddEdge(Some(3), Some(4), name, kind, 0.5);
    var r1 := graph.AddEdge(None, Some(2), name, kind, 0.5);
    var r2 := graph.AddEdge(Some(1), Some(2), None, kind, 0.5);
    var r3 := graph.AddEdge(Some(1), Some(2), name, None, 0.5);
    var r4 := graph.AddEdge(Some(1), Some(2), name, kind, -0.5);
    refused := [r0, r1, r2, r3, r4];
    edges := graph.GetNumEdges();
    assert EdgeSet(graph.adjacency) == {};
  }

  /** The same edge added twice is stored and counted once. */
  method AddEdgeTwiceScenario() returns (first: Status, second: Status, out1: seq<int>, edges: int)
    ensures first == Ok && second == Ok
    ensures out1 == [2]
    ensures edges == 1
  {
    var graph := TwoLocations();
    var name, kind := Some("Oziel Doria"), Some("residential");
    first := graph.AddEdge(Some(1), Some(2), name, kind, 0.5);
    second := graph.AddEdge(Some(1), Some(2), name, kind, 0.5);
    out1 := graph.GetOutNeighborsFromVertex(Some(1));
    edges := graph.GetNumEdges();
    assert EdgeSet(graph.adjacency) == {(1, 2)};
  }

  /**
   * Location 1 has roads to 2, 3 and 4 and location 2 to 1 and 4: the
   * in-neighbours of 4 are 1 and 2, in the order the map's keys come.
   */
  method InNeighborsScenario(graph: MapGraph<int>) returns (into4: seq<int>)
    requires graph.Valid() && graph.adjacency == map[1 := [2, 3, 4], 2 := [1, 4], 3 := [], 4 := []]
    ensures into4 == [1, 2] || into4 == [2, 1]
  {
    into4 := graph.GetInNeighborsFromVertex(Some(4));
    assert 1 in into4 && 2 in into4;
    assert forall u | u in into4 :: u == 1 || u == 2;
    forall i | 0 <= i < |into4| ensures into4[i] == 1 || into4[i] == 2 {
      assert into4[i] in into4 && into4[i] in graph.adjacency.Keys;
    }
    assert (set x | x in into4) == {1, 2};
    NoDupsCardinality(into4);
  }

  /** The adjacency of the eight-location fixture, with two-way roads 0-1, 0-4, 0-5, 1-2, 1-3, 3-4, 5-6 and 5-7. */
  function EightLocations(): map<int, seq<int>>
  {
    map[0 := [1, 4, 5], 1 := [0, 2, 3], 2 := [1], 3 := [1, 4],
        4 := [3, 0], 5 := [0, 6, 7], 6 := [5], 7 := [5]]
  }

  /** In the eight-location fixture, 0, 5, 7 is the only fewest-hops walk from 0 to 7. */
  lemma FewestHopsToSeven(r: seq<int>)
    requires Walk(EightLocations(), r, 0, 7)
    requires forall p | Walk(EightLocations(), p, 0, 7) :: |r| <= |p|
    ensures r == [0, 5, 7]
  {
    var adj := EightLocations();
    assert Walk(adj, [0, 5, 7], 0, 7);
    assert |r| != 1;
    assert Edge(adj, r[0], r[1]);
    assert |r| != 2;
    assert Edge(adj, r[1], r[2]);
  }

  /** Breadth-first search on the eight-location fixture routes 0, 5, 7. */
  method BfsScenario(graph: MapGraph<int>) returns (route: Option<seq<int>>)
    requires graph.Valid() && graph.adjacency == EightLocations()
    ensures route == Some([0, 5, 7])
  {
    route := graph.Bfs(Some(0), Some(7));
    assert Walk(EightLocations(), [0, 5, 7], 0, 7);
    FewestHopsToSeven(route.value);
  }
}
