/**
 * The road graph: a directed graph over opaque locations (intersections),
 * stored as a map from each vertex to the ordered list of its out-neighbours,
 * with a vertex counter and an edge counter kept beside the map.
 */
module RoadGraph {
  import opened Wrappers
  import opened Graph

  /** The outcome of `AddEdge`: it returns normally or throws `IllegalArgumentException`. */
  datatype Status = Ok | IllegalArgumentException

  /** The reverse of `s`, as `Collections.reverse` leaves a list. */
  function Reverse<T>(s: seq<T>): (r: seq<T>)
    ensures |r| == |s|
    ensures forall i | 0 <= i < |s| :: r[i] == s[|s| - 1 - i]
  {
    if s == [] then [] else [s[|s| - 1]] + Reverse(s[..|s| - 1])
  }

  class MapGraph<V(==, !new)> {
    var adjacency: map<V, seq<V>>
    var numberOfVertices: int
    var numberOfEdges: int

    /** The counters agree with the map, and the map is a well-formed graph. */
    ghost predicate Valid()
      reads this
    {
      && WellFormed(adjacency)
      && numberOfVertices == |adjacency|
      && numberOfEdges == TotalLength(adjacency)
    }

    /** An empty graph. */
    constructor ()
      ensures Valid()
      ensures adjacency == map[]
    {
      adjacency := map[];
      numberOfVertices := 0;
      numberOfEdges := 0;
    }

    /** The vertex set; the vertex counter is its size and it holds every out-neighbour. */
    function GetVertices(): (vertices: set<V>)
      reads this
      requires Valid()
      ensures |vertices| == numberOfVertices
      ensures forall u, w | u in vertices && Edge(adjacency, u, w) :: w in vertices
    {
      adjacency.Keys
    }

    function GetNumVertices(): (n: int)
      reads this
      requires Valid()
      ensures n == |GetVertices()|
    {
      numberOfVertices
    }

    /** The edge counter is the number of distinct directed pairs in the graph. */
    function GetNumEdges(): (n: int)
      reads this
      requires Valid()
      ensures n == |EdgeSet(adjacency)|
    {
      EdgeCount(adjacency);
      numberOfEdges
    }

    /**
     * The stored out-list of `vertex`, or the empty list when `vertex` is null
     * or not a vertex. It holds exactly the destinations of `vertex`'s edges.
     */
    function GetOutNeighborsFromVertex(vertex: Option<V>): (out: seq<V>)
      reads this
      ensures vertex.None? || vertex.value !in adjacency ==> out == []
      ensures vertex.Some? && vertex.value in adjacency ==> out == adjacency[vertex.value]
      ensures forall w :: w in out <==> vertex.Some? && Edge(adjacency, vertex.value, w)
      ensures Valid() ==> NoDups(out) && forall w | w in out :: w in adjacency
    {
      if vertex.Some? && vertex.value in adjacency then adjacency[vertex.value] else []
    }

    /**
     * Every vertex with an edge into `vertex`, each once; the order follows the
     * iteration order of the map's keys, which the model leaves arbitrary.
     */
    method GetInNeighborsFromVertex(vertex: Option<V>) returns (inNeighbors: seq<V>)
      requires Valid()
      ensures forall u :: u in inNeighbors <==> vertex.Some? && Edge(adjacency, u, vertex.value)
      ensures NoDups(inNeighbors)
    {
      inNeighbors := [];
      var remaining := adjacency.Keys;
      while remaining != {}
        invariant remaining <= adjacency.Keys
        invariant forall u :: u in inNeighbors <==>
          u in adjacency && u !in remaining && vertex.Some? && vertex.value in adjacency[u]
        invariant NoDups(inNeighbors)
        decreases remaining
      {
        var possibleInNeighbor :| possibleInNeighbor in remaining;
        var outList := adjacency[possibleInNeighbor];
        ghost var before := inNeighbors;
        var i := 0;
        while i < |outList|
          invariant 0 <= i <= |outList|
          invariant inNeighbors ==
            before + if vertex.Some? && vertex.value in outList[..i] then [possibleInNeighbor] else []
        {
          assert outList[..i + 1] == outList[..i] + [outList[i]];
          if Some(outList[i]) == vertex {
            assert outList[i] !in outList[..i];
            inNeighbors := inNeighbors + [possibleInNeighbor];
          }
          i := i + 1;
        }
        assert outList[..i] == outList;
        remaining := remaining - {possibleInNeighbor};
      }
    }

    /**
     * Adds `location` as a vertex with no out-edges, unless it is null or
     * already a vertex; answers whether it was added.
     */
    method AddVertex(location: Option<V>) returns (added: bool)
      requires Valid()
      modifies this
      ensures Valid()
      ensures added <==> location.Some? && location.value !in old(adjacency)
      ensures added ==> adjacency == old(adjacency)[location.value := []]
      ensures !added ==> adjacency == old(adjacency)
      ensures numberOfVertices == old(numberOfVertices) + if added then 1 else 0
      ensures numberOfEdges == old(numberOfEdges)
    {
      if location.Some? && location.value !in adjacency {
        TotalLengthInsert(adjacency, location.value);
        adjacency := adjacency[location.value := []];
        numberOfVertices := numberOfVertices + 1;
        return true;
      }
      return false;
    }

    /**
     * Adds the directed edge `from` -> `to`. Throws (and changes nothing) when an
     * argument is null, the length is negative or an endpoint is not a vertex.
     * Otherwise appends `to` to `from`'s out-list unless it is already there.
     * The road name, type and length are checked but not stored.
     */
    method AddEdge(from: Option<V>, to: Option<V>, roadName: Option<string>, roadType: Option<string>, length: real)
      returns (status: Status)
      requires Valid()
      modifies this
      ensures Valid()
      ensures status == IllegalArgumentException <==>
        || from.None? || to.None? || roadName.None? || roadType.None? || length < 0.0
        || from.value !in old(adjacency) || to.value !in old(adjacency)
      ensures status == IllegalArgumentException ==> unchanged(this)
      ensures status == Ok && to.value in old(adjacency)[from.value] ==> unchanged(this)
      ensures status == Ok && to.value !in old(adjacency)[from.value] ==>
        && adjacency == old(adjacency)[from.value := old(adjacency)[from.value] + [to.value]]
        && numberOfEdges == old(numberOfEdges) + 1
      ensures numberOfVertices == old(numberOfVertices)
    {
      if || from.None? || to.None? || roadName.None? || roadType.None? || length < 0.0
         || from.value !in GetVertices() || to.value !in GetVertices()
      {
        return IllegalArgumentException;
      }
      if to.value !in GetOutNeighborsFromVertex(from) {
        var u, w := from.value, to.value;
        var out := adjacency[u] + [w];
        assert NoDups(out) by {
          forall i, j | 0 <= i < j < |out| ensures out[i] != out[j] {
            if j == |out| - 1 {
              assert out[i] in adjacency[u];
            }
          }
        }
        TotalLengthUpdate(adjacency, u, out);
        adjacency := adjacency[u := out];
        numberOfEdges := numberOfEdges + 1;
      }
      return Ok;
    }

    /**
     * The bookkeeping of a breadth-first search from `s`: `queue` is the
     * frontier, `parent` and `dist` record for each visited vertex the vertex
     * it was discovered from and its hop count, and `expanded` holds the
     * vertices whose out-neighbours have all been discovered. Every walk of
     * at most `level` hops from `s` ends in a visited vertex, and `dist` never
     * exceeds the length of a walk, so it is the fewest-hops distance.
     */
    ghost predicate SearchState(s: V, queue: seq<V>, visited: set<V>, parent: map<V, V>,
                                dist: map<V, nat>, expanded: set<V>, level: nat)
      reads this
    {
      && s in visited && visited <= adjacency.Keys
      && dist.Keys == visited && dist[s] == 0
      && parent.Keys == visited - {s}
      && (forall v | v in parent ::
            parent[v] in visited && Edge(adjacency, parent[v], v) && dist[v] == dist[parent[v]] + 1)
      && NoDups(queue)
      && (forall v | v in queue :: v in visited && v !in expanded)
      && expanded <= visited
      && (forall u, w | u in expanded && Edge(adjacency, u, w) :: w in visited)
      && (forall i, j | 0 <= i <= j < |queue| :: dist[queue[i]] <= dist[queue[j]])
      && (forall v | v in queue :: level <= dist[v] <= level + 1)
      && (forall v, p | v in visited && Walk(adjacency, p, s, v) :: dist[v] < |p|)
      && (forall v, p | Walk(adjacency, p, s, v) && |p| <= level + 1 :: v in visited)
    }

    /**
     * Breadth-first search from `start` to `goal`. Answers `None` (Java's null)
     * exactly when an argument is null or no walk leads from `start` to
     * `goal`; otherwise a duplicate-free walk from `start` to `goal` with the
     * fewest hops.
     */
    method Bfs(start: Option<V>, goal: Option<V>) returns (route: Option<seq<V>>)
      requires Valid()
      ensures route.None? <==> start.None? || goal.None? || !Reachable(adjacency, start.value, goal.value)
      ensures route.Some? ==> Walk(adjacency, route.value, start.value, goal.value)
      ensures route.Some? ==> NoDups(route.value)
      ensures route.Some? ==> forall p | Walk(adjacency, p, start.value, goal.value) :: |route.value| <= |p|
    {
      if start.None? || goal.None? || start.value !in GetVertices() || goal.value !in GetVertices() {
        return None;
      }
      var s, g := start.value, goal.value;
      var whereToNext: seq<V> := [s];
      var visited: set<V> := {s};
      var parent: map<V, V> := map[];
      ghost var dist: map<V, nat> := map[s := 0];
      ghost var expanded: set<V> := {};
      ghost var level: nat := 0;
      assert forall v, p | Walk(adjacency, p, s, v) && |p| <= 1 :: v == s;
      while whereToNext != []
        invariant SearchState(s, whereToNext, visited, parent, dist, expanded, level)
        invariant forall v | v in visited :: v in expanded || v in whereToNext
        invariant g !in expanded
        decreases adjacency.Keys - expanded
      {
        ghost var queue := whereToNext;
        var currentNode := whereToNext[0];
        whereToNext := whereToNext[1..];

        if currentNode == g {
          var shortestPath := ReconstructPath(s, g, parent, visited, dist);
          return Some(shortestPath);
        }

        if dist[currentNode] == level + 1 {
          RaiseLevel(s, queue, visited, parent, dist, expanded, level);
          level := level + 1;
        }
        assert SearchState(s, whereToNext, visited, parent, dist, expanded, level);
        whereToNext, visited, parent, dist :=
          VisitOutNeighbors(s, currentNode, whereToNext, visited, parent, dist, expanded, level);
        expanded := expanded + {currentNode};
      }

      // The queue ran dry: the visited vertices are closed under out-edges and
      // do not include the goal, so no walk reaches it.
      forall p | Walk(adjacency, p, s, g) ensures false {
        ClosedSetContainsWalks(adjacency, expanded, p, s, g);
      }
      return None;
    }

    /**
     * Once the head of the queue lies one hop beyond `level`, every vertex at
     * most `level` hops away has been expanded, so every walk of `level` + 1
     * hops from `s` ends in a visited vertex.
     */
    lemma RaiseLevel(s: V, queue: seq<V>, visited: set<V>, parent: map<V, V>,
                     dist: map<V, nat>, expanded: set<V>, level: nat)
      requires SearchState(s, queue, visited, parent, dist, expanded, level)
      requires forall v | v in visited :: v in expanded || v in queue
      requires queue != [] && dist[queue[0]] == level + 1
      ensures SearchState(s, queue[1..], visited, parent, dist, expanded, level + 1)
    {
      forall v, p | Walk(adjacency, p, s, v) && |p| == level + 2 ensures v in visited {
        WalkPrefix(adjacency, p, s, v);
        var x := p[|p| - 2];
        assert x in visited && dist[x] <= level;
        assert x !in queue by {
          forall i | 0 <= i < |queue| ensures queue[i] != x {
            assert dist[queue[0]] <= dist[queue[i]];
          }
        }
      }
    }

    /**
     * The `for` loop over `current`'s out-neighbours: each one not yet visited
     * is marked visited, gets `current` as its parent and joins the back of
     * the queue. Afterwards `current` counts as expanded.
     */
    method VisitOutNeighbors(s: V, current: V, queue: seq<V>, visited: set<V>, parent: map<V, V>,
                             ghost dist: map<V, nat>, ghost expanded: set<V>, ghost level: nat)
      returns (queue': seq<V>, visited': set<V>, parent': map<V, V>, ghost dist': map<V, nat>)
      requires WellFormed(adjacency)
      requires SearchState(s, queue, visited, parent, dist, expanded, level)
      requires current in visited && current !in expanded && current !in queue && dist[current] == level
      requires forall v | v in visited :: v in expanded || v in queue || v == current
      ensures SearchState(s, queue', visited', parent', dist', expanded + {current}, level)
      ensures forall v | v in visited' :: v in expanded + {current} || v in queue'
      ensures queue <= queue'
      ensures visited <= visited'
      ensures forall v | v in visited' && v !in visited ::
        Edge(adjacency, current, v) && parent'[v] == current && dist'[v] == level + 1
      ensures forall v | v in parent :: parent'[v] == parent[v]
    {
      queue', visited', parent', dist' := queue, visited, parent, dist;
      var outNeighbors := GetOutNeighborsFromVertex(Some(current));
      var i := 0;
      while i < |outNeighbors|
        invariant 0 <= i <= |outNeighbors|
        invariant SearchState(s, queue', visited', parent', dist', expanded, level)
        invariant forall w | w in outNeighbors[..i] :: w in visited'
        invariant visited <= visited'
        invariant current in visited' && current !in queue' && dist'[current] == level
        invariant forall v | v in visited' :: v in expanded || v in queue' || v == current
        invariant queue <= queue'
        invariant forall v | v in visited' && v !in visited ::
          Edge(adjacency, current, v) && parent'[v] == current && dist'[v] == level + 1
        invariant forall v | v in parent :: parent'[v] == parent[v]
      {
        var outNeighbor := outNeighbors[i];
        queue', visited', parent', dist' :=
          VisitOne(s, current, outNeighbor, queue', visited', parent', dist', expanded, level);
        PrefixMembers(outNeighbors, i);
        i := i + 1;
      }
      assert outNeighbors[..i] == outNeighbors;
      Expand(s, current, queue', visited', parent', dist', expanded, level);
    }

    /**
     * One pass of the `for` loop's body: an out-neighbour `w` of `current`
     * not yet visited is marked visited, gets `current` as its parent, one
     * more hop than `current`, and joins the back of the queue; a visited one
     * changes nothing.
     */
    method VisitOne(s: V, current: V, w: V, queue: seq<V>, visited: set<V>, parent: map<V, V>,
                    ghost dist: map<V, nat>, ghost expanded: set<V>, ghost level: nat)
      returns (queue': seq<V>, visited': set<V>, parent': map<V, V>, ghost dist': map<V, nat>)
      requires WellFormed(adjacency)
      requires SearchState(s, queue, visited, parent, dist, expanded, level)
      requires current in visited && dist[current] == level && Edge(adjacency, current, w)
      ensures SearchState(s, queue', visited', parent', dist', expanded, level)
      ensures w in visited'
      ensures w in visited ==> queue' == queue && visited' == visited && parent' == parent && dist' == dist
      ensures w !in visited ==>
        && queue' == queue + [w] && visited' == visited + {w}
        && parent' == parent[w := current] && dist' == dist[w := level + 1]
    {
      queue', visited', parent', dist' := queue, visited, parent, dist;
      if w !in visited {
        Discover(s, current, w, queue, visited, parent, dist, expanded, level);
        visited' := visited + {w};
        parent' := parent[w := current];
        dist' := dist[w := level + 1];
        queue' := queue + [w];
      }
    }

    /** Once all out-neighbours of `current` are visited, `current` counts as expanded. */
    lemma Expand(s: V, current: V, queue: seq<V>, visited: set<V>, parent: map<V, V>,
                 dist: map<V, nat>, expanded: set<V>, level: nat)
      requires SearchState(s, queue, visited, parent, dist, expanded, level)
      requires current in visited && current !in queue
      requires forall w | Edge(adjacency, current, w) :: w in visited
      ensures SearchState(s, queue, visited, parent, dist, expanded + {current}, level)
    {
    }

    /** Discovering an unvisited out-neighbour `w` of `current` keeps the search state. */
    lemma Discover(s: V, current: V, w: V, queue: seq<V>, visited: set<V>, parent: map<V, V>,
                   dist: map<V, nat>, expanded: set<V>, level: nat)
      requires SearchState(s, queue, visited, parent, dist, expanded, level)
      requires current in visited && dist[current] == level
      requires Edge(adjacency, current, w) && w !in visited
      requires WellFormed(adjacency)
      ensures SearchState(s, queue + [w], visited + {w}, parent[w := current],
                          dist[w := level + 1], expanded, level)
    {
      var dist' := dist[w := level + 1];
      forall p | Walk(adjacency, p, s, w) ensures dist'[w] < |p| {
        assert |p| > level + 1;
      }
    }

    /**
     * Follows the parent pointers back from `goal` until a vertex without a
     * parent (which is `start`), then reverses the list: the result is a walk
     * from `start` to `goal` of dist[goal] hops.
     */
    method ReconstructPath(start: V, goal: V, parent: map<V, V>, ghost visited: set<V>, ghost dist: map<V, nat>)
      returns (path: seq<V>)
      requires Valid()
      requires start in visited && goal in visited && visited <= adjacency.Keys
      requires dist.Keys == visited && dist[start] == 0
      requires parent.Keys == visited - {start}
      requires forall v | v in parent ::
        parent[v] in visited && Edge(adjacency, parent[v], v) && dist[v] == dist[parent[v]] + 1
      ensures Walk(adjacency, path, start, goal)
      ensures NoDups(path) && |path| == dist[goal] + 1
    {
      var shortestPath := [goal];
      var nextHop := Get(parent, goal);
      while nextHop.Some?
        invariant |shortestPath| >= 1 && shortestPath[0] == goal
        invariant forall i | 0 <= i < |shortestPath| ::
          shortestPath[i] in visited && dist[shortestPath[i]] + i == dist[goal]
        invariant forall i | 0 <= i < |shortestPath| - 1 :: Edge(adjacency, shortestPath[i + 1], shortestPath[i])
        invariant nextHop == Get(parent, shortestPath[|shortestPath| - 1])
        decreases dist[shortestPath[|shortestPath| - 1]]
      {
        shortestPath := shortestPath + [nextHop.value];
        nextHop := Get(parent, nextHop.value);
      }
      var last := shortestPath[|shortestPath| - 1];
      assert last == start by {
        assert last !in parent;
      }
      path := Reverse(shortestPath);
      var n := |path|;
      assert path[0] == start && dist[goal] == n - 1;
      forall i | 0 <= i < n ensures path[i] in adjacency && dist[path[i]] == i {
        assert path[i] == shortestPath[n - 1 - i];
      }
      forall i | 0 <= i < n - 1 ensures Edge(adjacency, path[i], path[i + 1]) {
        assert path[i] == shortestPath[n - 1 - i] && path[i + 1] == shortestPath[n - 2 - i];
      }
    }
  }
}
