/**
 * Specification of a directed graph stored as an adjacency map: every vertex
 * is a key, and its value is the ordered list of its out-neighbours.
 * These definitions are the reference against which the road graph's
 * counters, neighbour queries and breadth-first search are proved.
 */
module Graph {

  /** No element of `s` occurs twice. */
  ghost predicate NoDups<V>(s: seq<V>)
  {
    forall i, j | 0 <= i < j < |s| :: s[i] != s[j]
  }

  /** A duplicate-free sequence has as many elements as it has members. */
  lemma {:induction false} NoDupsCardinality<V>(s: seq<V>)
    requires NoDups(s)
    ensures |set x | x in s| == |s|
  {
    if s != [] {
      var rest := s[1..];
      assert NoDups(rest);
      NoDupsCardinality(rest);
      assert s == [s[0]] + rest;
      assert s[0] !in rest;
      assert (set x | x in s) == {s[0]} + (set x | x in rest);
    }
  }

  /** The members of a prefix one longer are those of the prefix and the next element. */
  lemma PrefixMembers<V>(s: seq<V>, i: nat)
    requires i < |s|
    ensures forall x :: x in s[..i + 1] <==> x in s[..i] || x == s[i]
  {
    assert s[..i + 1] == s[..i] + [s[i]];
  }

  /** There is a directed edge from `u` to `w`. */
  ghost predicate Edge<V>(adj: map<V, seq<V>>, u: V, w: V)
  {
    u in adj && w in adj[u]
  }

  /** The shape invariant of the store: out-lists are duplicate-free and only name vertices. */
  ghost predicate WellFormed<V>(adj: map<V, seq<V>>)
  {
    && (forall u | u in adj :: NoDups(adj[u]))
    && (forall u, w | u in adj && w in adj[u] :: w in adj)
  }

  /** The sum of the lengths of all out-lists. */
  ghost function TotalLength<V>(adj: map<V, seq<V>>): nat
    decreases adj.Keys
  {
    if adj == map[] then 0
    else
      var u :| u in adj;
      |adj[u]| + TotalLength(adj - {u})
  }

  /** The sum does not depend on which vertex is taken out first. */
  lemma {:induction false} TotalLengthRemove<V>(adj: map<V, seq<V>>, u: V)
    requires u in adj
    ensures TotalLength(adj) == |adj[u]| + TotalLength(adj - {u})
    decreases adj.Keys
  {
    var x :| x in adj && TotalLength(adj) == |adj[x]| + TotalLength(adj - {x});
    if x != u {
      TotalLengthRemove(adj - {x}, u);
      TotalLengthRemove(adj - {u}, x);
      assert adj - {x} - {u} == adj - {u} - {x};
    }
  }

  /** Replacing one out-list changes the sum by the difference in length. */
  lemma TotalLengthUpdate<V>(adj: map<V, seq<V>>, u: V, s: seq<V>)
    requires u in adj
    ensures TotalLength(adj[u := s]) == TotalLength(adj) - |adj[u]| + |s|
  {
    TotalLengthRemove(adj, u);
    TotalLengthRemove(adj[u := s], u);
    assert adj[u := s] - {u} == adj - {u};
  }

  /** A new vertex with an empty out-list leaves the sum unchanged. */
  lemma TotalLengthInsert<V>(adj: map<V, seq<V>>, u: V)
    requires u !in adj
    ensures TotalLength(adj[u := []]) == TotalLength(adj)
  {
    TotalLengthRemove(adj[u := []], u);
    assert adj[u := []] - {u} == adj;
  }

  /** The set of directed (source, destination) pairs. */
  ghost function EdgeSet<V>(adj: map<V, seq<V>>): set<(V, V)>
  {
    set u, w | u in adj && w in adj[u] :: (u, w)
  }

  /** The pairs leaving `u` towards the members of `s`. */
  ghost function OutPairs<V>(u: V, s: seq<V>): set<(V, V)>
  {
    set w | w in s :: (u, w)
  }

  lemma {:induction false} OutPairsSize<V>(u: V, s: seq<V>)
    requires NoDups(s)
    ensures |OutPairs(u, s)| == |s|
  {
    if s != [] {
      var rest := s[1..];
      assert NoDups(rest);
      OutPairsSize(u, rest);
      assert s == [s[0]] + rest;
      assert s[0] !in rest;
      assert OutPairs(u, s) == {(u, s[0])} + OutPairs(u, rest);
    }
  }

  /**
   * With duplicate-free out-lists, the sum of their lengths is the number of
   * distinct directed pairs: the edge counter counts edges, not insertions.
   */
  lemma {:induction false} EdgeCount<V>(adj: map<V, seq<V>>)
    requires forall u | u in adj :: NoDups(adj[u])
    ensures |EdgeSet(adj)| == TotalLength(adj)
    decreases adj.Keys
  {
    if adj == map[] {
      assert EdgeSet(adj) == {};
    } else {
      var u :| u in adj;
      var rest := adj - {u};
      EdgeCount(rest);
      TotalLengthRemove(adj, u);
      OutPairsSize(u, adj[u]);
      assert EdgeSet(adj) == EdgeSet(rest) + OutPairs(u, adj[u]);
      assert EdgeSet(rest) !! OutPairs(u, adj[u]);
    }
  }

  /** `p` is a non-empty sequence of vertices, each followed by one of its out-neighbours. */
  ghost predicate IsPath<V>(adj: map<V, seq<V>>, p: seq<V>)
  {
    && |p| > 0
    && (forall i | 0 <= i < |p| :: p[i] in adj)
    && (forall i | 0 <= i < |p| - 1 :: Edge(adj, p[i], p[i + 1]))
  }

  /** `p` is a path from `s` to `t`; it makes |p| - 1 hops. */
  ghost predicate Walk<V>(adj: map<V, seq<V>>, p: seq<V>, s: V, t: V)
  {
    IsPath(adj, p) && p[0] == s && p[|p| - 1] == t
  }

  ghost predicate Reachable<V(!new)>(adj: map<V, seq<V>>, s: V, t: V)
  {
    exists p :: Walk(adj, p, s, t)
  }

  /** Dropping the last vertex of a walk of at least one hop leaves a walk to its predecessor. */
  lemma WalkPrefix<V>(adj: map<V, seq<V>>, p: seq<V>, s: V, t: V)
    requires Walk(adj, p, s, t) && |p| >= 2
    ensures Walk(adj, p[..|p| - 1], s, p[|p| - 2])
    ensures Edge(adj, p[|p| - 2], t)
  {
    assert Edge(adj, p[|p| - 2], p[|p| - 1]);
  }

  /**
   * A set that contains `s` and every out-neighbour of its members contains
   * every vertex reachable from `s`.
   */
  lemma {:induction false} ClosedSetContainsWalks<V>(adj: map<V, seq<V>>, closed: set<V>, p: seq<V>, s: V, t: V)
    requires Walk(adj, p, s, t) && s in closed
    requires forall u, w | u in closed && Edge(adj, u, w) :: w in closed
    ensures t in closed
    decreases |p|
  {
    if |p| > 1 {
      WalkPrefix(adj, p, s, t);
      ClosedSetContainsWalks(adj, closed, p[..|p| - 1], s, p[|p| - 2]);
    }
  }
}
