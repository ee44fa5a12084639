/**
 * Directed graphs over transactions as edge sets, the path-based meaning
 * of "the graph has a cycle", and a cycle check proved against it: for
 * every node that has an outgoing edge, a breadth-first search computes the
 * nodes reachable from it, and the graph is cyclic when some node reaches
 * itself.
 */
module Graphs {
  import opened Schedules

  type Edges = set<(Tx, Tx)>

  /** `p` is a walk of at least one edge. */
  ghost predicate IsPath(edges: Edges, p: seq<Tx>) {
    |p| >= 2 && forall i :: 0 <= i < |p| - 1 ==> (p[i], p[i + 1]) in edges
  }

  /** `w` can be reached from `v` along at least one edge. */
  ghost predicate Reaches(edges: Edges, v: Tx, w: Tx) {
    exists p :: IsPath(edges, p) && p[0] == v && p[|p| - 1] == w
  }

  /** The graph holds a closed walk, hence a directed cycle (a self-loop included). */
  ghost predicate HasCycle(edges: Edges) {
    exists p :: IsPath(edges, p) && p[0] == p[|p| - 1]
  }

  function Successors(edges: Edges, u: Tx): (s: set<Tx>)
    ensures forall w :: w in s <==> (u, w) in edges
  {
    set e | e in edges && e.0 == u :: e.1
  }

  function Sources(edges: Edges): (s: set<Tx>)
    ensures forall v :: v in s <==> exists w :: (v, w) in edges
  {
    set e | e in edges :: e.0
  }

  function Targets(edges: Edges): (s: set<Tx>)
    ensures forall w :: w in s <==> exists v :: (v, w) in edges
  {
    set e | e in edges :: e.1
  }

  lemma ReachesEdge(edges: Edges, v: Tx, w: Tx)
    requires (v, w) in edges
    ensures Reaches(edges, v, w)
  {
    assert IsPath(edges, [v, w]);
  }

  /** A walk to `u` followed by the edge u -> w is a walk to `w`. */
  lemma ReachesStep(edges: Edges, v: Tx, u: Tx, w: Tx)
    requires Reaches(edges, v, u) && (u, w) in edges
    ensures Reaches(edges, v, w)
  {
    var p :| IsPath(edges, p) && p[0] == v && p[|p| - 1] == u;
    var q := p + [w];
    assert forall i :: 0 <= i < |q| - 1 ==> q[i] == p[i];
    assert IsPath(edges, q);
  }

  /** Every node after the first on a walk from `v` is in any successor-closed set holding v's successors. */
  lemma {:induction false} PathStaysInClosedSet(edges: Edges, v: Tx, s: set<Tx>, p: seq<Tx>, k: nat)
    requires Successors(edges, v) <= s
    requires forall u, w :: u in s && (u, w) in edges ==> w in s
    requires IsPath(edges, p) && p[0] == v
    requires 1 <= k < |p|
    ensures p[k] in s
  {
    if k > 1 {
      PathStaysInClosedSet(edges, v, s, p, k - 1);
      assert (p[k - 1], p[k]) in edges;
    } else {
      assert (p[0], p[1]) in edges;
    }
  }

  /** The set of nodes reachable from `v` along at least one edge. */
  method ReachableFrom(edges: Edges, v: Tx) returns (visited: set<Tx>)
    ensures forall w :: w in visited <==> Reaches(edges, v, w)
  {
    visited := {};
    var frontier := Successors(edges, v);
    ghost var targets := Targets(edges);
    forall w | w in frontier
      ensures Reaches(edges, v, w)
    {
      ReachesEdge(edges, v, w);
    }
    while frontier != {}
      invariant visited !! frontier
      invariant visited + frontier <= targets
      invariant forall w :: w in visited ==> Reaches(edges, v, w)
      invariant forall w :: w in frontier ==> Reaches(edges, v, w)
      invariant Successors(edges, v) <= visited + frontier
      invariant forall u, w :: u in visited && (u, w) in edges ==> w in visited + frontier
      decreases targets - visited
    {
      var u :| u in frontier;
      var next := Successors(edges, u) - visited - {u};
      forall w | w in next
        ensures Reaches(edges, v, w)
      {
        ReachesStep(edges, v, u, w);
      }
      frontier := (frontier - {u}) + next;
      visited := visited + {u};
    }
    forall w | Reaches(edges, v, w)
      ensures w in visited
    {
      var p :| IsPath(edges, p) && p[0] == v && p[|p| - 1] == w;
      PathStaysInClosedSet(edges, v, visited, p, |p| - 1);
    }
  }

  /** Decides whether the graph holds a directed cycle. */
  method IsCyclic(edges: Edges) returns (cyclic: bool)
    ensures cyclic <==> HasCycle(edges)
  {
    var sources := Sources(edges);
    var todo := sources;
    cyclic := false;
    while todo != {} && !cyclic
      invariant todo <= sources
      invariant cyclic ==> HasCycle(edges)
      invariant !cyclic ==> forall v :: v in sources - todo ==> !Reaches(edges, v, v)
      decreases todo
    {
      var v :| v in todo;
      var reachable := ReachableFrom(edges, v);
      cyclic := v in reachable;
      todo := todo - {v};
    }
    if !cyclic && HasCycle(edges) {
      var p :| IsPath(edges, p) && p[0] == p[|p| - 1];
      assert (p[0], p[1]) in edges;
      assert Reaches(edges, p[0], p[0]);
      assert false;
    }
  }

  /**
   * A graph whose every edge climbs a ranking of the nodes has no cycle.
   * (Such a ranking is a serial order the schedule is equivalent to.)
   */
  lemma {:induction false} RankedGraphIsAcyclic(edges: Edges, rank: map<Tx, int>)
    requires forall e | e in edges :: e.0 in rank && e.1 in rank && rank[e.0] < rank[e.1]
    ensures !HasCycle(edges)
  {
    if HasCycle(edges) {
      var p :| IsPath(edges, p) && p[0] == p[|p| - 1];
      PathClimbs(edges, rank, p, |p| - 1);
      assert false;
    }
  }

  lemma {:induction false} PathClimbs(edges: Edges, rank: map<Tx, int>, p: seq<Tx>, k: nat)
    requires forall e | e in edges :: e.0 in rank && e.1 in rank && rank[e.0] < rank[e.1]
    requires IsPath(edges, p)
    requires 1 <= k < |p|
    ensures p[0] in rank && p[k] in rank && rank[p[0]] < rank[p[k]]
  {
    assert (p[0], p[1]) in edges;
    if k > 1 {
      PathClimbs(edges, rank, p, k - 1);
      assert (p[k - 1], p[k]) in edges;
    }
  }

  /** Two opposite edges between transactions form a cycle. */
  lemma OppositeEdgesCycle(edges: Edges, a: Tx, b: Tx)
    requires (a, b) in edges && (b, a) in edges
    ensures HasCycle(edges)
  {
    assert IsPath(edges, [a, b, a]);
  }
}
