/** Directed graphs as adjacency lists: paths, cycles and reachability. */
module Graph {
  import opened Wrappers

  /** A data-flow edge to `target`; `output` is the route label its consumer reads. */
  datatype Edge = Edge(target: nat, output: Option<string>)

  type Adjacency = seq<seq<Edge>>

  ghost predicate InRange(succ: Adjacency) {
    forall v, e :: 0 <= v < |succ| && 0 <= e < |succ[v]| ==> succ[v][e].target < |succ|
  }

  predicate HasEdge(succ: Adjacency, u: nat, v: nat) {
    u < |succ| && exists e :: 0 <= e < |succ[u]| && succ[u][e].target == v
  }

  ghost predicate IsPath(succ: Adjacency, p: seq<nat>) {
    p != [] && forall k :: 0 <= k < |p| - 1 ==> HasEdge(succ, p[k], p[k + 1])
  }

  /** A path from `v` back to `v` of at least one edge. */
  ghost predicate OnCycle(succ: Adjacency, v: nat) {
    exists p :: IsPath(succ, p) && |p| >= 2 && p[0] == v && p[|p| - 1] == v
  }

  ghost predicate Acyclic(succ: Adjacency) {
    forall v: nat :: !OnCycle(succ, v)
  }

  /** Data from the sources can get to `v`. */
  ghost predicate Reachable(succ: Adjacency, sources: seq<nat>, v: nat) {
    exists p :: IsPath(succ, p) && p[0] in sources && p[|p| - 1] == v
  }

  lemma ExtendReach(succ: Adjacency, sources: seq<nat>, u: nat, v: nat)
    requires Reachable(succ, sources, u) && HasEdge(succ, u, v)
    ensures Reachable(succ, sources, v)
  {
    var p :| IsPath(succ, p) && p[0] in sources && p[|p| - 1] == u;
    var q := p + [v];
    assert forall k :: 0 <= k < |q| - 1 ==> HasEdge(succ, q[k], q[k + 1]);
  }

  /** A set that holds the start of a path and is closed under edges holds its end. */
  lemma {:induction false} ClosedHoldsPath(succ: Adjacency, closed: set<nat>, p: seq<nat>)
    requires IsPath(succ, p) && p[0] in closed
    requires forall u, v :: u in closed && HasEdge(succ, u, v) ==> v in closed
    ensures p[|p| - 1] in closed
  {
    if |p| > 1 {
      assert HasEdge(succ, p[0], p[1]);
      assert IsPath(succ, p[1..]) by {
        forall k | 0 <= k < |p[1..]| - 1
          ensures HasEdge(succ, p[1..][k], p[1..][k + 1])
        {
          assert HasEdge(succ, p[k + 1], p[k + 2]);
        }
      }
      ClosedHoldsPath(succ, closed, p[1..]);
    }
  }

  /** Every edge climbs in `rank`. */
  ghost predicate Climbs(succ: Adjacency, rank: seq<nat>) {
    |rank| == |succ| && InRange(succ) &&
    forall u, e :: 0 <= u < |succ| && 0 <= e < |succ[u]| ==> rank[u] < rank[succ[u][e].target]
  }

  lemma {:induction false} PathClimbs(succ: Adjacency, rank: seq<nat>, p: seq<nat>)
    requires Climbs(succ, rank) && IsPath(succ, p) && |p| >= 2
    ensures p[0] < |rank| && p[|p| - 1] < |rank| && rank[p[0]] < rank[p[|p| - 1]]
  {
    var last := |p| - 1;
    assert HasEdge(succ, p[last - 1], p[last]);
    if |p| > 2 {
      var q := p[..last];
      forall k | 0 <= k < |q| - 1
        ensures HasEdge(succ, q[k], q[k + 1])
      {
        assert HasEdge(succ, p[k], p[k + 1]);
      }
      PathClimbs(succ, rank, q);
    }
  }

  /** A graph whose edges all climb has no cycle. */
  lemma ClimbingIsAcyclic(succ: Adjacency, rank: seq<nat>)
    requires Climbs(succ, rank)
    ensures Acyclic(succ)
  {
    forall v: nat
      ensures !OnCycle(succ, v)
    {
      if OnCycle(succ, v) {
        var p :| IsPath(succ, p) && |p| >= 2 && p[0] == v && p[|p| - 1] == v;
        PathClimbs(succ, rank, p);
      }
    }
  }
}
