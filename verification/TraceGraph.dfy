/**
 Bounded reachability in a graph given by adjacency lists, some of whose entries may name
 nodes that are not stored.
 */
module TraceGraph {

  type NodeId = string

  type Adjacency = map<NodeId, seq<NodeId>>

  function Neighbors(adj: Adjacency, u: NodeId): seq<NodeId> {
    if u in adj then adj[u] else []
  }

  ghost predicate Link(adj: Adjacency, nodes: set<NodeId>, u: NodeId, v: NodeId) {
    v in nodes && v in Neighbors(adj, u)
  }

  // ----- walks

  /** A walk through stored nodes. */
  ghost predicate Walk(adj: Adjacency, nodes: set<NodeId>, p: seq<NodeId>) {
    p != [] && forall i, j :: 0 <= i && i + 1 == j < |p| ==> Link(adj, nodes, p[i], p[j])
  }

  ghost predicate WalkTo(adj: Adjacency, nodes: set<NodeId>, s: NodeId, v: NodeId, p: seq<NodeId>) {
    Walk(adj, nodes, p) && p[0] == s && p[|p| - 1] == v
  }

  /** v is at most k edges away from s. */
  ghost predicate Reaches(adj: Adjacency, nodes: set<NodeId>, s: NodeId, k: nat, v: NodeId) {
    exists p :: WalkTo(adj, nodes, s, v, p) && |p| <= k + 1
  }

  // ----- the same by levels

  ghost function Successors(adj: Adjacency, nodes: set<NodeId>, us: set<NodeId>): set<NodeId> {
    set v <- nodes | exists u :: u in us && Link(adj, nodes, u, v)
  }

  ghost function Within(adj: Adjacency, nodes: set<NodeId>, s: NodeId, k: nat): set<NodeId> {
    if k == 0 then {s}
    else Within(adj, nodes, s, k - 1) + Successors(adj, nodes, Within(adj, nodes, s, k - 1))
  }

  lemma {:induction false} WithinGrows(adj: Adjacency, nodes: set<NodeId>, s: NodeId, m: nat, k: nat)
    requires m <= k
    ensures Within(adj, nodes, s, m) <= Within(adj, nodes, s, k)
    decreases k
  {
    if m < k {
      WithinGrows(adj, nodes, s, m, k - 1);
    }
  }

  lemma {:induction false} WithinHasWalk(adj: Adjacency, nodes: set<NodeId>, s: NodeId, k: nat, v: NodeId)
    returns (p: seq<NodeId>)
    requires v in Within(adj, nodes, s, k)
    ensures WalkTo(adj, nodes, s, v, p) && |p| <= k + 1
  {
    if k == 0 {
      p := [s];
    } else if v in Within(adj, nodes, s, k - 1) {
      p := WithinHasWalk(adj, nodes, s, k - 1, v);
    } else {
      var u :| u in Within(adj, nodes, s, k - 1) && Link(adj, nodes, u, v);
      var q := WithinHasWalk(adj, nodes, s, k - 1, u);
      WalkSnoc(adj, nodes, s, u, v, q);
      p := q + [v];
    }
  }

  lemma WalkSnoc(adj: Adjacency, nodes: set<NodeId>, s: NodeId, u: NodeId, v: NodeId, q: seq<NodeId>)
    requires WalkTo(adj, nodes, s, u, q) && Link(adj, nodes, u, v)
    ensures WalkTo(adj, nodes, s, v, q + [v])
  {
    var p := q + [v];
    assert forall i :: 0 <= i < |q| ==> p[i] == q[i];
  }

  lemma {:induction false} WalkIsWithin(adj: Adjacency, nodes: set<NodeId>, s: NodeId, p: seq<NodeId>)
    requires Walk(adj, nodes, p) && p[0] == s
    ensures p[|p| - 1] in Within(adj, nodes, s, |p| - 1)
  {
    if |p| > 1 {
      var q := p[..|p| - 1];
      WalkIsWithin(adj, nodes, s, q);
      assert Link(adj, nodes, q[|q| - 1], p[|p| - 1]);
    }
  }

  /** The level sets are the nodes at distance at most k. */
  lemma WithinIsReach(adj: Adjacency, nodes: set<NodeId>, s: NodeId, k: nat, v: NodeId)
    ensures v in Within(adj, nodes, s, k) <==> Reaches(adj, nodes, s, k, v)
  {
    if v in Within(adj, nodes, s, k) {
      var p := WithinHasWalk(adj, nodes, s, k, v);
    }
    if p :| WalkTo(adj, nodes, s, v, p) && |p| <= k + 1 {
      WalkIsWithin(adj, nodes, s, p);
      WithinGrows(adj, nodes, s, |p| - 1, k);
    }
  }

  // ----- duality

  ghost predicate Opposite(fwd: Adjacency, bwd: Adjacency) {
    forall u, v :: v in Neighbors(fwd, u) <==> u in Neighbors(bwd, v)
  }

  function Reverse(p: seq<NodeId>): (r: seq<NodeId>)
    ensures |r| == |p|
    ensures forall i :: 0 <= i < |p| ==> r[i] == p[|p| - 1 - i]
  {
    if p == [] then [] else Reverse(p[1..]) + [p[0]]
  }

  lemma WalkBack(fwd: Adjacency, bwd: Adjacency, nodes: set<NodeId>, u: NodeId, v: NodeId, p: seq<NodeId>)
    requires Opposite(fwd, bwd) && u in nodes && WalkTo(fwd, nodes, u, v, p)
    ensures WalkTo(bwd, nodes, v, u, Reverse(p))
  {
    var r, n := Reverse(p), |p|;
    forall i, j | 0 <= i && i + 1 == j < n
      ensures Link(bwd, nodes, r[i], r[j])
    {
      assert Link(fwd, nodes, p[n - 1 - j], p[n - 1 - i]);
      if j < n - 1 {
        assert Link(fwd, nodes, p[n - 2 - j], p[n - 1 - j]);
      }
    }
  }

  /** v is within k edges downstream of u exactly when u is within k edges upstream of v. */
  lemma Duality(fwd: Adjacency, bwd: Adjacency, nodes: set<NodeId>, u: NodeId, v: NodeId, k: nat)
    requires Opposite(fwd, bwd) && u in nodes && v in nodes
    ensures Reaches(fwd, nodes, u, k, v) <==> Reaches(bwd, nodes, v, k, u)
  {
    if p :| WalkTo(fwd, nodes, u, v, p) && |p| <= k + 1 {
      WalkBack(fwd, bwd, nodes, u, v, p);
    }
    if p :| WalkTo(bwd, nodes, v, u, p) && |p| <= k + 1 {
      WalkBack(bwd, fwd, nodes, v, u, p);
    }
  }
}
