/** Directed graphs as adjacency lists: walks, reachability and closed sets. */
module Graph {
  type Adj = seq<seq<nat>>

  /** Every edge ends at a node of the graph. */
  ghost predicate WfAdj(adj: Adj) {
    forall v, j :: 0 <= v < |adj| && 0 <= j < |adj[v]| ==> adj[v][j] < |adj|
  }

  ghost predicate Edge(adj: Adj, u: nat, v: nat) {
    u < |adj| && v in adj[u]
  }

  ghost predicate IsWalk(adj: Adj, p: seq<nat>) {
    p != [] && (forall i :: 0 <= i < |p| ==> p[i] < |adj|)
    && forall i :: 0 <= i < |p| - 1 ==> Edge(adj, p[i], p[i + 1])
  }

  ghost predicate Reach(adj: Adj, u: nat, v: nat) {
    exists p :: IsWalk(adj, p) && p[0] == u && p[|p| - 1] == v
  }

  lemma ReachSelf(adj: Adj, u: nat)
    requires u < |adj|
    ensures Reach(adj, u, u)
  {
    assert IsWalk(adj, [u]);
    assert [u][0] == u;
  }

  lemma ReachEdge(adj: Adj, u: nat, v: nat)
    requires WfAdj(adj) && Edge(adj, u, v)
    ensures Reach(adj, u, v)
  {
    var p := [u, v];
    assert IsWalk(adj, p) && p[0] == u && p[|p| - 1] == v;
  }

  lemma ReachTrans(adj: Adj, u: nat, v: nat, w: nat)
    requires Reach(adj, u, v) && Reach(adj, v, w)
    ensures Reach(adj, u, w)
  {
    var p :| IsWalk(adj, p) && p[0] == u && p[|p| - 1] == v;
    var q :| IsWalk(adj, q) && q[0] == v && q[|q| - 1] == w;
    var r := p + q[1..];
    assert forall i :: |p| <= i < |r| ==> r[i] == q[i - |p| + 1];
    assert forall i :: 0 <= i < |p| ==> r[i] == p[i];
    forall i | 0 <= i < |r| - 1 ensures Edge(adj, r[i], r[i + 1]) {
      if i < |p| - 1 {
        assert Edge(adj, p[i], p[i + 1]);
      } else {
        assert Edge(adj, q[i - |p| + 1], q[i - |p| + 2]);
      }
    }
    assert IsWalk(adj, r) && r[0] == u && r[|r| - 1] == w;
  }

  /** A set closed under edges keeps everything reachable from it. */
  lemma ReachStaysInside(adj: Adj, c: set<nat>, u: nat, v: nat)
    requires u in c && Reach(adj, u, v)
    requires forall x, y :: x in c && Edge(adj, x, y) ==> y in c
    ensures v in c
  {
    var p :| IsWalk(adj, p) && p[0] == u && p[|p| - 1] == v;
    WalkStaysInside(adj, c, p, |p| - 1);
  }

  lemma {:induction false} WalkStaysInside(adj: Adj, c: set<nat>, p: seq<nat>, k: nat)
    requires IsWalk(adj, p) && p[0] in c && k < |p|
    requires forall x, y :: x in c && Edge(adj, x, y) ==> y in c
    ensures p[k] in c
    decreases k
  {
    if k > 0 {
      WalkStaysInside(adj, c, p, k - 1);
      assert Edge(adj, p[k - 1], p[k - 1 + 1]);
    }
  }

  ghost predicate Mutual(adj: Adj, u: nat, v: nat) {
    Reach(adj, u, v) && Reach(adj, v, u)
  }

  /** A maximal strongly connected set of nodes, as a duplicate-free list. */
  ghost predicate IsScc(adj: Adj, comp: seq<nat>) {
    comp != [] && (forall i, j :: 0 <= i < j < |comp| ==> comp[i] != comp[j])
    && (forall i :: 0 <= i < |comp| ==> comp[i] < |adj|)
    && forall u, v: nat :: u in comp && v < |adj| ==> (v in comp <==> Mutual(adj, u, v))
  }
}
