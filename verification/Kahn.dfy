/** The instance ordering of src/comb_graph.rs: a topological sort with a fallback to declaration order. */
module Kahn {
  import opened Graph
  import opened Sets
  import opened Wrappers

  function Preds(adj: Adj, k: nat): (p: set<nat>) { set j | 0 <= j < |adj| && k in adj[j] }

  ghost predicate NoDuplicates(s: seq<nat>) {
    forall i, j :: 0 <= i < j < |s| ==> s[i] != s[j]
  }

  ghost predicate Simple(adj: Adj) {
    forall v :: 0 <= v < |adj| ==> NoDuplicates(adj[v])
  }

  /** The graph has a cycle. */
  ghost predicate Cyclic(adj: Adj) {
    exists u: nat, v: nat :: Edge(adj, u, v) && Reach(adj, v, u)
  }

  /** Every producer comes before its consumers. */
  ghost predicate Topological(adj: Adj, order: seq<nat>) {
    forall p, j: nat :: 0 <= p < |order| && Edge(adj, j, order[p]) ==> j in order[..p]
  }

  // ---- Instances ---------------------------------------------------------------------------------------

  datatype Direction = Input | Output

  /** A port connection; a signal that is not a plain name is None. */
  datatype Connection = Connection(dir: Direction, port: string, signal: Option<string>)

  /** An instance: its connections, the input ports its combinational logic reads, and its combinational outputs. */
  datatype Inst = Inst(connections: seq<Connection>, combDepInputs: set<string>, combOutputs: set<string>)

  /** Output connection d of instance j drives the wire from the port. */
  predicate Drives(insts: seq<Inst>, j: nat, d: nat, wire: string, port: string) {
    j < |insts| && d < |insts[j].connections| && insts[j].connections[d] == Connection(Output, port, Some(wire))
  }

  /** Connections in source order. */
  predicate NoLater(j: nat, d: nat, i: nat, c: nat) { j < i || (j == i && d <= c) }

  /** The last output connection to the wire is of instance j, from the port. */
  ghost predicate LastDriver(insts: seq<Inst>, wire: string, j: nat, port: string) {
    exists d: nat :: Drives(insts, j, d, wire, port) && NoneAfter(insts, wire, j, d)
  }

  ghost predicate NoneAfter(insts: seq<Inst>, wire: string, j: nat, d: nat) {
    forall i: nat, c: nat, p :: Drives(insts, i, c, wire, p) ==> NoLater(i, c, j, d)
  }

  /** Instance i has to be evaluated after instance j: a combinationally read input of i is a wire whose last driver is a
      combinational output of j. */
  ghost predicate DependsOn(insts: seq<Inst>, i: nat, j: nat) {
    i < |insts| && j < |insts|
    && exists c: nat, wire, port :: Reads(insts, i, c, wire) && LastDriver(insts, wire, j, port) && port in insts[j].combOutputs
  }

  predicate Reads(insts: seq<Inst>, i: nat, c: nat, wire: string) {
    i < |insts| && c < |insts[i].connections|
    && insts[i].connections[c].dir == Input && insts[i].connections[c].port in insts[i].combDepInputs
    && insts[i].connections[c].signal == Some(wire)
  }

  type Sources = map<string, (nat, string)>

  /** The sources of the connections before connection c of instance i. */
  ghost predicate SourcesUpTo(insts: seq<Inst>, src: Sources, i: nat, c: nat) {
    (forall j: nat, d: nat, wire, p :: Drives(insts, j, d, wire, p) && Before(j, d, i, c) ==> wire in src)
    && forall wire :: wire in src ==>
                        exists d: nat :: Drives(insts, src[wire].0, d, wire, src[wire].1) && Before(src[wire].0, d, i, c)
                                         && NoneBetween(insts, wire, src[wire].0, d, i, c)
  }

  predicate Before(j: nat, d: nat, i: nat, c: nat) { j < i || (j == i && d < c) }

  ghost predicate NoneBetween(insts: seq<Inst>, wire: string, j: nat, d: nat, i: nat, c: nat) {
    forall k: nat, e: nat, p :: Drives(insts, k, e, wire, p) && Before(k, e, i, c) ==> NoLater(k, e, j, d)
  }

  /** The wire-to-source map: a later output connection overwrites an earlier one. */
  method WireSources(insts: seq<Inst>) returns (src: Sources)
    ensures forall wire, j: nat, port :: wire in src && src[wire] == (j, port) <==> LastDriver(insts, wire, j, port)
  {
    hide SourcesUpTo, LastDriver;
    src := map[];
    NoSources(insts);
    for i := 0 to |insts|
      invariant SourcesUpTo(insts, src, i, 0)
    {
      for c := 0 to |insts[i].connections|
        invariant SourcesUpTo(insts, src, i, c)
      {
        var conn := insts[i].connections[c];
        SourceNext(insts, src, i, c);
        if conn.dir == Output && conn.signal.Some? {
          src := src[conn.signal.value := (i, conn.port)];
        }
      }
      SourceRow(insts, src, i);
    }
    SourcesAreLast(insts, src);
  }

  lemma NoSources(insts: seq<Inst>)
    ensures SourcesUpTo(insts, map[], 0, 0)
  {
  }

  lemma SourceNext(insts: seq<Inst>, src: Sources, i: nat, c: nat)
    requires SourcesUpTo(insts, src, i, c) && i < |insts| && c < |insts[i].connections|
    ensures var conn, next := insts[i].connections[c], c + 1;
            SourcesUpTo(insts, if conn.dir == Output && conn.signal.Some? then src[conn.signal.value := (i, conn.port)] else src, i, next)
  {
    var conn, next := insts[i].connections[c], c + 1;
    var drives := conn.dir == Output && conn.signal.Some?;
    var more := if drives then src[conn.signal.value := (i, conn.port)] else src;
    forall wire | wire in more
      ensures exists d: nat :: Drives(insts, more[wire].0, d, wire, more[wire].1) && Before(more[wire].0, d, i, next)
                               && NoneBetween(insts, wire, more[wire].0, d, i, next)
    {
      if drives && wire == conn.signal.value {
        assert Drives(insts, i, c, wire, conn.port) && Before(i, c, i, next) && NoneBetween(insts, wire, i, c, i, next);
      } else {
        var d: nat :| Drives(insts, src[wire].0, d, wire, src[wire].1) && Before(src[wire].0, d, i, c)
                      && NoneBetween(insts, wire, src[wire].0, d, i, c);
        assert Before(src[wire].0, d, i, next) && NoneBetween(insts, wire, src[wire].0, d, i, next);
      }
    }
  }

  lemma SourceRow(insts: seq<Inst>, src: Sources, i: nat)
    requires i < |insts| && SourcesUpTo(insts, src, i, |insts[i].connections|)
    ensures SourcesUpTo(insts, src, i + 1, 0)
  {
    var c, next := |insts[i].connections|, i + 1;
    forall wire | wire in src
      ensures exists d: nat :: Drives(insts, src[wire].0, d, wire, src[wire].1) && Before(src[wire].0, d, next, 0)
                               && NoneBetween(insts, wire, src[wire].0, d, next, 0)
    {
      var d: nat :| Drives(insts, src[wire].0, d, wire, src[wire].1) && Before(src[wire].0, d, i, c)
                    && NoneBetween(insts, wire, src[wire].0, d, i, c);
      assert Before(src[wire].0, d, next, 0) && NoneBetween(insts, wire, src[wire].0, d, next, 0);
    }
  }

  lemma SourcesAreLast(insts: seq<Inst>, src: Sources)
    requires SourcesUpTo(insts, src, |insts|, 0)
    ensures forall wire, j: nat, port :: wire in src && src[wire] == (j, port) <==> LastDriver(insts, wire, j, port)
  {
    forall wire | wire in src ensures LastDriver(insts, wire, src[wire].0, src[wire].1) {
      var d: nat :| Drives(insts, src[wire].0, d, wire, src[wire].1) && Before(src[wire].0, d, |insts|, 0)
                    && NoneBetween(insts, wire, src[wire].0, d, |insts|, 0);
      assert NoneAfter(insts, wire, src[wire].0, d);
    }
    forall wire, j: nat, port | LastDriver(insts, wire, j, port) ensures wire in src && src[wire] == (j, port) {
      var d: nat :| Drives(insts, j, d, wire, port) && NoneAfter(insts, wire, j, d);
      assert Before(j, d, |insts|, 0);
      var e: nat :| Drives(insts, src[wire].0, e, wire, src[wire].1) && NoneBetween(insts, wire, src[wire].0, e, |insts|, 0);
      assert NoLater(src[wire].0, e, j, d) && NoLater(j, d, src[wire].0, e);
    }
  }

  // ---- Building the graph ------------------------------------------------------------------------------

  /** Connection c of instance i makes it depend on instance j. */
  predicate Feeds(insts: seq<Inst>, src: Sources, i: nat, c: nat, j: nat) {
    i < |insts| && j < |insts| && c < |insts[i].connections|
    && var conn := insts[i].connections[c];
       conn.dir == Input && conn.port in insts[i].combDepInputs && conn.signal.Some?
       && conn.signal.value in src && src[conn.signal.value].0 == j && src[conn.signal.value].1 in insts[j].combOutputs
  }

  ghost predicate FedBefore(insts: seq<Inst>, src: Sources, j: nat, i: nat, row: nat, col: nat) {
    exists c: nat :: Feeds(insts, src, i, c, j) && Before(i, c, row, col)
  }

  /** The deduplicated edges from producers to consumers, with their in-degrees. */
  method BuildGraph(insts: seq<Inst>) returns (adj: Adj, inDegree: array<nat>)
    ensures |adj| == |insts| == inDegree.Length && fresh(inDegree) && WfAdj(adj) && Simple(adj)
    ensures forall j: nat, i: nat :: Edge(adj, j, i) <==> j != i && DependsOn(insts, i, j)
    ensures forall k: nat :: k < |insts| ==> inDegree[k] == |Preds(adj, k)|
  {
    hide Preds, Simple, NoDuplicates, WfAdj, Edge, FedBefore, DependsOn, LastDriver;
    var n := |insts|;
    var src := WireSources(insts);
    adj := seq(n, _ => []);
    inDegree := new nat[n](_ => 0);
    NoEdges(adj);
    NoneFed(insts, src);
    for i := 0 to n
      invariant |adj| == n && WfAdj(adj) && Simple(adj)
      invariant forall u: nat, v: nat :: Edge(adj, u, v) <==> u != v && FedBefore(insts, src, u, v, i, 0)
      invariant forall k: nat :: k < n ==> inDegree[k] == |Preds(adj, k)|
    {
      for c := 0 to |insts[i].connections|
        invariant |adj| == n && WfAdj(adj) && Simple(adj)
        invariant forall u: nat, v: nat :: Edge(adj, u, v) <==> u != v && FedBefore(insts, src, u, v, i, c)
        invariant forall k: nat :: k < n ==> inDegree[k] == |Preds(adj, k)|
      {
        var conn := insts[i].connections[c];
        FedNext(insts, src, i, c);
        if conn.dir != Input || conn.port !in insts[i].combDepInputs || conn.signal.None? || conn.signal.value !in src {
          continue;
        }
        var (j, outPort) := src[conn.signal.value];
        DriverInRange(insts, conn.signal.value, j, outPort);
        if j == i || outPort !in insts[j].combOutputs {
          continue;
        }
        assert i in adj[j] <==> Edge(adj, j, i) by { EdgeIs(adj, j, i); }
        if i !in adj[j] {
          var more := adj[j := adj[j] + [i]];
          PredsGrow(adj, j, i, more);
          EdgesGrow(adj, j, i, more);
          adj := more;
          inDegree[i] := inDegree[i] + 1;
        }
      }
      FedRow(insts, src, i);
    }
    FedIsDependsOn(insts, src);
  }

  lemma NoneFed(insts: seq<Inst>, src: Sources)
    ensures forall u: nat, v: nat :: !FedBefore(insts, src, u, v, 0, 0)
  {
  }

  lemma FedNext(insts: seq<Inst>, src: Sources, i: nat, c: nat)
    ensures forall u: nat, v: nat :: FedBefore(insts, src, u, v, i, c + 1)
                                     <==> FedBefore(insts, src, u, v, i, c) || (v == i && Feeds(insts, src, i, c, u))
  {
    hide Feeds;
    var next := c + 1;
    forall u: nat, v: nat
      ensures FedBefore(insts, src, u, v, i, next) <==> FedBefore(insts, src, u, v, i, c) || (v == i && Feeds(insts, src, i, c, u))
    {
      if FedBefore(insts, src, u, v, i, c) {
        var e: nat :| Feeds(insts, src, v, e, u) && Before(v, e, i, c);
        assert Before(v, e, i, next);
      }
      if v == i && Feeds(insts, src, i, c, u) {
        assert Before(i, c, i, next);
      }
      if FedBefore(insts, src, u, v, i, next) {
        var e: nat :| Feeds(insts, src, v, e, u) && Before(v, e, i, next);
        assert Before(v, e, i, c) || (v == i && e == c);
      }
    }
  }

  lemma FedRow(insts: seq<Inst>, src: Sources, i: nat)
    requires i < |insts|
    ensures forall u: nat, v: nat :: FedBefore(insts, src, u, v, i, |insts[i].connections|) <==> FedBefore(insts, src, u, v, i + 1, 0)
  {
    var col, next := |insts[i].connections|, i + 1;
    forall u: nat, v: nat ensures FedBefore(insts, src, u, v, i, col) <==> FedBefore(insts, src, u, v, next, 0) {
      if FedBefore(insts, src, u, v, i, col) {
        var e: nat :| Feeds(insts, src, v, e, u) && Before(v, e, i, col);
        assert Before(v, e, next, 0);
      }
      if FedBefore(insts, src, u, v, next, 0) {
        var e: nat :| Feeds(insts, src, v, e, u) && Before(v, e, next, 0);
        assert Before(v, e, i, col);
      }
    }
  }

  lemma DriverInRange(insts: seq<Inst>, wire: string, j: nat, port: string)
    requires LastDriver(insts, wire, j, port)
    ensures j < |insts|
  {
  }

  lemma FedIsDependsOn(insts: seq<Inst>, src: Sources)
    requires forall wire, j: nat, port :: wire in src && src[wire] == (j, port) <==> LastDriver(insts, wire, j, port)
    ensures forall u: nat, v: nat :: FedBefore(insts, src, u, v, |insts|, 0) <==> DependsOn(insts, v, u)
  {
    hide LastDriver;
    forall u: nat, v: nat ensures FedBefore(insts, src, u, v, |insts|, 0) <==> DependsOn(insts, v, u) {
      if FedBefore(insts, src, u, v, |insts|, 0) {
        var c: nat :| Feeds(insts, src, v, c, u) && Before(v, c, |insts|, 0);
        var wire := insts[v].connections[c].signal.value;
        assert Reads(insts, v, c, wire) && src[wire] == (u, src[wire].1);
        assert LastDriver(insts, wire, u, src[wire].1);
      }
      if DependsOn(insts, v, u) {
        var c: nat, wire, port :| Reads(insts, v, c, wire) && LastDriver(insts, wire, u, port) && port in insts[u].combOutputs;
        assert wire in src && src[wire] == (u, port);
        assert Feeds(insts, src, v, c, u) && Before(v, c, |insts|, 0);
      }
    }
  }

  lemma NoEdges(adj: Adj)
    requires forall v :: 0 <= v < |adj| ==> adj[v] == []
    ensures WfAdj(adj) && Simple(adj) && (forall k: nat :: Preds(adj, k) == {}) && forall u: nat, v: nat :: !Edge(adj, u, v)
  {
  }

  lemma EdgeIs(adj: Adj, j: nat, i: nat)
    requires j < |adj|
    ensures Edge(adj, j, i) <==> i in adj[j]
  {
  }

  lemma EdgesGrow(adj: Adj, j: nat, i: nat, more: Adj)
    requires WfAdj(adj) && Simple(adj) && j < |adj| && i < |adj| && i !in adj[j] && more == adj[j := adj[j] + [i]]
    ensures WfAdj(more) && Simple(more) && forall u: nat, v: nat :: Edge(more, u, v) <==> Edge(adj, u, v) || (u == j && v == i)
  {
    forall v | 0 <= v < |more| ensures NoDuplicates(more[v]) {
      assert NoDuplicates(adj[v]);
    }
  }

  lemma PredsGrow(adj: Adj, j: nat, i: nat, more: Adj)
    requires j < |adj| && i !in adj[j] && more == adj[j := adj[j] + [i]]
    ensures Preds(more, i) == Preds(adj, i) + {j} && j !in Preds(adj, i)
    ensures forall k: nat :: k != i ==> Preds(more, k) == Preds(adj, k)
  {
  }

  // ---- The sort ----------------------------------------------------------------------------------------

  function Elements(s: seq<nat>): set<nat> { set x | x in s }

  /** Sorted nodes follow all their producers; the queue holds exactly the other nodes whose producers are all
      sorted. */
  ghost predicate SortInv(adj: Adj, sorted: seq<nat>, queue: seq<nat>) {
    && NoDuplicates(sorted + queue) && (forall k: nat :: k in sorted + queue ==> k < |adj|)
    && Topological(adj, sorted)
    && forall k: nat :: k < |adj| ==> (k in sorted + queue <==> Preds(adj, k) <= Elements(sorted))
  }

  /** Returns the nodes in the order they were popped. */
  method Sort(adj: Adj, inDegree: array<nat>) returns (sorted: seq<nat>)
    requires WfAdj(adj) && Simple(adj) && inDegree.Length == |adj|
    requires forall k: nat :: k < |adj| ==> inDegree[k] == |Preds(adj, k)|
    modifies inDegree
    ensures SortInv(adj, sorted, [])
  {
    hide Topological, SortInv, Releasing, Waiting, Preds, NoDuplicates, WfAdj, Simple;
    var queue: seq<nat> := [];
    sorted := [];
    assert NoDuplicates(queue) by { Extended([], 0); }
    for i := 0 to |adj|
      invariant NoDuplicates(queue) && forall k: nat :: k in queue <==> k < i && inDegree[k] == 0
      invariant forall k: nat :: k < |adj| ==> inDegree[k] == |Preds(adj, k)|
    {
      if inDegree[i] == 0 {
        Extended(queue, i);
        queue := queue + [i];
      }
    }
    StartSorted(adj, queue);
    while queue != []
      invariant SortInv(adj, sorted, queue) && |sorted| + |queue| <= |adj|
      invariant forall k: nat :: k < |adj| ==> inDegree[k] == |Preds(adj, k) - Elements(sorted)|
      decreases |adj| - |sorted|
    {
      var j := queue[0];
      ghost var before, rest := sorted, queue[1..];
      Popped(adj, sorted, queue);
      sorted := sorted + [j];
      queue := queue[1..];
      for e := 0 to |adj[j]|
        invariant Releasing(adj, before, j, rest, e, queue)
        invariant forall k: nat :: k < |adj| ==> inDegree[k] == Waiting(adj, before, j, e, k)
      {
        var k := adj[j][e];
        OneReleased(adj, before, j, rest, e, queue);
        inDegree[k] := inDegree[k] - 1;
        if inDegree[k] == 0 {
          queue := queue + [k];
        }
      }
      AllReleased(adj, before, j, rest, queue);
    }
    assert queue == [];
  }

  lemma Extended(s: seq<nat>, k: nat)
    ensures NoDuplicates([])
    ensures NoDuplicates(s) && k !in s ==> NoDuplicates(s + [k])
  {
  }

  /** The unsorted producers of k, not counting j once the edges up to e have been seen. */
  function Waiting(adj: Adj, before: seq<nat>, j: nat, e: nat, k: nat): int
    requires j < |adj| && e <= |adj[j]|
  {
    |Preds(adj, k) - Elements(before)| - if k in adj[j][..e] then 1 else 0
  }

  /** While j's edges are walked: j has been sorted after `before`, and the queue has the rest and what j released. */
  ghost predicate Releasing(adj: Adj, before: seq<nat>, j: nat, rest: seq<nat>, e: nat, queue: seq<nat>) {
    && SortInv(adj, before, [j] + rest) && j < |adj| && e <= |adj[j]| && WfAdj(adj) && Simple(adj)
    && NoDuplicates(queue)
    && forall k: nat :: k in queue <==> k in rest || (k in adj[j][..e] && Preds(adj, k) <= Elements(before + [j]))
  }

  lemma Popped(adj: Adj, sorted: seq<nat>, queue: seq<nat>)
    requires WfAdj(adj) && Simple(adj) && SortInv(adj, sorted, queue) && queue != []
    ensures queue[0] < |adj| && Releasing(adj, sorted, queue[0], queue[1..], 0, queue[1..])
    ensures forall k: nat :: Waiting(adj, sorted, queue[0], 0, k) == |Preds(adj, k) - Elements(sorted)|
  {
    hide Topological;
    var j, rest := queue[0], queue[1..];
    assert [j] + rest == queue;
    assert (sorted + queue)[|sorted|] == j && j in sorted + queue;
    assert adj[j][..0] == [];
    forall a, b | 0 <= a < b < |rest| ensures rest[a] != rest[b] {
      assert (sorted + queue)[|sorted| + 1 + a] == rest[a] && (sorted + queue)[|sorted| + 1 + b] == rest[b];
    }
  }

  /** A node that still waits for j is neither sorted nor queued, and waits for nothing else exactly when its last
      unsorted producer is j. */
  lemma WaitsFor(adj: Adj, before: seq<nat>, j: nat, rest: seq<nat>, k: nat)
    requires WfAdj(adj) && SortInv(adj, before, [j] + rest) && j < |adj| && k in adj[j]
    ensures k < |adj| && j in Preds(adj, k) && j !in before && k !in before && k !in rest && k != j
    ensures |Preds(adj, k) - Elements(before)| >= 1
    ensures |Preds(adj, k) - Elements(before)| == 1 <==> Preds(adj, k) <= Elements(before + [j])
  {
    hide Topological;
    var all := before + ([j] + rest);
    assert all[|before|] == j;
    forall i | 0 <= i < |before| ensures before[i] != j { assert all[i] == before[i]; }
    var e :| 0 <= e < |adj[j]| && adj[j][e] == k;
    assert j in Preds(adj, k);
    assert k !in all by { assert j !in Elements(before); }
    assert forall i :: 0 <= i < |rest| ==> all[|before| + 1 + i] == rest[i];
    var open := Preds(adj, k) - Elements(before);
    assert j in open && |open - {j}| == |open| - 1;
    assert Elements(before + [j]) == Elements(before) + {j};
    if |open| == 1 { assert open - {j} == {}; }
    if Preds(adj, k) <= Elements(before + [j]) { assert open - {j} == {}; }
  }

  lemma OneReleased(adj: Adj, before: seq<nat>, j: nat, rest: seq<nat>, e: nat, queue: seq<nat>)
    requires Releasing(adj, before, j, rest, e, queue) && e < |adj[j]|
    ensures var k := adj[j][e];
            k < |adj| && Waiting(adj, before, j, e, k) >= 1
            && Releasing(adj, before, j, rest, e + 1, if Waiting(adj, before, j, e, k) == 1 then queue + [k] else queue)
            && forall i: nat :: Waiting(adj, before, j, e + 1, i) == Waiting(adj, before, j, e, i) - if i == k then 1 else 0
  {
    hide SortInv, Preds;
    var k := adj[j][e];
    WaitsFor(adj, before, j, rest, k);
    assert adj[j][..e + 1] == adj[j][..e] + [k];
    assert k !in adj[j][..e];
  }

  lemma AllReleased(adj: Adj, before: seq<nat>, j: nat, rest: seq<nat>, queue: seq<nat>)
    requires j < |adj| && Releasing(adj, before, j, rest, |adj[j]|, queue)
    ensures SortInv(adj, before + [j], queue) && |before| + 1 + |queue| <= |adj|
    ensures forall k: nat :: k < |adj| ==>
                               Waiting(adj, before, j, |adj[j]|, k) == |Preds(adj, k) - Elements(before + [j])|
  {
    var sorted, all := before + [j], before + ([j] + rest);
    assert adj[j][..|adj[j]|] == adj[j];
    assert Elements(sorted) == Elements(before) + {j};
    forall k: nat | k < |adj|
      ensures Waiting(adj, before, j, |adj[j]|, k) == |Preds(adj, k) - Elements(sorted)|
      ensures k in sorted + queue <==> Preds(adj, k) <= Elements(sorted)
    {
      StillWaiting(adj, before, j, rest, queue, k);
    }
    QueueApart(adj, before, j, rest, queue);
    SortedFollows(adj, before, j, rest);
    AtMost(sorted + queue, |adj|);
  }

  lemma StillWaiting(adj: Adj, before: seq<nat>, j: nat, rest: seq<nat>, queue: seq<nat>, k: nat)
    requires j < |adj| && Releasing(adj, before, j, rest, |adj[j]|, queue) && k < |adj|
    ensures Waiting(adj, before, j, |adj[j]|, k) == |Preds(adj, k) - Elements(before + [j])|
    ensures k in before + [j] + queue <==> Preds(adj, k) <= Elements(before + [j])
  {
    hide Topological;
    assert adj[j][..|adj[j]|] == adj[j];
    assert Elements(before + [j]) == Elements(before) + {j};
    assert k in before + ([j] + rest) <==> k in before || k == j || k in rest;
    var open := Preds(adj, k) - Elements(before);
    assert Preds(adj, k) - Elements(before + [j]) == open - {j};
    if k in adj[j] {
      WaitsFor(adj, before, j, rest, k);
      assert |open - {j}| == |open| - 1;
    } else {
      assert j !in Preds(adj, k) && open - {j} == open;
    }
  }

  lemma QueueApart(adj: Adj, before: seq<nat>, j: nat, rest: seq<nat>, queue: seq<nat>)
    requires j < |adj| && Releasing(adj, before, j, rest, |adj[j]|, queue)
    ensures NoDuplicates(before + [j] + queue) && forall k: nat :: k in before + [j] + queue ==> k < |adj|
  {
    hide Topological, Preds;
    var sorted, all := before + [j], before + ([j] + rest);
    assert all == sorted + rest;
    Prefix(sorted, rest);
    forall k | k in queue ensures k !in sorted && k < |adj| {
      if k in rest { assert k in all; } else { WaitsFor(adj, before, j, rest, k); }
    }
    Apart(sorted, queue);
    forall k | k in sorted + queue ensures k < |adj| {
      if k !in queue { assert k in all; }
    }
  }

  lemma Prefix(a: seq<nat>, b: seq<nat>)
    requires NoDuplicates(a + b)
    ensures NoDuplicates(a) && forall k :: k in b ==> k !in a
  {
    var ab := a + b;
    forall i, j | 0 <= i < j < |a| ensures a[i] != a[j] {
      assert ab[i] == a[i] && ab[j] == a[j];
    }
    forall i, j | 0 <= i < |a| && 0 <= j < |b| ensures a[i] != b[j] {
      assert ab[i] == a[i] && ab[|a| + j] == b[j];
    }
  }

  lemma Apart(a: seq<nat>, b: seq<nat>)
    requires NoDuplicates(a) && NoDuplicates(b) && forall k :: k in b ==> k !in a
    ensures NoDuplicates(a + b)
  {
    forall i, j | 0 <= i < j < |a + b| ensures (a + b)[i] != (a + b)[j] {
      if i < |a| <= j { assert (a + b)[i] in a && (a + b)[j] in b; }
    }
  }

  lemma SortedFollows(adj: Adj, before: seq<nat>, j: nat, rest: seq<nat>)
    requires SortInv(adj, before, [j] + rest) && j < |adj|
    ensures Topological(adj, before + [j])
  {
    var sorted := before + [j];
    assert j in before + ([j] + rest);
    forall p, i: nat | 0 <= p < |sorted| && Edge(adj, i, sorted[p]) ensures i in sorted[..p] {
      if p < |before| {
        assert Edge(adj, i, before[p]) && sorted[..p] == before[..p];
      } else {
        assert i in Preds(adj, j) && sorted[..p] == before;
      }
    }
  }

  lemma StartSorted(adj: Adj, queue: seq<nat>)
    requires NoDuplicates(queue) && forall k: nat :: k in queue <==> k < |adj| && |Preds(adj, k)| == 0
    ensures SortInv(adj, [], queue) && |queue| <= |adj|
    ensures forall k: nat :: Preds(adj, k) - Elements([]) == Preds(adj, k)
  {
    assert [] + queue == queue;
    AtMost(queue, |adj|);
  }

  /** A duplicate-free list of numbers below n has at most n entries. */
  lemma AtMost(s: seq<nat>, n: nat)
    requires NoDuplicates(s) && forall k: nat :: k in s ==> k < n
    ensures |s| <= n && (|s| == n ==> forall k: nat :: k < n ==> k in s)
  {
    var below := Below(n);
    CountElements(s);
    assert Elements(s) <= below;
    assert below == Elements(s) + (below - Elements(s));
    if |s| == n {
      assert below - Elements(s) == {};
      forall k: nat | k < n ensures k in s { assert k in below && k in Elements(s); }
    }
  }

  lemma {:induction false} CountElements(s: seq<nat>)
    requires NoDuplicates(s)
    ensures |Elements(s)| == |s|
  {
    if s != [] {
      var k := |s| - 1;
      CountElements(s[..k]);
      assert Elements(s) == Elements(s[..k]) + {s[k]};
    }
  }

  // ---- Cycles ------------------------------------------------------------------------------------------

  /** Along an edge of a topological order the position grows, so no walk returns. */
  lemma {:induction false} WalkForward(adj: Adj, order: seq<nat>, p: seq<nat>, k: nat, a: nat)
    requires Topological(adj, order) && (forall v: nat :: v < |adj| ==> v in order) && NoDuplicates(order)
    requires IsWalk(adj, p) && k < |p| && a < |order| && order[a] == p[k]
    ensures exists b :: a <= b < |order| && order[b] == p[|p| - 1]
    decreases |p| - k
  {
    if k < |p| - 1 {
      assert Edge(adj, p[k], p[k + 1]) && p[k + 1] in order;
      var c :| 0 <= c < |order| && order[c] == p[k + 1];
      assert p[k] in order[..c];
      WalkForward(adj, order, p, k + 1, c);
    }
  }

  lemma FullOrderIsAcyclic(adj: Adj, order: seq<nat>)
    requires WfAdj(adj) && Topological(adj, order) && (forall v: nat :: v < |adj| ==> v in order) && NoDuplicates(order)
    ensures !Cyclic(adj)
  {
    forall u: nat, v: nat | Edge(adj, u, v) ensures !Reach(adj, v, u) {
      assert v < |adj| && v in order;
      var c :| 0 <= c < |order| && order[c] == v;
      assert u in order[..c];
      forall p | IsWalk(adj, p) && p[0] == v ensures p[|p| - 1] != u {
        WalkForward(adj, order, p, 0, c);
      }
    }
  }

  /** u can be reached from v through at least one edge. */
  ghost predicate Above(adj: Adj, v: nat, u: nat) {
    exists w: nat :: Edge(adj, v, w) && Reach(adj, w, u)
  }

  lemma AboveEdge(adj: Adj, v: nat, u: nat)
    requires WfAdj(adj) && Edge(adj, v, u)
    ensures Above(adj, v, u)
  {
    hide Reach;
    assert u < |adj|;
    ReachSelf(adj, u);
  }

  lemma AboveStep(adj: Adj, j: nat, v: nat, u: nat)
    requires WfAdj(adj) && Edge(adj, j, v) && Above(adj, v, u)
    ensures Above(adj, j, u)
  {
    hide Reach;
    var w: nat :| Edge(adj, v, w) && Reach(adj, w, u);
    ReachEdge(adj, v, w);
    ReachTrans(adj, v, w, u);
  }

  lemma AboveItself(adj: Adj, u: nat)
    requires Above(adj, u, u)
    ensures Cyclic(adj)
  {
  }

  ghost predicate HasProducer(adj: Adj, s: set<nat>, v: nat) {
    exists j :: j in s && Edge(adj, j, v)
  }

  ghost predicate Closed(adj: Adj, s: set<nat>) {
    forall v :: v in s ==> HasProducer(adj, s, v)
  }

  lemma ProducerOf(adj: Adj, s: set<nat>, v: nat) returns (j: nat)
    requires HasProducer(adj, s, v)
    ensures j in s && Edge(adj, j, v)
  {
    j :| j in s && Edge(adj, j, v);
  }

  lemma ProducerIs(adj: Adj, s: set<nat>, j: nat, v: nat)
    requires j in s && Edge(adj, j, v)
    ensures HasProducer(adj, s, v)
  {
  }

  /** A non-empty set in which every node has a producer contains a cycle. */
  lemma {:induction false} ClosedHasCycle(adj: Adj, s: set<nat>)
    requires WfAdj(adj) && s != {} && Closed(adj, s)
    ensures Cyclic(adj)
    decreases |s|
  {
    hide WfAdj, Above, Cyclic, Edge, HasProducer;
    var u :| u in s;
    var a := set v | v in s && Above(adj, v, u);
    var p := ProducerOf(adj, s, u);
    AboveEdge(adj, p, u);
    assert p in a;
    if u in a {
      AboveItself(adj, u);
    } else {
      forall v | v in a ensures HasProducer(adj, a, v) {
        var j := ProducerOf(adj, s, v);
        AboveStep(adj, j, v, u);
        ProducerIs(adj, a, j, v);
      }
      Smaller(a, s, u);
      ClosedHasCycle(adj, a);
    }
  }

  lemma Smaller(a: set<nat>, s: set<nat>, u: nat)
    requires a <= s && u in s && u !in a
    ensures |a| < |s|
  {
    assert s == a + (s - a) && u in s - a;
  }

  lemma ShortOrderHasCycle(adj: Adj, sorted: seq<nat>)
    requires WfAdj(adj) && SortInv(adj, sorted, []) && |sorted| < |adj|
    ensures Cyclic(adj)
  {
    hide Topological;
    assert sorted + [] == sorted;
    var left := Below(|adj|) - Elements(sorted);
    CountElements(sorted);
    assert left != {} by { if Below(|adj|) <= Elements(sorted) { SubsetCount(Below(|adj|), Elements(sorted)); } }
    forall v | v in left ensures HasProducer(adj, left, v) {
      assert !(Preds(adj, v) <= Elements(sorted));
      var j :| j in Preds(adj, v) && j !in Elements(sorted);
      assert Edge(adj, j, v);
    }
    ClosedHasCycle(adj, left);
  }

  // ---- The analysis ------------------------------------------------------------------------------------

  /** Orders the instances under their combinational dependencies: producers first when there is no cycle, and in
      declaration order when there is one. */
  method AnalyzeModule(insts: seq<Inst>) returns (order: seq<nat>, popped: nat, ghost adj: Adj)
    ensures |adj| == |insts| && forall j: nat, i: nat :: Edge(adj, j, i) <==> j != i && DependsOn(insts, i, j)
    ensures |order| == |insts| && NoDuplicates(order) && forall k: nat :: k in order <==> k < |insts|
    ensures popped <= |insts| && (popped < |insts| <==> Cyclic(adj))
    ensures if popped < |insts| then order == seq(|insts|, i => i) else Topological(adj, order)
  {
    hide Cyclic, Topological, DependsOn;
    var n := |insts|;
    if n == 0 {
      NoInstances(insts);
      return [], 0, [];
    }
    var graph, inDegree := BuildGraph(insts);
    adj := graph;
    order := Sort(graph, inDegree);
    popped := |order|;
    SortEnds(adj, order);
    if popped < n {
      order := seq(n, i requires 0 <= i < n => i);
      forall k: nat ensures k in order <==> k < n {
        if k < n { assert order[k] == k; }
      }
    }
  }

  lemma NoInstances(insts: seq<Inst>)
    requires insts == []
    ensures !Cyclic([]) && Topological([], []) && forall i: nat, j: nat :: !DependsOn(insts, i, j)
  {
  }

  lemma SortEnds(adj: Adj, sorted: seq<nat>)
    requires WfAdj(adj) && SortInv(adj, sorted, [])
    ensures NoDuplicates(sorted) && Topological(adj, sorted) && |sorted| <= |adj| && (|sorted| < |adj| <==> Cyclic(adj))
    ensures |sorted| == |adj| ==> forall k: nat :: k in sorted <==> k < |adj|
  {
    hide Cyclic;
    assert sorted + [] == sorted;
    AtMost(sorted, |adj|);
    if |sorted| < |adj| {
      ShortOrderHasCycle(adj, sorted);
    } else {
      FullOrderIsAcyclic(adj, sorted);
    }
  }
}
