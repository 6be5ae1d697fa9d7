/** The dependency-graph builder of src/comb_graph.rs: interned names, adjacency lists and grounded flags, filled by
    the walk over a comb block; and the filter over one strongly connected component of the finished graph. */
module FoldGraph {
  import opened CombCode
  import opened FoldScan
  import opened FoldFilter
  import FoldExact
  import G = Graph
  import T = Tarjan
  import TarjanRun

  /** Interned names: ids and names determine each other. */
  ghost predicate Interned(nodeId: map<Name, nat>, nodeById: seq<Name>) {
    (forall x :: x in nodeId ==> nodeId[x] < |nodeById| && nodeById[nodeId[x]] == x)
    && forall i: nat :: i < |nodeById| ==> nodeById[i] in nodeId && nodeId[nodeById[i]] == i
  }

  /** The adjacency lists hold exactly the flagged edges, between nodes of the graph. */
  ghost predicate Listed(adj: seq<seq<nat>>, flags: map<(nat, nat), bool>) {
    (forall u: nat, v: nat :: (u, v) in flags <==> u < |adj| && v in adj[u])
    && forall u: nat, v: nat :: (u, v) in flags ==> v < |adj|
  }

  /** The edges between names that the edges between ids stand for. */
  ghost predicate Named(edges: Edges, flags: map<(nat, nat), bool>, nodeId: map<Name, nat>) {
    forall x, y :: ((x, y) in edges <==> x in nodeId && y in nodeId && (nodeId[x], nodeId[y]) in flags)
                   && ((x, y) in edges ==> edges[(x, y)] == flags[(nodeId[x], nodeId[y])])
  }

  class GraphBuilder {
    var nodeId: map<Name, nat>
    var nodeById: seq<Name>
    var adj: seq<seq<nat>>
    var edgeGrounded: map<(nat, nat), bool>
    ghost var edges: Edges

    ghost predicate Valid()
      reads this
    {
      |adj| == |nodeById| && Interned(nodeId, nodeById) && Listed(adj, edgeGrounded) && Named(edges, edgeGrounded, nodeId)
    }

    constructor ()
      ensures Valid() && edges == map[] && nodeById == []
    {
      nodeId, nodeById, adj, edgeGrounded, edges := map[], [], [], map[], map[];
    }

    method Intern(key: Name) returns (id: nat)
      requires Valid()
      modifies this
      ensures Valid() && edges == old(edges)
      ensures id < |nodeById| && nodeById[id] == key && old(nodeById) <= nodeById
    {
      if key in nodeId {
        return nodeId[key];
      }
      id := |nodeById|;
      nodeId := nodeId[key := id];
      nodeById := nodeById + [key];
      adj := adj + [[]];
    }

    method AddEdgeGrounded(from: nat, to: nat, grounded: bool)
      requires Valid() && from < |nodeById| && to < |nodeById|
      modifies this
      ensures Valid() && nodeById == old(nodeById)
      ensures edges == Join(old(edges), map[nodeById[from] := grounded], nodeById[to])
    {
      edges := Join(edges, map[nodeById[from] := grounded], nodeById[to]);
      if to !in adj[from] {
        adj := adj[from := adj[from] + [to]];
        edgeGrounded := edgeGrounded[(from, to) := grounded];
      } else {
        edgeGrounded := edgeGrounded[(from, to) := edgeGrounded[(from, to)] && grounded];
      }
    }

    /** One edge to x from every name read, in any order. */
    method AddReads(frame: Frame, x: Name)
      requires Valid()
      modifies this
      ensures Valid() && edges == Join(old(edges), frame, x)
    {
      var to := Intern(x);
      var todo := frame.Keys;
      assert frame - todo == map[];
      JoinNone(edges, x);
      while todo != {}
        invariant Valid() && todo <= frame.Keys && to < |nodeById| && nodeById[to] == x
        invariant edges == Join(old(edges), frame - todo, x)
        decreases |todo|
      {
        var id :| id in todo;
        var from := Intern(id);
        JoinMore(old(edges), frame, todo, id, x);
        AddEdgeGrounded(from, to, frame[id]);
        todo := todo - {id};
      }
      assert frame - {} == frame;
    }

    /** The edges of one assignment: from the names its target and value read, then from every condition around it. */
    method AddAssignment(frame: Frame, conds: seq<Frame>, skip: set<Name>, x: Name)
      requires Valid()
      modifies this
      ensures Valid() && edges == JoinAll(Join(old(edges), frame, x), conds, skip, x)
    {
      AddReads(frame, x);
      ghost var start := edges;
      for k := 0 to |conds|
        invariant Valid() && edges == JoinAll(start, conds[..k], skip, x)
      {
        AddReads(conds[k] - skip, x);
        assert conds[..k + 1][..k] == conds[..k];
      }
      assert conds[..|conds|] == conds;
    }

    method ScanAssignments(b: Block, written0: set<Name>, ever0: set<Name>, grounded0: set<Name>, conds: seq<Frame>)
      returns (written: set<Name>, ever: set<Name>, grounded: set<Name>)
      requires Valid()
      modifies this
      ensures Valid()
      ensures (Flow(written, ever, grounded), edges) == Scan(b, Flow(written0, ever0, grounded0), conds, old(edges), false)
      decreases b, 1
    {
      hide Join, JoinAll, Valid;
      written, ever, grounded := written0, ever0, grounded0;
      var s := b;
      while !s.End?
        invariant Valid()
        invariant Scan(s, Flow(written, ever, grounded), conds, edges, false)
               == Scan(b, Flow(written0, ever0, grounded0), conds, old(edges), false)
        invariant b == s || (b decreases to s)
        decreases s
      {
        match s {
          case Assign(t, e, rest) =>
            var frame := Reads(Idents(e) + IndexReads(t), ever);
            var skip := if t.name in written then {t.name} else {};
            AddAssignment(frame - skip, conds, skip, t.name);
            written := written + {t.name};
            grounded := grounded + {t.name};
            ever := ever + {t.name};
            s := rest;
          case Branch(scrut, _, arms, rest) =>
            written, ever, grounded :=
              ScanBranches(arms, written, ever, grounded, conds + [Reads(Idents(scrut), grounded)]);
            s := rest;
          case Loop(_, _, body, rest) =>
            var w, e, g := ScanAssignments(body, written, ever, grounded, conds);
            ever, grounded := e, g;
            s := rest;
        }
      }
    }

    /** Walks every arm from the same sets and merges what they end with. */
    method ScanBranches(arms: Arms, written0: set<Name>, ever0: set<Name>, grounded0: set<Name>, conds: seq<Frame>)
      returns (written: set<Name>, ever: set<Name>, grounded: set<Name>)
      requires Valid()
      modifies this
      ensures Valid()
      ensures (Flow(written, ever, grounded), edges) == ScanArms(arms, Flow(written0, ever0, grounded0), conds, old(edges), false)
      decreases arms, 1
    {
      hide Join, JoinAll, Valid;
      written, ever, grounded := written0, ever0, grounded0;
      if arms.Arm? {
        written, ever, grounded := ScanAssignments(arms.body, written0, ever0, grounded0, conds);
        if arms.others.Arm? {
          var w, e, g := ScanBranches(arms.others, written0, ever0, grounded0, conds);
          written, ever, grounded := written * w, ever + e, grounded * g;
        }
      }
    }

    function Names(scc: seq<nat>): set<Name>
      reads this
    {
      set i: nat | i in scc && i < |nodeById| :: nodeById[i]
    }

    method IsFoldArtifact(scc: seq<nat>) returns (r: bool)
      requires Valid() && forall k :: 0 <= k < |scc| ==> scc[k] < |nodeById|
      ensures r <==> FoldArtifact(edges, Names(scc))
    {
      var found := false;
      for i := 0 to |scc|
        invariant found <==> exists u: nat, v: nat :: u in scc[..i] && v in scc && (u, v) in edgeGrounded
        invariant forall u: nat, v: nat :: u in scc[..i] && v in scc && (u, v) in edgeGrounded ==> edgeGrounded[(u, v)]
      {
        var u := scc[i];
        assert scc[..i + 1] == scc[..i] + [u];
        for j := 0 to |adj[u]|
          invariant found <==> (exists a: nat, v: nat :: a in scc[..i] && v in scc && (a, v) in edgeGrounded)
                               || exists v :: v in adj[u][..j] && v in scc
          invariant forall v :: v in adj[u][..j] && v in scc ==> edgeGrounded[(u, v)]
        {
          var v := adj[u][j];
          assert adj[u][..j + 1] == adj[u][..j] + [v];
          assert (u, v) in edgeGrounded;
          if v in scc {
            found := true;
            if !edgeGrounded[(u, v)] {
              UngroundedInside(scc, u, v);
              return false;
            }
          }
        }
        assert adj[u][..|adj[u]|] == adj[u];
        assert forall v: nat :: (u, v) in edgeGrounded <==> v in adj[u];
      }
      assert scc[..|scc|] == scc;
      ArtifactByIds(scc);
      return found;
    }

    lemma UngroundedInside(scc: seq<nat>, u: nat, v: nat)
      requires Valid() && u in scc && v in scc && (u, v) in edgeGrounded && !edgeGrounded[(u, v)]
      ensures !FoldArtifact(edges, Names(scc))
    {
      var k := (nodeById[u], nodeById[v]);
      assert k in edges && !edges[k] && k.0 in Names(scc) && k.1 in Names(scc);
    }

    lemma ArtifactByIds(scc: seq<nat>)
      requires Valid()
      ensures FoldArtifact(edges, Names(scc)) <==>
              (exists u: nat, v: nat :: u in scc && v in scc && (u, v) in edgeGrounded)
              && forall u: nat, v: nat :: u in scc && v in scc && (u, v) in edgeGrounded ==> edgeGrounded[(u, v)]
    {
      var s := Names(scc);
      forall u: nat, v: nat | u in scc && v in scc && (u, v) in edgeGrounded
        ensures var k := (nodeById[u], nodeById[v]);
                k in edges && k.0 in s && k.1 in s && edges[k] == edgeGrounded[(u, v)]
      {
        assert nodeId[nodeById[u]] == u && nodeId[nodeById[v]] == v;
      }
      forall k | k in edges && k.0 in s && k.1 in s
        ensures nodeId[k.0] in scc && nodeId[k.1] in scc && (nodeId[k.0], nodeId[k.1]) in edgeGrounded
      {
        assert (k.0, k.1) in edges;
      }
    }
  }

  lemma JoinNone(edges: Edges, x: Name)
    ensures Join(edges, map[], x) == edges
  {
  }

  lemma JoinMore(edges: Edges, frame: Frame, todo: set<Name>, id: Name, x: Name)
    requires id in todo && todo <= frame.Keys
    ensures Join(Join(edges, frame - todo, x), map[id := frame[id]], x) == Join(edges, frame - (todo - {id}), x)
  {
    hide Join;
    var a, b, one := frame - todo, frame - (todo - {id}), map[id := frame[id]];
    var l, r := Join(Join(edges, a, x), one, x), Join(edges, b, x);
    forall k ensures (k in l <==> k in r) && (k in l && k in r ==> l[k] == r[k]) {
      JoinAt(edges, a, x, k);
      JoinAt(edges, b, x, k);
      JoinAt(Join(edges, a, x), one, x, k);
    }
  }

  // ---- The whole analysis of one block --------------------------------------------------------------------

  lemma WalkPath(g: Edges, builder: GraphBuilder, u: nat, v: nat)
    requires builder.Valid() && g == builder.edges && u < |builder.nodeById| && v < |builder.nodeById|
    ensures G.Reach(builder.adj, u, v) <==> Leads(g, builder.nodeById[u], builder.nodeById[v])
  {
    var names, adj := builder.nodeById, builder.adj;
    if G.Reach(adj, u, v) {
      var p :| G.IsWalk(adj, p) && p[0] == u && p[|p| - 1] == v;
      var q := seq(|p|, i requires 0 <= i < |p| && forall k :: 0 <= k < |p| ==> p[k] < |names| => names[p[i]]);
      forall k | 0 <= k < |q| - 1 ensures (q[k], q[k + 1]) in g {
        assert G.Edge(adj, p[k], p[k + 1]);
      }
      assert IsPath(g, q) && q[0] == names[u] && q[|q| - 1] == names[v];
    }
    if Leads(g, names[u], names[v]) {
      var q :| IsPath(g, q) && q[0] == names[u] && q[|q| - 1] == names[v];
      PathInterned(builder, q);
      var ids := builder.nodeId;
      var p := seq(|q|, i requires 0 <= i < |q| && forall k :: 0 <= k < |q| ==> q[k] in ids => ids[q[i]]);
      forall k | 0 <= k < |p| - 1 ensures G.Edge(adj, p[k], p[k + 1]) {
        assert (q[k], q[k + 1]) in g;
      }
      assert G.IsWalk(adj, p) && p[0] == u && p[|p| - 1] == v;
    }
  }

  lemma PathInterned(builder: GraphBuilder, q: seq<Name>)
    requires builder.Valid() && IsPath(builder.edges, q) && q[0] in builder.nodeId
    ensures forall k :: 0 <= k < |q| ==> q[k] in builder.nodeId
  {
    forall k | 0 < k < |q| ensures q[k] in builder.nodeId {
      assert (q[k - 1], q[k - 1 + 1]) in builder.edges;
    }
  }

  /** A component of the numbered graph is a component of the graph over names. */
  lemma NamedComponent(builder: GraphBuilder, scc: seq<nat>)
    requires builder.Valid() && G.IsScc(builder.adj, scc)
    ensures Component(builder.edges, builder.Names(scc))
  {
    hide G.Reach, Leads;
    var g, s, names := builder.edges, builder.Names(scc), builder.nodeById;
    assert scc[0] in scc && names[scc[0]] in s;
    forall x, y | x in s ensures y in s <==> Leads(g, x, y) && Leads(g, y, x) {
      var u := builder.nodeId[x];
      assert u in scc;
      if y in builder.nodeId {
        var v := builder.nodeId[y];
        WalkPath(g, builder, u, v);
        WalkPath(g, builder, v, u);
        assert y in s <==> v in scc;
      } else {
        OutsideGraph(builder, x, y);
      }
    }
  }

  lemma OutsideGraph(builder: GraphBuilder, x: Name, y: Name)
    requires builder.Valid() && x in builder.nodeId && y !in builder.nodeId
    ensures !Leads(builder.edges, x, y)
  {
    forall q | IsPath(builder.edges, q) && q[0] == x ensures q[|q| - 1] != y {
      PathInterned(builder, q);
    }
  }

  /** The name set of some listed component that the filter accepts. */
  ghost predicate AcceptedAt(builder: GraphBuilder, sccs: seq<seq<nat>>, k: nat, s: set<Name>)
    reads builder
  {
    exists i :: 0 <= i < k && i < |sccs| && s == builder.Names(sccs[i]) && FoldArtifact(builder.edges, s)
  }

  /** Builds the graph of one comb block, finds its strongly connected components, and returns those the filter takes
      for artifacts of sequential code. */
  method FoldArtifacts(b: Block) returns (found: seq<set<Name>>)
    ensures forall s :: s in found <==> Component(BlockEdges(b, false), s) && FoldArtifact(BlockEdges(b, false), s)
    ensures forall s :: s in found <==> FoldExact.FalseCycle(b, s)
  {
    hide FoldExact.FalseCycle, Component, FoldArtifact, G.IsScc, G.WfAdj, BlockEdges, T.Emitted, Interned, Listed, Named, AcceptedAt;
    var builder := Scanned(b);
    AdjWellFormed(builder);
    var sccs := TarjanRun.TarjanSccs(builder.adj);
    found := [];
    AcceptedNone(builder, sccs);
    for k := 0 to |sccs|
      invariant builder.Valid() && builder.edges == BlockEdges(b, false) && T.Components(builder.adj, sccs)
      invariant forall v: nat :: v < |builder.adj| ==> T.Emitted(sccs, v)
      invariant forall s :: s in found <==> AcceptedAt(builder, sccs, k, s)
    {
      InGraph(builder, sccs[k]);
      var accepted := builder.IsFoldArtifact(sccs[k]);
      AcceptedNext(builder, sccs, k, k + 1);
      if accepted {
        found := found + [builder.Names(sccs[k])];
      }
    }
    forall s
      ensures s in found <==> Component(builder.edges, s) && FoldArtifact(builder.edges, s)
      ensures s in found <==> FoldExact.FalseCycle(b, s)
    {
      AllAccepted(builder, sccs, s);
      FoldExact.FalseCycleExactly(b, s);
    }
  }

  method Scanned(b: Block) returns (builder: GraphBuilder)
    ensures fresh(builder) && builder.Valid() && builder.edges == BlockEdges(b, false)
  {
    builder := new GraphBuilder();
    var written, ever, grounded := builder.ScanAssignments(b, {}, {}, {}, []);
  }

  lemma InGraph(builder: GraphBuilder, scc: seq<nat>)
    requires builder.Valid() && G.IsScc(builder.adj, scc)
    ensures forall k :: 0 <= k < |scc| ==> scc[k] < |builder.nodeById|
  {
  }

  lemma AcceptedNone(builder: GraphBuilder, sccs: seq<seq<nat>>)
    ensures forall s :: !AcceptedAt(builder, sccs, 0, s)
  {
  }

  lemma AcceptedNext(builder: GraphBuilder, sccs: seq<seq<nat>>, k: nat, next: nat)
    requires k < |sccs| && next == k + 1
    ensures forall s :: AcceptedAt(builder, sccs, next, s) <==>
                        AcceptedAt(builder, sccs, k, s) || (s == builder.Names(sccs[k]) && FoldArtifact(builder.edges, s))
  {
    hide FoldArtifact;
    forall s | AcceptedAt(builder, sccs, k, s) ensures AcceptedAt(builder, sccs, next, s) {
      var i :| 0 <= i < k && i < |sccs| && s == builder.Names(sccs[i]) && FoldArtifact(builder.edges, s);
      assert 0 <= i < next;
    }
  }

  lemma AllAccepted(builder: GraphBuilder, sccs: seq<seq<nat>>, s: set<Name>)
    requires builder.Valid() && T.Components(builder.adj, sccs)
    requires forall v: nat :: v < |builder.adj| ==> T.Emitted(sccs, v)
    ensures AcceptedAt(builder, sccs, |sccs|, s) <==> Component(builder.edges, s) && FoldArtifact(builder.edges, s)
  {
    hide G.IsScc, Leads;
    if AcceptedAt(builder, sccs, |sccs|, s) {
      var i :| 0 <= i < |sccs| && s == builder.Names(sccs[i]) && FoldArtifact(builder.edges, s);
      NamedComponent(builder, sccs[i]);
    }
    if Component(builder.edges, s) && FoldArtifact(builder.edges, s) {
      var k :| k in builder.edges && k.0 in s && k.1 in s;
      var v := builder.nodeId[k.0];
      assert T.Emitted(sccs, v) by { assert (k.0, k.1) in builder.edges; }
      var i :| 0 <= i < |sccs| && v in sccs[i];
      NamedComponent(builder, sccs[i]);
      assert k.0 in builder.Names(sccs[i]);
      SameComponent(builder.edges, s, builder.Names(sccs[i]), k.0);
    }
  }

  lemma SameComponent(g: Edges, s: set<Name>, t: set<Name>, x: Name)
    requires Component(g, s) && Component(g, t) && x in s && x in t
    ensures s == t
  {
    hide Leads;
  }

  lemma AdjWellFormed(builder: GraphBuilder)
    requires builder.Valid()
    ensures G.WfAdj(builder.adj)
  {
    forall u, j | 0 <= u < |builder.adj| && 0 <= j < |builder.adj[u]| ensures builder.adj[u][j] < |builder.adj| {
      assert (u, builder.adj[u][j]) in builder.edgeGrounded;
    }
  }
}
