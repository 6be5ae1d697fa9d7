/** The false-cycle filter of src/comb_graph.rs on whole blocks: where it is sound, and where it is not. */
module FoldFilter {
  import opened CombCode
  import opened FoldScan
  import opened FoldSound

  // ---- Components of the dependency graph -----------------------------------------------------------------

  ghost predicate IsPath(g: Edges, p: seq<Name>) {
    p != [] && forall k :: 0 <= k < |p| - 1 ==> (p[k], p[k + 1]) in g
  }

  ghost predicate Leads(g: Edges, x: Name, y: Name) {
    exists p :: IsPath(g, p) && p[0] == x && p[|p| - 1] == y
  }

  lemma LeadsSelf(g: Edges, x: Name)
    ensures Leads(g, x, x)
  {
    assert IsPath(g, [x]) && [x][0] == x;
  }

  lemma LeadsFrom(g: Edges, x: Name, y: Name, z: Name)
    requires (x, y) in g && Leads(g, y, z)
    ensures Leads(g, x, z)
  {
    var p :| IsPath(g, p) && p[0] == y && p[|p| - 1] == z;
    var q := [x] + p;
    forall k | 0 <= k < |q| - 1 ensures (q[k], q[k + 1]) in g {
      if k > 0 { assert q[k] == p[k - 1] && q[k + 1] == p[k]; }
    }
    assert IsPath(g, q) && q[0] == x && q[|q| - 1] == z;
  }

  lemma LeadsTo(g: Edges, x: Name, y: Name, z: Name)
    requires Leads(g, x, y) && (y, z) in g
    ensures Leads(g, x, z)
  {
    var p :| IsPath(g, p) && p[0] == x && p[|p| - 1] == y;
    var q := p + [z];
    forall k | 0 <= k < |q| - 1 ensures (q[k], q[k + 1]) in g {
      assert q[k] == p[k];
      if k < |p| - 1 { assert q[k + 1] == p[k + 1]; }
    }
    assert IsPath(g, q) && q[0] == x && q[|q| - 1] == z;
  }

  /** A strongly connected component: non-empty, and with each member exactly the names it leads to and from. */
  ghost predicate Component(g: Edges, s: set<Name>) {
    s != {} && forall x, y :: x in s ==> (y in s <==> Leads(g, x, y) && Leads(g, y, x))
  }

  /** The filter: the component has an inner edge, and all its inner edges are grounded. */
  ghost predicate FoldArtifact(g: Edges, s: set<Name>) {
    (exists k :: k in g && k.0 in s && k.1 in s) && InnerGrounded(g, s)
  }

  ghost predicate InnerGrounded(g: Edges, s: set<Name>) {
    forall k :: k in g && k.0 in s && k.1 in s ==> g[k]
  }

  ghost function UpstreamOf(g: Edges, s: set<Name>): iset<Name> {
    iset z: Name | z !in s && exists x :: x in s && Leads(g, z, x)
  }

  lemma ComponentSettles(g: Edges, s: set<Name>)
    requires Component(g, s) && InnerGrounded(g, s)
    ensures Settled(g, s, UpstreamOf(g, s))
  {
    hide Leads;
    var up := UpstreamOf(g, s);
    forall k | k in g && k.1 in s && k.0 !in s ensures k.0 in up {
      LeadsSelf(g, k.1);
      LeadsFrom(g, k.0, k.1, k.1);
    }
    forall k | k in g && k.1 in up ensures k.0 in up {
      var x :| x in s && Leads(g, k.1, x);
      LeadsFrom(g, k.0, k.1, x);
      if k.0 in s {
        LeadsTo(g, k.0, k.0, k.1) by { LeadsSelf(g, k.0); }
        LeadsThrough(g, k.1, x, k.0);
      }
    }
  }

  lemma LeadsThrough(g: Edges, x: Name, y: Name, z: Name)
    requires Leads(g, x, y) && Leads(g, y, z)
    ensures Leads(g, x, z)
  {
    var p :| IsPath(g, p) && p[0] == x && p[|p| - 1] == y;
    PathLeads(g, p, 0, z);
  }

  lemma {:induction false} PathLeads(g: Edges, p: seq<Name>, k: nat, z: Name)
    requires IsPath(g, p) && k < |p| && Leads(g, p[|p| - 1], z)
    ensures Leads(g, p[k], z)
    decreases |p| - k
  {
    if k < |p| - 1 {
      PathLeads(g, p, k + 1, z);
      LeadsFrom(g, p[k], p[k + 1], z);
    }
  }

  /** Every member of an accepted component has an edge into it. */
  lemma MemberIsFed(g: Edges, s: set<Name>, x: Name) returns (y: Name)
    requires Component(g, s) && FoldArtifact(g, s) && x in s
    ensures (y, x) in g
  {
    var k :| k in g && k.0 in s && k.1 in s;
    if k.1 == x {
      y := k.0;
    } else {
      assert Leads(g, k.1, x);
      var p :| IsPath(g, p) && p[0] == k.1 && p[|p| - 1] == x;
      y := p[|p| - 2];
      assert (p[|p| - 2], p[|p| - 2 + 1]) in g;
    }
  }

  // ---- Soundness ---------------------------------------------------------------------------------------

  /** Judging data reads by definite assignment makes the filter sound on all loop-free code with whole-signal
      targets: the values a component without ungrounded inner edges leaves do not depend on those it started with. */
  lemma StrictFilterSound(b: Block, s: set<Name>, e1: Env, e2: Env)
    requires Plain(b) && Exhaustive(b)
    requires Component(BlockEdges(b, true), s) && InnerGrounded(BlockEdges(b, true), s)
    requires forall x :: x !in s ==> e1(x) == e2(x)
    ensures forall x :: x in s && x in Scan(b, NOTHING, [], map[], true).0.written ==> Exec(b, e1)(x) == Exec(b, e2)(x)
  {
    hide Component, InnerGrounded, Leads;
    var g := BlockEdges(b, true);
    ComponentSettles(g, s);
    FinerSelf(g);
    WalkAgrees(b, NOTHING, [], map[], g, s, UpstreamOf(g, s), e1, e2);
  }

  predicate Straight(b: Block) {
    b.End? || (b.Assign? && b.target.Whole? && Straight(b.rest))
  }

  /** In straight-line code possibly and definitely assigned are the same, so the two filters see the same graph. */
  lemma {:induction false} StraightSame(b: Block, f: Flow, edges: Edges)
    requires Straight(b) && f.ever == f.written
    ensures Scan(b, f, [], edges, false) == Scan(b, f, [], edges, true)
    ensures Plain(b) && Exhaustive(b)
  {
    if b.Assign? {
      StraightSame(b.rest, Assigned(f, b.target.name), AssignEdges(b.target, b.value, f, [], edges, false));
    }
  }

  lemma {:induction false} StraightAssigned(b: Block, f: Flow, edges: Edges, x: Name)
    requires Straight(b)
    ensures var r := Scan(b, f, [], edges, true);
            (x in f.written ==> x in r.0.written) && forall y :: (y, x) in r.1 ==> (y, x) in edges || x in r.0.written
  {
    hide Reads;
    if b.Assign? {
      StraightAssigned(b.rest, Assigned(f, b.target.name), AssignEdges(b.target, b.value, f, [], edges, true), x);
    }
  }

  /** The shipped filter is sound on straight-line code: after the block, no signal of an accepted component depends
      on what any signal of the component held before it. */
  lemma StraightFilterSound(b: Block, s: set<Name>, e1: Env, e2: Env)
    requires Straight(b) && Component(BlockEdges(b, false), s) && FoldArtifact(BlockEdges(b, false), s)
    requires forall x :: x !in s ==> e1(x) == e2(x)
    ensures forall x :: x in s ==> Exec(b, e1)(x) == Exec(b, e2)(x)
  {
    hide Component, InnerGrounded, Scan;
    StraightSame(b, NOTHING, map[]);
    StrictFilterSound(b, s, e1, e2);
    forall x | x in s ensures x in Scan(b, NOTHING, [], map[], true).0.written {
      var y := MemberIsFed(BlockEdges(b, true), s, x);
      StraightAssigned(b, NOTHING, map[], x);
    }
  }

  lemma {:induction false} StraightWritten(b: Block, f: Flow, edges: Edges, x: Name)
    requires Straight(b) && (x in f.written || Assigns(b, x))
    ensures x in Scan(b, f, [], edges, true).0.written
  {
    hide Reads;
    if b.Assign? {
      StraightWritten(b.rest, Assigned(f, b.target.name), AssignEdges(b.target, b.value, f, [], edges, true), x);
    }
  }

  /** The contrapositive of StrictFilterSound on straight-line code, where both filters see the same graph: a component
      whose final values depend on its initial ones has an ungrounded inner edge and is reported. */
  lemma RealCycleIsReported(b: Block, s: set<Name>, x: Name, e1: Env, e2: Env)
    requires Straight(b) && Component(BlockEdges(b, false), s) && x in s && Assigns(b, x)
    requires (forall y :: y !in s ==> e1(y) == e2(y)) && Exec(b, e1)(x) != Exec(b, e2)(x)
    ensures !InnerGrounded(BlockEdges(b, false), s)
  {
    hide Component, InnerGrounded, Scan;
    StraightSame(b, NOTHING, map[]);
    StraightWritten(b, NOTHING, map[], x);
    if InnerGrounded(BlockEdges(b, true), s) {
      StrictFilterSound(b, s, e1, e2);
    }
  }

  ghost predicate Tighter(loose: Edges, tight: Edges) { loose.Keys == tight.Keys && Finer(loose, tight) }

  lemma JoinTighter(loose: Edges, tight: Edges, a: Frame, b: Frame, x: Name)
    requires Tighter(loose, tight) && a.Keys == b.Keys && forall id :: id in b && b[id] ==> a[id]
    ensures Tighter(Join(loose, a, x), Join(tight, b, x))
  {
    assert (set id | id in a :: (id, x)) == (set id | id in b :: (id, x));
  }

  lemma {:induction false} JoinAllTighter(loose: Edges, tight: Edges, conds: seq<Frame>, skip: set<Name>, x: Name)
    requires Tighter(loose, tight)
    ensures Tighter(JoinAll(loose, conds, skip, x), JoinAll(tight, conds, skip, x))
    decreases |conds|
  {
    hide Join, Finer;
    if conds != [] {
      var earlier, last := conds[..|conds| - 1], conds[|conds| - 1] - skip;
      JoinAllTighter(loose, tight, earlier, skip, x);
      JoinTighter(JoinAll(loose, earlier, skip, x), JoinAll(tight, earlier, skip, x), last, last, x);
    }
  }

  /** The strict filter sees the same edges, and grounds no more of them: it accepts fewer components. */
  lemma {:induction false} StrictIsStricter(b: Block, f: Flow, conds: seq<Frame>, loose: Edges, tight: Edges)
    requires Nested(f) && Tighter(loose, tight)
    ensures var r, q := Scan(b, f, conds, loose, false), Scan(b, f, conds, tight, true);
            r.0 == q.0 && Tighter(r.1, q.1) && Nested(r.0)
  {
    hide Join, JoinAll, Finer, Tighter;
    ScanNested(b, f, conds, loose, false);
    match b
    case End =>
    case Assign(t, e, rest) =>
      var ids := Idents(e) + IndexReads(t);
      JoinTighter(loose, tight, Reads(ids, f.ever) - Skip(f, t.name), Reads(ids, f.written) - Skip(f, t.name), t.name);
      JoinAllTighter(Join(loose, Reads(ids, f.ever) - Skip(f, t.name), t.name),
                     Join(tight, Reads(ids, f.written) - Skip(f, t.name), t.name), conds, Skip(f, t.name), t.name);
      StrictIsStricter(rest, Assigned(f, t.name), conds, AssignEdges(t, e, f, conds, loose, false),
                       AssignEdges(t, e, f, conds, tight, true));
    case Branch(scrut, _, arms, rest) =>
      var inner := conds + [Reads(Idents(scrut), f.grounded)];
      StrictArms(arms, f, inner, loose, tight);
      var r, q := ScanArms(arms, f, inner, loose, false), ScanArms(arms, f, inner, tight, true);
      StrictIsStricter(rest, r.0, conds, r.1, q.1);
    case Loop(_, _, body, rest) =>
      StrictIsStricter(body, f, conds, loose, tight);
      var r, q := Scan(body, f, conds, loose, false), Scan(body, f, conds, tight, true);
      ScanNested(body, f, conds, loose, false);
      StrictIsStricter(rest, Flow(f.written, r.0.ever, r.0.grounded), conds, r.1, q.1);
  }

  lemma {:induction false} StrictArms(arms: Arms, f: Flow, conds: seq<Frame>, loose: Edges, tight: Edges)
    requires Nested(f) && Tighter(loose, tight)
    ensures var r, q := ScanArms(arms, f, conds, loose, false), ScanArms(arms, f, conds, tight, true);
            r.0 == q.0 && Tighter(r.1, q.1) && Nested(r.0)
  {
    hide Join, JoinAll, Finer, Tighter;
    if arms.Arm? {
      StrictIsStricter(arms.body, f, conds, loose, tight);
      StrictArms(arms.others, f, conds, Scan(arms.body, f, conds, loose, false).1, Scan(arms.body, f, conds, tight, true).1);
    }
  }

  lemma StrictAcceptsFewer(b: Block, s: set<Name>)
    requires FoldArtifact(BlockEdges(b, true), s)
    ensures FoldArtifact(BlockEdges(b, false), s)
  {
    StrictIsStricter(b, NOTHING, [], map[], map[]);
  }

  // ---- Beyond straight-line code -----------------------------------------------------------------------

  /** if c { y = 1 }  x = y;  y = x. */
  const HALF_SET := Branch(Ident("c"), v => if v != 0 then 0 else 1,
                           Arm(Assign(Whole("y"), Lit(1), End), Arm(End, NoArms)),
                           Assign(Whole("x"), Ident("y"), Assign(Whole("y"), Ident("x"), End)))

  lemma JoinOne(edges: Edges, id: Name, flag: bool, x: Name)
    ensures Join(edges, map[id := flag], x) == edges[(id, x) := ((id, x) in edges ==> edges[(id, x)]) && flag]
    ensures Join(edges, map[], x) == edges
  {
  }

  /** A copy outside all conditions, from a possibly assigned name, adds one grounded edge. */
  lemma CopyEdges(x: Name, y: Name, f: Flow, edges: Edges)
    requires x !in f.written && y in f.ever && (y, x) !in edges
    ensures AssignEdges(Whole(x), Ident(y), f, [], edges, false) == edges[(y, x) := true]
  {
    JoinOne(edges, y, true, x);
    assert Reads({y}, f.ever) - {} == map[y := true];
    assert {y} + {} == {y};
  }

  /** A constant under one condition adds the condition's edge only. */
  lemma ConstEdges(x: Name, c: Name, f: Flow)
    requires x !in f.written
    ensures AssignEdges(Whole(x), Lit(1), f, [map[c := false]], map[], false) == map[(c, x) := false]
  {
    var frame := map[c := false];
    JoinOne(map[], c, false, x);
    assert Reads({} + {}, f.ever) - {} == map[];
    assert [frame][..0] == [] && frame - {} == frame;
    assert JoinAll(map[], [], {}, x) == map[];
  }

  /** The walk over the arm that assigns y, and then over the two assignments after the branch. */
  lemma HalfSetEdges()
    ensures BlockEdges(HALF_SET, false) == map[("c", "y") := false, ("y", "x") := true, ("x", "y") := true]
  {
    hide Join, JoinAll, AssignEdges;
    var frame := map["c" := false];
    assert Reads({"c"}, {}) == frame && [] + [frame] == [frame];
    HalfSetArms(frame);
    var e1: Edges := map[("c", "y") := false];
    var f := Flow({}, {"y"}, {});
    HalfSetTail(f, e1);
    assert Scan(HALF_SET, NOTHING, [], map[], false) == Scan(HALF_SET.rest, f, [], e1, false);
  }

  lemma HalfSetArms(frame: Frame)
    requires frame == map["c" := false]
    ensures ScanArms(HALF_SET.arms, NOTHING, [frame], map[], false) == (Flow({}, {"y"}, {}), map[("c", "y") := false])
  {
    hide Join, JoinAll;
    var e1: Edges := map[("c", "y") := false];
    ConstEdges("y", "c", NOTHING);
    var first := HALF_SET.arms.body;
    assert Assigned(NOTHING, "y") == Flow({"y"}, {"y"}, {"y"});
    assert AssignEdges(first.target, first.value, NOTHING, [frame], map[], false) == e1;
    assert Scan(first, NOTHING, [frame], map[], false) == (Flow({"y"}, {"y"}, {"y"}), e1);
    var others := HALF_SET.arms.others;
    assert others == Arm(End, NoArms) && Scan(End, NOTHING, [frame], e1, false) == (NOTHING, e1);
    assert ScanArms(others, NOTHING, [frame], e1, false) == (NOTHING, e1);
    assert Merge(Flow({"y"}, {"y"}, {"y"}), NOTHING) == Flow({}, {"y"}, {});
  }

  lemma HalfSetTail(f: Flow, e1: Edges)
    requires f == Flow({}, {"y"}, {}) && e1 == map[("c", "y") := false]
    ensures Scan(HALF_SET.rest, f, [], e1, false).1 == e1[("y", "x") := true][("x", "y") := true]
  {
    hide Join, JoinAll;
    CopyEdges("x", "y", f, e1);
    CopyEdges("y", "x", Assigned(f, "x"), e1[("y", "x") := true]);
    var last := HALF_SET.rest.rest;
    assert AssignEdges(HALF_SET.rest.target, HALF_SET.rest.value, f, [], e1, false) == e1[("y", "x") := true];
    assert Scan(HALF_SET.rest, f, [], e1, false) == Scan(last, Assigned(f, "x"), [], e1[("y", "x") := true], false);
    assert Scan(last, Assigned(f, "x"), [], e1[("y", "x") := true], false).1 == e1[("y", "x") := true][("x", "y") := true];
  }

  /** Two names that read each other are a component when no edge leads from them elsewhere. */
  lemma TwoCycle(g: Edges, x: Name, y: Name)
    requires (x, y) in g && (y, x) in g && forall k :: k in g && k.0 in {x, y} ==> k.1 in {x, y}
    ensures Component(g, {x, y})
  {
    hide Leads;
    var s := {x, y};
    LeadsSelf(g, x);
    LeadsSelf(g, y);
    LeadsFrom(g, x, y, y);
    LeadsFrom(g, y, x, x);
    forall u, v | u in s && v !in s ensures !Leads(g, u, v) {
      forall p | IsPath(g, p) && p[0] == u ensures p[|p| - 1] in s {
        StaysInside(g, s, p, |p| - 1);
      }
      LeadsOutNot(g, s, u, v);
    }
  }

  lemma HalfSetComponent(g: Edges)
    requires g == map[("c", "y") := false, ("y", "x") := true, ("x", "y") := true]
    ensures Component(g, {"x", "y"}) && FoldArtifact(g, {"x", "y"})
  {
    hide Component;
    assert ("x", "y") in g && g[("x", "y")];
    TwoCycle(g, "x", "y");
  }

  lemma LeadsOutNot(g: Edges, s: set<Name>, x: Name, y: Name)
    requires forall p :: IsPath(g, p) && p[0] == x ==> p[|p| - 1] in s
    requires y !in s
    ensures !Leads(g, x, y)
  {
  }

  lemma {:induction false} StaysInside(g: Edges, s: set<Name>, p: seq<Name>, k: nat)
    requires IsPath(g, p) && p[0] in s && k < |p| && forall e :: e in g && e.0 in s ==> e.1 in s
    ensures p[k] in s
    decreases k
  {
    if k > 0 {
      StaysInside(g, s, p, k - 1);
      assert (p[k - 1], p[k - 1 + 1]) in g;
    }
  }

  /** On branching code the shipped filter is not sound: a name assigned in one arm only counts as settled, although
      on the other path it still holds what it held before the block. */
  lemma ShippedFilterUnsound(e1: Env, e2: Env)
    requires forall x :: e1(x) == 0 && e2(x) == if x == "y" then 1 else 0
    ensures Plain(HALF_SET) && Exhaustive(HALF_SET)
    ensures Component(BlockEdges(HALF_SET, false), {"x", "y"}) && FoldArtifact(BlockEdges(HALF_SET, false), {"x", "y"})
    ensures forall x :: x !in {"x", "y"} ==> e1(x) == e2(x)
    ensures Exec(HALF_SET, e1)("x") == 0 && Exec(HALF_SET, e2)("x") == 1
    ensures forall env: Env :: env("c") != 0 ==> Exec(HALF_SET, env)("x") == 1
  {
    forall env: Env | env("c") != 0 ensures Exec(HALF_SET, env)("x") == 1 { HalfSetOther(env); }
    HalfSetEdges();
    HalfSetComponent(BlockEdges(HALF_SET, false));
    HalfSetRun(e1);
    HalfSetRun(e2);
  }

  lemma HalfSetOther(env: Env)
    requires env("c") != 0
    ensures Exec(HALF_SET, env)("x") == 1
  {
    var taken := Set(env, "y", 1);
    assert ExecArm(HALF_SET.arms, 0, env) == Exec(HALF_SET.arms.body, env) == Exec(End, taken) == taken;
    var next := Set(taken, "x", taken("y"));
    assert Exec(HALF_SET.rest, taken) == Exec(HALF_SET.rest.rest, next);
    assert Exec(HALF_SET.rest.rest, next)("x") == next("x");
  }

  lemma HalfSetRun(env: Env)
    requires env("c") == 0
    ensures Exec(HALF_SET, env)("x") == env("y") && Plain(HALF_SET) && Exhaustive(HALF_SET)
  {
    var arms := HALF_SET.arms;
    assert ExecArm(arms, 1, env) == ExecArm(arms.others, 0, env) == env;
    var next := Set(env, "x", env("y"));
    assert Exec(HALF_SET.rest, env) == Exec(HALF_SET.rest.rest, next);
    assert Exec(HALF_SET.rest.rest, next)("x") == next("x");
    assert Count(arms) == 2;
    assert Plain(arms.body) && Plain(HALF_SET.rest.rest);
  }
}
