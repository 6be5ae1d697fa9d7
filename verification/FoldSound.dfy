/** What the false-cycle filter of src/comb_graph.rs may rely on: an accepted component carries no value around. */
module FoldSound {
  import opened CombCode
  import opened FoldScan

  // ---- Edges only accumulate ---------------------------------------------------------------------------

  /** g has every edge of e, grounded only where e's is. */
  ghost predicate Finer(e: Edges, g: Edges) {
    forall k :: k in e ==> k in g && (g[k] ==> e[k])
  }

  ghost predicate HasAll(frame: Frame, x: Name, g: Edges) {
    forall id :: id in frame ==> (id, x) in g && (g[(id, x)] ==> frame[id])
  }

  lemma JoinGrows(edges: Edges, frame: Frame, x: Name)
    ensures Finer(edges, Join(edges, frame, x)) && HasAll(frame, x, Join(edges, frame, x))
  {
    forall id | id in frame ensures (id, x) in Join(edges, frame, x) {
      assert (id, x) in (set i | i in frame :: (i, x));
    }
  }

  lemma {:induction false} JoinAllGrows(edges: Edges, conds: seq<Frame>, skip: set<Name>, x: Name)
    ensures Finer(edges, JoinAll(edges, conds, skip, x))
    ensures forall k :: 0 <= k < |conds| ==> HasAll(conds[k] - skip, x, JoinAll(edges, conds, skip, x))
    decreases |conds|
  {
    hide Join;
    if conds != [] {
      var earlier, last := conds[..|conds| - 1], conds[|conds| - 1];
      JoinAllGrows(edges, earlier, skip, x);
      JoinGrows(JoinAll(edges, earlier, skip, x), last - skip, x);
      forall k | 0 <= k < |conds| - 1 ensures HasAll(conds[k] - skip, x, JoinAll(edges, conds, skip, x)) {
        assert conds[k] == earlier[k];
      }
    }
  }

  function AssignEdges(t: Target, e: Expr, f: Flow, conds: seq<Frame>, edges: Edges, strict: bool): Edges {
    var frame := Reads(Idents(e) + IndexReads(t), DataBase(f, strict)) - Skip(f, t.name);
    JoinAll(Join(edges, frame, t.name), conds, Skip(f, t.name), t.name)
  }

  lemma AssignEdgesGrow(t: Target, e: Expr, f: Flow, conds: seq<Frame>, edges: Edges, strict: bool)
    ensures var g := AssignEdges(t, e, f, conds, edges, strict);
            Finer(edges, g)
            && HasAll(Reads(Idents(e) + IndexReads(t), DataBase(f, strict)) - Skip(f, t.name), t.name, g)
            && forall k :: 0 <= k < |conds| ==> HasAll(conds[k] - Skip(f, t.name), t.name, g)
  {
    hide Join, JoinAll, Reads, DataBase, Skip;
    var frame := Reads(Idents(e) + IndexReads(t), DataBase(f, strict)) - Skip(f, t.name);
    JoinGrows(edges, frame, t.name);
    JoinAllGrows(Join(edges, frame, t.name), conds, Skip(f, t.name), t.name);
  }

  lemma {:induction false} ScanGrows(b: Block, f: Flow, conds: seq<Frame>, edges: Edges, strict: bool)
    ensures Finer(edges, Scan(b, f, conds, edges, strict).1)
  {
    hide Join, JoinAll, Reads, DataBase, Skip;
    match b
    case End =>
    case Assign(t, e, rest) =>
      AssignEdgesGrow(t, e, f, conds, edges, strict);
      ScanGrows(rest, Assigned(f, t.name), conds, AssignEdges(t, e, f, conds, edges, strict), strict);
    case Branch(scrut, _, arms, rest) =>
      var inner := conds + [Reads(Idents(scrut), f.grounded)];
      ScanArmsGrow(arms, f, inner, edges, strict);
      var r := ScanArms(arms, f, inner, edges, strict);
      ScanGrows(rest, r.0, conds, r.1, strict);
    case Loop(_, _, body, rest) =>
      ScanGrows(body, f, conds, edges, strict);
      var r := Scan(body, f, conds, edges, strict);
      ScanGrows(rest, Flow(f.written, r.0.ever, r.0.grounded), conds, r.1, strict);
  }

  lemma {:induction false} ScanArmsGrow(arms: Arms, f: Flow, conds: seq<Frame>, edges: Edges, strict: bool)
    ensures Finer(edges, ScanArms(arms, f, conds, edges, strict).1)
  {
    if arms.Arm? {
      ScanGrows(arms.body, f, conds, edges, strict);
      ScanArmsGrow(arms.others, f, conds, Scan(arms.body, f, conds, edges, strict).1, strict);
    }
  }

  // ---- Which edges there are -----------------------------------------------------------------------------

  ghost predicate OnFrames(conds: seq<Frame>, id: Name) {
    exists k :: 0 <= k < |conds| && id in conds[k]
  }

  lemma OnFramesLast(conds: seq<Frame>, frame: Frame, id: Name)
    ensures OnFrames(conds + [frame], id) <==> OnFrames(conds, id) || id in frame
  {
    var all := conds + [frame];
    if id in frame { assert id in all[|conds|]; }
    if OnFrames(conds, id) {
      var k :| 0 <= k < |conds| && id in conds[k];
      assert id in all[k];
    }
  }

  lemma {:induction false} JoinAllKeys(edges: Edges, conds: seq<Frame>, skip: set<Name>, y: Name, u: Name, x: Name)
    requires u !in skip
    ensures (u, x) in JoinAll(edges, conds, skip, y) <==> (u, x) in edges || (x == y && OnFrames(conds, u))
    decreases |conds|
  {
    if conds != [] {
      var earlier, last := conds[..|conds| - 1], conds[|conds| - 1];
      JoinAllKeys(edges, earlier, skip, y, u, x);
      OnFramesLast(earlier, last, u);
      assert earlier + [last] == conds;
      JoinKeys(JoinAll(edges, earlier, skip, y), last - skip, y, u, x);
    }
  }

  lemma JoinKeys(edges: Edges, frame: Frame, y: Name, u: Name, x: Name)
    ensures (u, x) in Join(edges, frame, y) <==> (u, x) in edges || (x == y && u in frame)
  {
    assert (u, x) in (set id | id in frame :: (id, y)) <==> x == y && u in frame;
  }

  /** Between different names there is an edge exactly where some assignment reads: in its value, in its target's
      indices, or in a condition around it. */
  lemma {:induction false} EdgesAreReads(b: Block, f: Flow, conds: seq<Frame>, edges: Edges, strict: bool, u: Name, x: Name)
    requires u != x
    ensures (u, x) in Scan(b, f, conds, edges, strict).1 <==>
            (u, x) in edges || Feeds(b, u, x) || (Assigns(b, x) && OnFrames(conds, u))
    decreases b
  {
    hide Join, JoinAll, OnFrames;
    match b
    case End =>
    case Assign(t, e, rest) =>
      var frame := Reads(Idents(e) + IndexReads(t), DataBase(f, strict)) - Skip(f, t.name);
      if u !in Skip(f, t.name) { JoinAllKeys(Join(edges, frame, t.name), conds, Skip(f, t.name), t.name, u, x); }
      if u in Skip(f, t.name) { OtherTarget(Join(edges, frame, t.name), conds, Skip(f, t.name), t.name, u, x); }
      JoinKeys(edges, frame, t.name, u, x);
      EdgesAreReads(rest, Assigned(f, t.name), conds, AssignEdges(t, e, f, conds, edges, strict), strict, u, x);
    case Branch(scrut, _, arms, rest) =>
      var last := Reads(Idents(scrut), f.grounded);
      OnFramesLast(conds, last, u);
      ArmEdgesAreReads(arms, f, conds + [last], edges, strict, u, x);
      var r := ScanArms(arms, f, conds + [last], edges, strict);
      EdgesAreReads(rest, r.0, conds, r.1, strict, u, x);
    case Loop(_, _, body, rest) =>
      EdgesAreReads(body, f, conds, edges, strict, u, x);
      var r := Scan(body, f, conds, edges, strict);
      EdgesAreReads(rest, Flow(f.written, r.0.ever, r.0.grounded), conds, r.1, strict, u, x);
  }

  lemma {:induction false} ArmEdgesAreReads(arms: Arms, f: Flow, conds: seq<Frame>, edges: Edges, strict: bool,
                                            u: Name, x: Name)
    requires u != x
    ensures (u, x) in ScanArms(arms, f, conds, edges, strict).1 <==>
            (u, x) in edges || ArmsFeed(arms, u, x) || (ArmsAssign(arms, x) && OnFrames(conds, u))
    decreases arms
  {
    hide Join, JoinAll, OnFrames;
    if arms.Arm? {
      var first := Scan(arms.body, f, conds, edges, strict);
      EdgesAreReads(arms.body, f, conds, edges, strict, u, x);
      ArmEdgesAreReads(arms.others, f, conds, first.1, strict, u, x);
    }
  }

  /** Edges to one target leave those to another alone. */
  lemma {:induction false} OtherTarget(edges: Edges, conds: seq<Frame>, skip: set<Name>, y: Name, u: Name, x: Name)
    requires x != y
    ensures (u, x) in JoinAll(edges, conds, skip, y) <==> (u, x) in edges
    decreases |conds|
  {
    if conds != [] {
      OtherTarget(edges, conds[..|conds| - 1], skip, y, u, x);
      JoinKeys(JoinAll(edges, conds[..|conds| - 1], skip, y), conds[|conds| - 1] - skip, y, u, x);
    }
  }

  /** The graph of a whole block and the dependency analysis see the same reads. */
  lemma BlockEdgesAreReads(b: Block, strict: bool, u: Name, x: Name)
    requires u != x
    ensures (u, x) in BlockEdges(b, strict) <==> Feeds(b, u, x)
  {
    EdgesAreReads(b, NOTHING, [], map[], strict, u, x);
  }

  /** A condition around an assignment to x feeds x, with the flag it had when the condition was met. */
  lemma {:induction false} ConditionEdge(b: Block, f: Flow, conds: seq<Frame>, edges: Edges, strict: bool, k: nat,
                                         z: Name, x: Name, g: Edges)
    requires k < |conds| && z in conds[k] && !(z == x && x in f.written) && Assigns(b, x)
    requires Finer(Scan(b, f, conds, edges, strict).1, g)
    ensures (z, x) in g && (g[(z, x)] ==> conds[k][z])
    decreases b
  {
    hide Join, JoinAll, Reads, DataBase;
    match b
    case Assign(t, e, rest) =>
      var next := AssignEdges(t, e, f, conds, edges, strict);
      if t.name == x {
        AssignEdgesGrow(t, e, f, conds, edges, strict);
        ScanGrows(rest, Assigned(f, t.name), conds, next, strict);
        assert z in conds[k] - Skip(f, t.name);
      } else {
        ConditionEdge(rest, Assigned(f, t.name), conds, next, strict, k, z, x, g);
      }
    case Branch(scrut, _, arms, rest) =>
      var inner := conds + [Reads(Idents(scrut), f.grounded)];
      var r := ScanArms(arms, f, inner, edges, strict);
      ScanGrows(rest, r.0, conds, r.1, strict);
      if ArmsAssign(arms, x) {
        assert inner[k] == conds[k];
        ArmsConditionEdge(arms, f, inner, edges, strict, k, z, x, g);
      } else {
        if x !in f.written { WrittenIsAssigned(b, f, conds, edges, strict, x); }
        ConditionEdge(rest, r.0, conds, r.1, strict, k, z, x, g);
      }
    case Loop(_, _, body, rest) =>
      var r := Scan(body, f, conds, edges, strict);
      ScanGrows(rest, Flow(f.written, r.0.ever, r.0.grounded), conds, r.1, strict);
      if Assigns(body, x) {
        ConditionEdge(body, f, conds, edges, strict, k, z, x, g);
      } else {
        ConditionEdge(rest, Flow(f.written, r.0.ever, r.0.grounded), conds, r.1, strict, k, z, x, g);
      }
  }

  lemma {:induction false} ArmsConditionEdge(arms: Arms, f: Flow, conds: seq<Frame>, edges: Edges, strict: bool,
                                             k: nat, z: Name, x: Name, g: Edges)
    requires k < |conds| && z in conds[k] && !(z == x && x in f.written) && ArmsAssign(arms, x)
    requires Finer(ScanArms(arms, f, conds, edges, strict).1, g)
    ensures (z, x) in g && (g[(z, x)] ==> conds[k][z])
    decreases arms
  {
    var first := Scan(arms.body, f, conds, edges, strict);
    ScanArmsGrow(arms.others, f, conds, first.1, strict);
    if Assigns(arms.body, x) {
      ConditionEdge(arms.body, f, conds, edges, strict, k, z, x, g);
    } else {
      ArmsConditionEdge(arms.others, f, conds, first.1, strict, k, z, x, g);
    }
  }

  /** The arms of a branch leave unassigned names out of the definitely assigned ones. */
  lemma WrittenIsAssigned(b: Block, f: Flow, conds: seq<Frame>, edges: Edges, strict: bool, x: Name)
    requires b.Branch? && !ArmsAssign(b.arms, x) && x !in f.written
    ensures var inner := conds + [Reads(Idents(b.scrut), f.grounded)];
            x !in ScanArms(b.arms, f, inner, edges, strict).0.written
  {
    ArmsWrittenIsAssigned(b.arms, f, conds + [Reads(Idents(b.scrut), f.grounded)], edges, strict, x);
  }

  lemma {:induction false} ArmsWrittenIsAssigned(arms: Arms, f: Flow, conds: seq<Frame>, edges: Edges, strict: bool, x: Name)
    requires !ArmsAssign(arms, x) && x !in f.written
    ensures x !in ScanArms(arms, f, conds, edges, strict).0.written
  {
    if arms.Arm? {
      BlockWrittenIsAssigned(arms.body, f, conds, edges, strict, x);
      ArmsWrittenIsAssigned(arms.others, f, conds, Scan(arms.body, f, conds, edges, strict).1, strict, x);
    }
  }

  lemma {:induction false} BlockWrittenIsAssigned(b: Block, f: Flow, conds: seq<Frame>, edges: Edges, strict: bool, x: Name)
    requires !Assigns(b, x) && x !in f.written
    ensures x !in Scan(b, f, conds, edges, strict).0.written
  {
    hide Join, JoinAll, Reads, DataBase, Skip;
    match b
    case End =>
    case Assign(t, e, rest) =>
      BlockWrittenIsAssigned(rest, Assigned(f, t.name), conds, AssignEdges(t, e, f, conds, edges, strict), strict, x);
    case Branch(scrut, _, arms, rest) =>
      var inner := conds + [Reads(Idents(scrut), f.grounded)];
      ArmsWrittenIsAssigned(arms, f, inner, edges, strict, x);
      var r := ScanArms(arms, f, inner, edges, strict);
      BlockWrittenIsAssigned(rest, r.0, conds, r.1, strict, x);
    case Loop(_, _, body, rest) =>
      var r := Scan(body, f, conds, edges, strict);
      BlockWrittenIsAssigned(rest, Flow(f.written, r.0.ever, r.0.grounded), conds, r.1, strict, x);
  }

  // ---- Loop-free code with whole-signal targets --------------------------------------------------------

  predicate LoopFree(b: Block) {
    match b
    case End => true
    case Assign(_, _, rest) => LoopFree(rest)
    case Branch(_, _, arms, rest) => LoopFreeArms(arms) && LoopFree(rest)
    case Loop(_, _, _, _) => false
  }

  predicate LoopFreeArms(arms: Arms) {
    arms.Arm? ==> LoopFree(arms.body) && LoopFreeArms(arms.others)
  }

  predicate WholeTargets(b: Block) {
    match b
    case End => true
    case Assign(t, _, rest) => t.Whole? && WholeTargets(rest)
    case Branch(_, _, arms, rest) => WholeArmTargets(arms) && WholeTargets(rest)
    case Loop(_, _, body, rest) => WholeTargets(body) && WholeTargets(rest)
  }

  predicate WholeArmTargets(arms: Arms) {
    arms.Arm? ==> WholeTargets(arms.body) && WholeArmTargets(arms.others)
  }

  predicate Plain(b: Block) { LoopFree(b) && WholeTargets(b) }

  predicate PlainArms(arms: Arms) { LoopFreeArms(arms) && WholeArmTargets(arms) }

  /** Without loops a condition is judged by exactly the definitely assigned names. */
  lemma {:induction false} LoopFreeGrounded(b: Block, f: Flow, conds: seq<Frame>, edges: Edges, strict: bool)
    requires LoopFree(b) && f.grounded == f.written
    ensures var r := Scan(b, f, conds, edges, strict).0; r.grounded == r.written
  {
    hide Join, JoinAll, Reads, DataBase, Skip;
    match b
    case End =>
    case Assign(t, e, rest) =>
      LoopFreeGrounded(rest, Assigned(f, t.name), conds, AssignEdges(t, e, f, conds, edges, strict), strict);
    case Branch(scrut, _, arms, rest) =>
      var inner := conds + [Reads(Idents(scrut), f.grounded)];
      LoopFreeArmsGrounded(arms, f, inner, edges, strict);
      var r := ScanArms(arms, f, inner, edges, strict);
      LoopFreeGrounded(rest, r.0, conds, r.1, strict);
  }

  lemma {:induction false} LoopFreeArmsGrounded(arms: Arms, f: Flow, conds: seq<Frame>, edges: Edges, strict: bool)
    requires LoopFreeArms(arms) && f.grounded == f.written
    ensures var r := ScanArms(arms, f, conds, edges, strict).0; r.grounded == r.written
  {
    if arms.Arm? {
      LoopFreeGrounded(arms.body, f, conds, edges, strict);
      LoopFreeArmsGrounded(arms.others, f, conds, Scan(arms.body, f, conds, edges, strict).1, strict);
    }
  }

  // ---- No value travels around -------------------------------------------------------------------------

  /** Every edge into s is grounded or comes from upstream of s; upstream lies outside s and is closed. */
  ghost predicate Settled(g: Edges, s: set<Name>, up: iset<Name>) {
    (forall x :: x in s ==> x !in up)
    && (forall k :: k in g && k.1 in s ==> (k.0 in s && g[k]) || k.0 in up)
    && forall k :: k in g && k.1 in up ==> k.0 in up
  }

  /** Two states agree upstream of s, and on the members of s definitely assigned by now. */
  ghost predicate Matches(e1: Env, e2: Env, f: Flow, s: set<Name>, up: iset<Name>) {
    (forall x :: x in up ==> e1(x) == e2(x)) && forall x :: x in s && x in f.written ==> e1(x) == e2(x)
  }

  lemma {:induction false} WalkAgrees(b: Block, f: Flow, conds: seq<Frame>, edges: Edges, g: Edges, s: set<Name>,
                                      up: iset<Name>,
                                      e1: Env, e2: Env)
    requires Plain(b) && Exhaustive(b) && f.grounded == f.written && Settled(g, s, up)
    requires Finer(Scan(b, f, conds, edges, true).1, g) && Matches(e1, e2, f, s, up)
    ensures Matches(Exec(b, e1), Exec(b, e2), Scan(b, f, conds, edges, true).0, s, up)
    decreases b, 0
  {
    hide Join, JoinAll, Reads, DataBase, Skip, Settled, Finer;
    match b
    case End =>
    case Assign(t, e, rest) =>
      var next := AssignEdges(t, e, f, conds, edges, true);
      ScanGrows(rest, Assigned(f, t.name), conds, next, true);
      AssignAgrees(t, e, f, conds, edges, Scan(b, f, conds, edges, true).1, g, s, up, e1, e2);
      WalkAgrees(rest, Assigned(f, t.name), conds, next, g, s, up, Set(e1, t.name, Eval(e, e1)), Set(e2, t.name, Eval(e, e2)));
    case Branch(scrut, pick, arms, rest) =>
      var inner := conds + [Reads(Idents(scrut), f.grounded)];
      var r := ScanArms(arms, f, inner, edges, true);
      ScanGrows(rest, r.0, conds, r.1, true);
      FinerTrans(r.1, Scan(rest, r.0, conds, r.1, true).1, g);
      SplitAgrees(b, f, conds, edges, g, s, up, e1, e2);
      LoopFreeArmsGrounded(arms, f, inner, edges, true);
      WalkAgrees(rest, r.0, conds, r.1, g, s, up, ExecArm(arms, pick(Eval(scrut, e1)), e1),
                 ExecArm(arms, pick(Eval(scrut, e2)), e2));
  }

  lemma FinerTrans(a: Edges, b: Edges, c: Edges)
    requires Finer(a, b) && Finer(b, c)
    ensures Finer(a, c)
  {
  }

  lemma AssignAgrees(t: Target, e: Expr, f: Flow, conds: seq<Frame>, edges: Edges, all: Edges, g: Edges, s: set<Name>,
                     up: iset<Name>,
                     e1: Env, e2: Env)
    requires t.Whole? && Settled(g, s, up) && Matches(e1, e2, f, s, up)
    requires Finer(AssignEdges(t, e, f, conds, edges, true), all) && Finer(all, g)
    ensures Matches(Set(e1, t.name, Eval(e, e1)), Set(e2, t.name, Eval(e, e2)), Assigned(f, t.name), s, up)
  {
    hide Join, JoinAll, AssignEdges;
    var x := t.name;
    AssignEdgesGrow(t, e, f, conds, edges, true);
    FinerTrans(AssignEdges(t, e, f, conds, edges, true), all, g);
    if x in s || x in up {
      forall id | id in Idents(e) ensures e1(id) == e2(id) {
        if !(id == x && x in f.written) {
          assert id in Reads(Idents(e) + IndexReads(t), DataBase(f, true)) - Skip(f, x);
          assert (id, x) in g && (g[(id, x)] ==> id in f.written);
        }
      }
      EvalAgrees(e, e1, e2);
    }
  }

  lemma {:induction false} SplitAgrees(b: Block, f: Flow, conds: seq<Frame>, edges: Edges, g: Edges, s: set<Name>,
                                       up: iset<Name>,
                                       e1: Env, e2: Env)
    requires b.Branch? && Plain(b) && Exhaustive(b) && f.grounded == f.written && Settled(g, s, up) && Matches(e1, e2, f, s, up)
    requires Finer(ScanArms(b.arms, f, conds + [Reads(Idents(b.scrut), f.grounded)], edges, true).1, g)
    ensures Matches(ExecArm(b.arms, b.pick(Eval(b.scrut, e1)), e1), ExecArm(b.arms, b.pick(Eval(b.scrut, e2)), e2),
                    ScanArms(b.arms, f, conds + [Reads(Idents(b.scrut), f.grounded)], edges, true).0, s, up)
    decreases b.arms, 2
  {
    hide Join, JoinAll, Finer;
    var inner := conds + [Reads(Idents(b.scrut), f.grounded)];
    if forall id :: id in Idents(b.scrut) ==> e1(id) == e2(id) {
      EvalAgrees(b.scrut, e1, e2);
      ArmAgrees(b.arms, b.pick(Eval(b.scrut, e1)), f, inner, edges, g, s, up, e1, e2);
    } else {
      var z :| z in Idents(b.scrut) && e1(z) != e2(z);
      forall x | x in s || x in up ensures !ArmsAssign(b.arms, x) {
        if ArmsAssign(b.arms, x) && !(z == x && x in f.written) {
          ArmsConditionEdge(b.arms, f, inner, edges, true, |conds|, z, x, g);
        }
      }
      ArmsKeepMatch(b.arms, b.pick(Eval(b.scrut, e1)), b.pick(Eval(b.scrut, e2)), f, inner, edges, s, up, e1, e2);
    }
  }

  lemma ArmsKeepMatch(arms: Arms, k1: nat, k2: nat, f: Flow, conds: seq<Frame>, edges: Edges, s: set<Name>, up: iset<Name>,
                      e1: Env, e2: Env)
    requires Matches(e1, e2, f, s, up) && forall x :: x in s || x in up ==> !ArmsAssign(arms, x)
    ensures Matches(ExecArm(arms, k1, e1), ExecArm(arms, k2, e2), ScanArms(arms, f, conds, edges, true).0, s, up)
  {
    forall x | x in s || x in up
      ensures ExecArm(arms, k1, e1)(x) == e1(x) && ExecArm(arms, k2, e2)(x) == e2(x)
      ensures x in ScanArms(arms, f, conds, edges, true).0.written ==> x in f.written
    {
      ArmKeeps(arms, k1, e1, x);
      ArmKeeps(arms, k2, e2, x);
      if x !in f.written { ArmsWrittenIsAssigned(arms, f, conds, edges, true, x); }
    }
  }

  lemma {:induction false} ArmAgrees(arms: Arms, k: nat, f: Flow, conds: seq<Frame>, edges: Edges, g: Edges,
                                     s: set<Name>, up: iset<Name>,
                                     e1: Env, e2: Env)
    requires PlainArms(arms) && ArmsExhaustive(arms) && k < Count(arms)
    requires f.grounded == f.written && Settled(g, s, up) && Matches(e1, e2, f, s, up)
    requires Finer(ScanArms(arms, f, conds, edges, true).1, g)
    ensures Matches(ExecArm(arms, k, e1), ExecArm(arms, k, e2), ScanArms(arms, f, conds, edges, true).0, s, up)
    decreases arms, 1
  {
    hide Join, JoinAll, Settled, Finer;
    var first := Scan(arms.body, f, conds, edges, true);
    ScanArmsGrow(arms.others, f, conds, first.1, true);
    FinerTrans(first.1, ScanArms(arms, f, conds, edges, true).1, g) by {
      if arms.others.NoArms? { FinerSelf(first.1); }
    }
    if k == 0 {
      WalkAgrees(arms.body, f, conds, edges, g, s, up, e1, e2);
    } else {
      ArmAgrees(arms.others, k - 1, f, conds, first.1, g, s, up, e1, e2);
    }
  }

  lemma FinerSelf(a: Edges)
    ensures Finer(a, a)
  {
  }
}
