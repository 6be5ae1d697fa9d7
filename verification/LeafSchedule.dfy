/** The gate-weight leaf scheduler of src/fp_ir.rs: critical-path weights of the linearised nodes, and cut
    points the staged renderer always accepts. */
module LeafSchedule {
  import opened BitVec
  import opened Wrappers
  import opened FpIr
  import opened FpEval
  import opened Linearize
  import opened StagedPlan
  import opened StagedTop

  /** Relative gate depth of one operation. */
  function GateWeight(k: Kind, width: nat): nat {
    var w := Max(width, 1);
    match k
    case Not(_) => 1
    case Ite(_, _, _) => 1
    case BinOp(op, _, _) =>
      (match op
       case And => 1 case Or => 1 case Xor => 1
       case Add => w case Sub => w
       case Shl => Clog2(w) case Lshr => Clog2(w)
       case Mul => 2 * w)
    case CmpOp(_, _, _) => w
    case Call(_, _) => 2 * w
    case _ => 0
  }

  function Weight(n: Node): nat { GateWeight(n.kind, n.width) }

  /** The table's relations: wiring and leaves weigh nothing, a gate what a one-bit adder does, a carry chain its width, a
      multiplication or a call two additions, and a shift the levels of its barrel. A comparison of any width weighs one,
      because it is its own width, not its operands', that counts. */
  lemma GateWeights(w: nat, a: nat, b: nat, c: nat, name: string, args: seq<nat>, cmp: Cmp)
    ensures var add := GateWeight(BinOp(Add, a, b), w);
            (w > 0 ==> add == w) && GateWeight(BinOp(Sub, a, b), w) == add && GateWeight(CmpOp(cmp, a, b), w) == add
            && GateWeight(BinOp(Mul, a, b), w) == add + add && GateWeight(Call(name, args), w) == add + add
    ensures var gate := GateWeight(BinOp(Add, a, b), 1);
            gate == GateWeight(Not(a), w) == GateWeight(Ite(c, a, b), w) == GateWeight(BinOp(And, a, b), w)
            && gate == GateWeight(BinOp(Or, a, b), w) == GateWeight(BinOp(Xor, a, b), w) == GateWeight(CmpOp(cmp, a, b), 1)
    ensures var shift := GateWeight(BinOp(Shl, a, b), w);
            w <= Pow2(shift) && (shift > 0 ==> Pow2(shift - 1) < w) && GateWeight(BinOp(Lshr, a, b), w) == shift
    ensures forall k: Kind :: k.IsLeaf() || k.Extract? || k.Concat? || k.ZeroExt? ==> GateWeight(k, w) == 0
    ensures GateWeight(CmpOp(cmp, a, b), 0) == GateWeight(CmpOp(cmp, a, b), 1)
  {
    Clog2IsCeiling(Max(w, 1));
  }

  /** A path from node `b` down through operands, as the list of nodes it visits. */
  ghost predicate IsPath(dag: Dag, b: nat, path: seq<nat>)
    requires Acyclic(dag) && b < |dag|
    decreases |path|
  {
    OperandsBelow(dag[b].kind, b);
    path != [] && path[0] == b
    && (path[1..] == [] || (path[1] in dag[b].kind.Operands() && path[1] < |dag| && IsPath(dag, path[1], path[1..])))
  }

  function PathWeight(dag: Dag, path: seq<nat>): nat {
    if path == [] then 0
    else (if path[0] < |dag| then Weight(dag[path[0]]) else 0) + PathWeight(dag, path[1..])
  }

  function MaxOf(ws: seq<nat>): (m: nat)
    ensures forall i :: 0 <= i < |ws| ==> ws[i] <= m
    ensures m > 0 ==> m in ws
  {
    if ws == [] then 0 else Max(MaxOf(ws[..|ws| - 1]), ws[|ws| - 1])
  }

  /** Weight of the heaviest path from `b`. */
  ghost function Depth(dag: Dag, b: nat): nat
    requires Acyclic(dag) && b < |dag|
    decreases b, 1, 0
  {
    OperandsBelow(dag[b].kind, b);
    MaxOf(Depths(dag, dag[b].kind.Operands(), b)) + Weight(dag[b])
  }

  ghost function Depths(dag: Dag, ids: seq<nat>, bound: nat): (ws: seq<nat>)
    requires Acyclic(dag) && bound <= |dag| && AllBelow(ids, bound)
    ensures |ws| == |ids|
    decreases bound, 0, |ids|
  {
    if ids == [] then []
    else
      var k := |ids| - 1;
      Depths(dag, ids[..k], bound) + [Depth(dag, ids[k])]
  }

  lemma {:induction false} DepthsAt(dag: Dag, ids: seq<nat>, bound: nat, j: nat)
    requires Acyclic(dag) && bound <= |dag| && AllBelow(ids, bound) && j < |ids|
    ensures Depths(dag, ids, bound)[j] == Depth(dag, ids[j])
    decreases |ids|
  {
    hide Depth;
    if j < |ids| - 1 {
      DepthsAt(dag, ids[..|ids| - 1], bound, j);
    }
  }

  /** No path weighs more than the depth. */
  lemma {:induction false} DepthIsBound(dag: Dag, b: nat, path: seq<nat>)
    requires Acyclic(dag) && b < |dag| && IsPath(dag, b, path)
    ensures PathWeight(dag, path) <= Depth(dag, b)
    decreases |path|
  {
    OperandsBelow(dag[b].kind, b);
    if path[1..] == [] {
      assert PathWeight(dag, path[1..]) == 0;
    } else {
      var ops := dag[b].kind.Operands();
      var j :| 0 <= j < |ops| && ops[j] == path[1];
      DepthIsBound(dag, path[1], path[1..]);
      DepthsAt(dag, ops, b, j);
    }
  }

  /** Some path weighs exactly the depth. */
  lemma {:induction false} DepthIsReached(dag: Dag, b: nat) returns (path: seq<nat>)
    requires Acyclic(dag) && b < |dag|
    ensures IsPath(dag, b, path) && PathWeight(dag, path) == Depth(dag, b)
    decreases b
  {
    hide PathWeight, IsPath, Depths, Weight;
    OperandsBelow(dag[b].kind, b);
    var ops := dag[b].kind.Operands();
    var ws := Depths(dag, ops, b);
    if MaxOf(ws) == 0 {
      path := [b];
      OneNode(dag, b);
    } else {
      var j :| 0 <= j < |ws| && ws[j] == MaxOf(ws);
      DepthsAt(dag, ops, b, j);
      var rest := DepthIsReached(dag, ops[j]);
      path := [b] + rest;
      OneMore(dag, b, j, rest);
    }
  }

  lemma OneNode(dag: Dag, b: nat)
    requires Acyclic(dag) && b < |dag|
    ensures IsPath(dag, b, [b]) && PathWeight(dag, [b]) == Weight(dag[b])
  {
    hide Weight;
    assert [b][1..] == [];
  }

  lemma OneMore(dag: Dag, b: nat, j: nat, rest: seq<nat>)
    requires Acyclic(dag) && b < |dag| && j < |dag[b].kind.Operands()| && dag[b].kind.Operands()[j] < |dag|
    requires IsPath(dag, dag[b].kind.Operands()[j], rest)
    ensures IsPath(dag, b, [b] + rest) && PathWeight(dag, [b] + rest) == Weight(dag[b]) + PathWeight(dag, rest)
  {
    hide Weight;
    assert ([b] + rest)[1..] == rest;
  }

  lemma OperandShallower(dag: Dag, b: nat, j: nat)
    requires Acyclic(dag) && b < |dag| && j < |dag[b].kind.Operands()|
    ensures dag[b].kind.Operands()[j] < b && Depth(dag, dag[b].kind.Operands()[j]) <= Depth(dag, b)
  {
    OperandsBelow(dag[b].kind, b);
    var ops := dag[b].kind.Operands();
    DepthsAt(dag, ops, b, j);
    hide Weight;
  }

  /** No node of an expression is deeper than its root. */
  lemma {:induction false} RootIsDeepest(dag: Dag, b: nat, n: nat)
    requires Acyclic(dag) && b < |dag| && n < |dag| && Reaches(dag, b, n)
    ensures Depth(dag, n) <= Depth(dag, b)
    decreases b
  {
    hide Depth;
    if b != n {
      OperandsBelow(dag[b].kind, b);
      var ops := dag[b].kind.Operands();
      var j :| 0 <= j < |ops| && Reaches(dag, ops[j], n);
      OperandShallower(dag, b, j);
      RootIsDeepest(dag, ops[j], n);
    }
  }

  lemma LeafDepth(dag: Dag, b: nat)
    requires Acyclic(dag) && b < |dag| && dag[b].kind.IsLeaf()
    ensures Depth(dag, b) == 0
  {
  }

  /** Weights of all linearised nodes in one forward pass: each the heaviest operand path below its node. */
  method NodeGateDepths(dag: Dag, order: seq<nat>) returns (d: seq<nat>)
    requires Acyclic(dag) && WfOrder(dag, order)
    ensures |d| == |order|
    ensures forall i :: 0 <= i < |order| ==> order[i] < |dag| && d[i] == Depth(dag, order[i])
  {
    hide Weight, Depths, OrderedAt;
    d := seq(|order|, _ => 0);
    for i := 0 to |order|
      invariant |d| == |order|
      invariant forall j :: 0 <= j < i ==> order[j] < |dag| && d[j] == Depth(dag, order[j])
    {
      assert OrderedAt(dag, order, i);
      var m := OperandMax(dag, order, d, i);
      d := d[i := m + Weight(dag[order[i]])];
    }
  }

  /** The heaviest weight among the operands of the i-th node, read from the weights computed so far. */
  method OperandMax(dag: Dag, order: seq<nat>, d: seq<nat>, i: nat) returns (m: nat)
    requires Acyclic(dag) && WfOrder(dag, order) && i < |order| && OrderedAt(dag, order, i) && |d| == |order|
    requires forall j :: 0 <= j < i ==> order[j] < |dag| && d[j] == Depth(dag, order[j])
    ensures order[i] < |dag| && AllBelow(dag[order[i]].kind.Operands(), order[i])
    ensures m == MaxOf(Depths(dag, dag[order[i]].kind.Operands(), order[i]))
  {
    hide Depth, Depths;
    var b := order[i];
    OperandsBelow(dag[b].kind, b);
    var ops := dag[b].kind.Operands();
    ghost var ws := Depths(dag, ops, b);
    m := 0;
    for j := 0 to |ops|
      invariant m == MaxOf(ws[..j])
    {
      assert Settled(dag, order[..i], ops[j]);
      DepthsAt(dag, ops, b, j);
      var od := 0;
      if dag[ops[j]].kind.IsLeaf() {
        LeafDepth(dag, ops[j]);
      } else {
        OperandId(order, i, ops[j]);
        od := d[IdOf(order, ops[j])];
      }
      assert ws[..j + 1][..j] == ws[..j];
      m := Max(m, od);
    }
    assert ws[..|ops|] == ws;
  }

  lemma OperandId(order: seq<nat>, i: nat, o: nat)
    requires i <= |order| && o in order[..i]
    requires forall i, j :: 0 <= i < j < |order| ==> order[i] != order[j]
    ensures o in order && IdOf(order, o) < i
  {
    var k :| 0 <= k < i && order[..i][k] == o;
    assert order[k] == o == order[IdOf(order, o)];
  }

  /** First position whose weight exceeds `thresh`, or the length when none does. */
  function FirstAbove(d: seq<nat>, thresh: nat): (i: nat)
    ensures i <= |d| && (i < |d| ==> d[i] > thresh) && forall j :: 0 <= j < i ==> d[j] <= thresh
  {
    if d == [] || d[0] > thresh then 0 else 1 + FirstAbove(d[1..], thresh)
  }

  /** Cut k of n nodes into `stages`: the first node above the k-th even fraction of the root's weight, kept
      far enough from both ends that every stage owns a node. */
  ghost predicate IsCut(d: seq<nat>, stages: nat, starts: seq<nat>, k: nat)
    requires 1 <= k < stages <= |d| && |starts| > k
  {
    var want := FirstAbove(d, d[|d| - 1] * k / stages);
    var lo, hi := starts[k - 1] + 1, |d| - (stages - k);
    starts[k] == if want < lo then lo else if want > hi then hi else want
  }

  ghost predicate StrictCuts(starts: seq<nat>, stages: nat, n: nat) {
    |starts| == stages + 1 && starts[0] == 0 && starts[stages] == n
    && forall i, j :: 0 <= i < j < |starts| ==> starts[i] < starts[j]
  }

  ghost predicate AreDepths(dag: Dag, order: seq<nat>, d: seq<nat>)
    requires Acyclic(dag)
  {
    |d| == |order| && forall i :: 0 <= i < |order| ==> order[i] < |dag| && d[i] == Depth(dag, order[i])
  }

  ghost predicate AreCuts(d: seq<nat>, stages: nat, starts: seq<nat>, n: nat) {
    n <= |starts| && stages <= |d| && forall k :: 1 <= k < n && k < stages ==> IsCut(d, stages, starts, k)
  }

  /** Every interior cut balances the critical-path weights of the nodes. */
  ghost predicate Balanced(dag: Dag, order: seq<nat>, stages: nat, starts: seq<nat>)
    requires Acyclic(dag)
  {
    exists d :: AreDepths(dag, order, d) && AreCuts(d, stages, starts, stages)
  }

  lemma CutsExtend(d: seq<nat>, stages: nat, starts: seq<nat>, n: nat, s: nat)
    requires AreCuts(d, stages, starts, n) && n == |starts| && (1 <= n < stages ==> IsCut(d, stages, starts + [s], n))
    ensures AreCuts(d, stages, starts + [s], n + 1)
  {
    var more := starts + [s];
    forall k | 1 <= k < n + 1 && k < stages ensures IsCut(d, stages, more, k) {
      if k < n {
        assert IsCut(d, stages, starts, k);
      }
    }
  }

  lemma StrictExtend(starts: seq<nat>, s: nat)
    requires starts != [] && starts[|starts| - 1] < s
    requires forall i, j :: 0 <= i < j < |starts| ==> starts[i] < starts[j]
    ensures forall i, j :: 0 <= i < j < |starts + [s]| ==> (starts + [s])[i] < (starts + [s])[j]
  {
  }

  /** Cut points for a call-free function. */
  method DeriveLeafSchedule(dag: Dag, f: FpFn, stages: nat) returns (r: Result<seq<nat>>)
    requires Acyclic(dag) && f.body < |dag|
    ensures var order := Visit(dag, f.body, []);
            r.Ok? <==> stages >= 1 && NoCalls(dag, order) && stages <= |order|
    ensures r.Ok? ==> StrictCuts(r.value, stages, |Visit(dag, f.body, [])|)
    ensures r.Ok? ==> Balanced(dag, Visit(dag, f.body, []), stages, r.value)
  {
    hide IsLinearization, Visit, Depth;
    if stages == 0 {
      return Err("stages must be >= 1");
    }
    var lin := Run(dag, f.body);
    var order := lin.order;
    InOrder(dag, f.body, order);
    OneCall(dag, order);
    if Calls(dag, order) != [] {
      return Err("not a leaf: it nests a call");
    }
    var n := |order|;
    if stages > n {
      return Err("more stages than nodes");
    }
    LinearizationOrdered(dag, f.body, order);
    var d := NodeGateDepths(dag, order);
    var starts := Cut(d, stages);
    assert AreDepths(dag, order, d);
    r := Ok(starts);
  }

  /** Cuts a weight profile at even fractions of its last entry. */
  method Cut(d: seq<nat>, stages: nat) returns (starts: seq<nat>)
    requires 1 <= stages <= |d|
    ensures StrictCuts(starts, stages, |d|) && AreCuts(d, stages, starts, stages)
  {
    hide FirstAbove;
    var n := |d|;
    var total := d[n - 1];
    starts := [0];
    for k := 1 to stages
      invariant |starts| == k && starts[0] == 0 && AreCuts(d, stages, starts, k)
      invariant forall i, j :: 0 <= i < j < |starts| ==> starts[i] < starts[j]
      invariant starts[k - 1] <= n - (stages - (k - 1))
    {
      hide AreCuts;
      var thresh := total * k / stages;
      var want := FirstAbove(d, thresh);
      var lo := starts[k - 1] + 1;
      var hi := n - (stages - k);
      var s := Min(Max(want, lo), hi);
      StrictExtend(starts, s);
      CutsExtend(d, stages, starts, k, s);
      starts := starts + [s];
    }
    StrictExtend(starts, n);
    CutsExtend(d, stages, starts, stages, n);
    starts := starts + [n];
  }

  lemma LinearizationOrdered(dag: Dag, b: nat, order: seq<nat>)
    requires Acyclic(dag) && b < |dag| && IsLinearization(dag, b, order)
    ensures WfOrder(dag, order)
  {
    hide WfOrder, Reaches;
  }

  function Zeros(n: nat): seq<nat> { seq(n, _ => 0) }

  /** Every leaf schedule is accepted by the staged renderer: with it and no callee, the plan is well formed
      and every operand is defined by the stage that reads it. */
  lemma LeafScheduleAccepted(dag: Dag, f: FpFn, stages: nat, starts: seq<nat>)
    requires Acyclic(dag) && f.body < |dag| && stages >= 1
    requires NoCalls(dag, Visit(dag, f.body, [])) && StrictCuts(starts, stages, |Visit(dag, f.body, [])|)
    ensures var p := PlanOf(dag, f, None, Schedule("", starts, Zeros(stages + 1)));
            WfPlan(p) && Accepts(p)
  {
    hide Visit;
    VisitLinearizes(dag, f.body);
    var p := PlanOf(dag, f, None, Schedule("", starts, Zeros(stages + 1)));
    InOrder(dag, f.body, p.linM);
    OneCall(dag, p.linM);
    assert WfPlan(p) by {
      hide IsLinearization;
    }
    forall k, i | 1 <= k <= stages && 0 <= i < |StageTemps(p, k)| ensures TempResolves(p, StageTemps(p, k)[i], k) {
      LeafTempResolves(p, k, i);
    }
    LeafOutputResolves(p);
    hide *;
    assert Accepts(p) by {
      AcceptsLeaf(p);
    }
  }

  lemma AcceptsLeaf(p: Plan)
    requires WfPlan(p) && p.callee.None?
    requires forall k, i :: 1 <= k <= p.sched.Stages() && 0 <= i < |StageTemps(p, k)| ==> TempResolves(p, StageTemps(p, k)[i], k)
    requires ResolveRef(p, p.body, Main, p.sched.Stages()).Ok?
    ensures Accepts(p)
  {
    hide TempResolves, ResolveRef, IsLinearization;
  }

  /** With cuts through a topological order, an operand's stage is never after its user's. */
  lemma LeafTempResolves(p: Plan, k: nat, i: nat)
    requires WfPlan(p) && p.callee.None? && 1 <= k <= p.sched.Stages() && i < |StageTemps(p, k)|
    ensures TempResolves(p, StageTemps(p, k)[i], k)
  {
    hide Reaches, StageTemps;
    StageTempsKnown(p, k, i);
    var t := StageTemps(p, k)[i];
    NodeInStore(p, t);
    assert t.ns == Main;
    var b := p.linM[t.id];
    assert OrderedAt(p.dag, p.linM, t.id);
    forall j | 0 <= j < |Sources(p, t)| ensures ResolveRef(p, Sources(p, t)[j], SourceNs(p, t), k).Ok? {
      var o := Sources(p, t)[j];
      assert Settled(p.dag, p.linM[..t.id], o);
      if !p.dag[o].kind.IsLeaf() {
        OperandId(p.linM, t.id, o);
        EarlierStage(p.sched.mainStarts, IdOf(p.linM, o), t.id);
      }
    }
  }

  lemma EarlierStage(starts: seq<nat>, a: nat, b: nat)
    requires Cuts(starts) && a <= b < starts[|starts| - 1]
    ensures StageOf(starts, a) <= StageOf(starts, b)
  {
  }

  lemma LeafOutputResolves(p: Plan)
    requires WfPlan(p) && p.callee.None?
    ensures ResolveRef(p, p.body, Main, p.sched.Stages()).Ok?
  {
    if !p.dag[p.body].kind.IsLeaf() {
      assert p.linM[|p.linM| - 1] in p.linM;
    }
  }
}
