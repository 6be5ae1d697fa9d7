/** The staged-datapath compiler of src/fp_ir.rs: what a schedule asks for, how operands are named in
    each stage, which values cross each register layer, and what an accepted netlist looks like. */
module StagedPlan {
  import opened BitVec
  import opened Wrappers
  import opened FpIr
  import opened FpEval
  import opened Linearize

  /** Which function a temporary belongs to: the staged one or the one nested call inlined into it. */
  datatype Ns = Main | Callee

  /** A value that may cross a stage boundary. */
  datatype Key = Input(name: string) | Temp(ns: Ns, id: nat)

  /** A signal of the staged module: a port, a stage-local wire, or a pipeline register. */
  datatype Sig = Port(name: string) | Wire(stage: nat, ns: Ns, id: nat) | Reg(layer: nat, key: Key)

  datatype Ref = Lit(val: nat) | Named(sig: Sig)

  /** Right-hand sides: the operation of a DAG node on resolved operands, or a plain copy. */
  datatype Rhs = Op(node: nat, refs: seq<Ref>) | Copy(ref: Ref)

  datatype Assign = Assign(dst: Sig, rhs: Rhs)

  datatype Load = Load(dst: Sig, src: Sig)

  datatype Stage = Stage(comb: seq<Assign>, loads: seq<Load>)

  datatype Netlist = Netlist(stages: seq<Stage>, y: Ref)

  /** A schedule: stage k owns temporaries starts[k-1] .. starts[k] of each function. */
  datatype Schedule = Schedule(callee: string, mainStarts: seq<nat>, calleeStarts: seq<nat>)
  {
    function Stages(): int { |mainStarts| - 1 }
  }

  ghost predicate Cuts(starts: seq<nat>) {
    |starts| >= 2 && starts[0] == 0 && forall i, j :: 0 <= i <= j < |starts| ==> starts[i] <= starts[j]
  }

  /** What a schedule's declaration guarantees: at least one stage, and for each function monotone cut
      points that start at zero. */
  ghost predicate WfSchedule(s: Schedule) {
    |s.calleeStarts| == |s.mainStarts| && Cuts(s.mainStarts) && Cuts(s.calleeStarts)
  }

  /** Stage (counted from 1) that computes temporary `id`. */
  function StageOf(starts: seq<nat>, id: nat): (k: nat)
    requires |starts| >= 2 && id < starts[|starts| - 1]
    ensures 1 <= k < |starts| && id < starts[k]
    ensures forall j :: 1 <= j < k ==> starts[j] <= id
  {
    StageFrom(starts, id, 1)
  }

  function StageFrom(starts: seq<nat>, id: nat, k: nat): (r: nat)
    requires 1 <= k < |starts| && id < starts[|starts| - 1]
    ensures k <= r < |starts| && id < starts[r]
    ensures forall j :: k <= j < r ==> starts[j] <= id
    decreases |starts| - k
  {
    if id < starts[k] then k else StageFrom(starts, id, k + 1)
  }

  /** The fixed part of a rendering: both linearisations and the schedule. `callId` is the temporary of
      the one nested call, or the number of main temporaries when there is none. */
  datatype Plan = Plan(dag: Dag, body: nat, params: seq<(string, nat)>, callee: Option<FpFn>, linM: seq<nat>,
                       linC: seq<nat>, callId: nat, sched: Schedule)
  {
    function Order(ns: Ns): seq<nat> { if ns.Main? then linM else linC }

    function Starts(ns: Ns): seq<nat> { if ns.Main? then sched.mainStarts else sched.calleeStarts }

    /** The call site's argument nodes. */
    function Args(): seq<nat> {
      if callId < |linM| && linM[callId] < |dag| && dag[linM[callId]].kind.Call?
      then dag[linM[callId]].kind.args else []
    }
  }

  ghost predicate NoCalls(dag: Dag, order: seq<nat>) {
    forall i :: 0 <= i < |order| ==> order[i] < |dag| && !dag[order[i]].kind.Call?
  }

  ghost predicate OnlyCallAt(dag: Dag, order: seq<nat>, c: nat) {
    forall i :: 0 <= i < |order| ==> order[i] < |dag| && (dag[order[i]].kind.Call? <==> i == c)
  }

  /** The structural checks a rendering passes before it looks at single operands. */
  ghost predicate WfPlan(p: Plan) {
    Acyclic(p.dag) && p.body < |p.dag| && WfSchedule(p.sched)
    && IsLinearization(p.dag, p.body, p.linM)
    && |p.linM| == p.sched.mainStarts[|p.sched.mainStarts| - 1]
    && |p.linC| == p.sched.calleeStarts[|p.sched.calleeStarts| - 1]
    && if p.callee.Some? then WithCallee(p, p.callee.value)
       else p.linC == [] && p.callId == |p.linM| && NoCalls(p.dag, p.linM)
  }

  ghost predicate WithCallee(p: Plan, c: FpFn)
    requires Acyclic(p.dag)
  {
    c.body < |p.dag| && IsLinearization(p.dag, c.body, p.linC) && NoCalls(p.dag, p.linC)
    && p.callId < |p.linM| && OnlyCallAt(p.dag, p.linM, p.callId)
    && p.dag[p.linM[p.callId]].kind.name == p.sched.callee == c.name
    && |p.Args()| == |c.params|
  }

  lemma PlanShape(p: Plan)
    requires WfPlan(p)
    ensures forall ns: Ns {:trigger p.Starts(ns)} {:trigger p.Order(ns)} :: Shaped(p, ns)
    ensures |p.sched.mainStarts| == |p.sched.calleeStarts| >= 2 && p.body < |p.dag|
    ensures p.callee.Some? ==> |p.Args()| == |p.callee.value.params|
    ensures p.callee.None? ==> p.linC == []
  {
    hide IsLinearization, NoCalls, OnlyCallAt, Acyclic;
    forall ns: Ns ensures Shaped(p, ns) {
      match ns
      case Main => assert p.Starts(Main) == p.sched.mainStarts && p.Order(Main) == p.linM;
      case Callee => assert p.Starts(Callee) == p.sched.calleeStarts && p.Order(Callee) == p.linC;
    }
    assert forall ns: Ns :: Shaped(p, ns);
  }

  predicate Shaped(p: Plan, ns: Ns) {
    |p.Starts(ns)| == p.sched.Stages() + 1 >= 2 && |p.Order(ns)| == p.Starts(ns)[|p.Starts(ns)| - 1]
  }

  ghost predicate Known(p: Plan, key: Key) {
    key.Temp? ==> key.id < |p.Order(key.ns)|
  }

  /** The stage that defines a value; module inputs exist before stage 1. */
  function Def(p: Plan, key: Key): (d: nat)
    requires key.Temp? ==> |p.Starts(key.ns)| >= 2 && key.id < p.Starts(key.ns)[|p.Starts(key.ns)| - 1]
  {
    if key.Input? then 0 else StageOf(p.Starts(key.ns), key.id)
  }

  /** The name under which stage k reads a value. */
  function SigAt(p: Plan, key: Key, k: nat): Sig
    requires key.Temp? ==> |p.Starts(key.ns)| >= 2 && key.id < p.Starts(key.ns)[|p.Starts(key.ns)| - 1]
    requires k >= 1
  {
    match key
    case Input(n) => if k == 1 then Port(n) else Reg(k - 1, key)
    case Temp(ns, id) => if Def(p, key) == k then Wire(k, ns, id) else Reg(k - 1, key)
  }

  function ParamIndex(params: seq<(string, nat)>, n: string): (i: nat)
    ensures i <= |params|
    ensures i < |params| ==> params[i].0 == n
    ensures forall j :: 0 <= j < i ==> params[j].0 != n
  {
    if params == [] || params[0].0 == n then 0 else 1 + ParamIndex(params[1..], n)
  }

  datatype Operand = Literal(val: nat) | Of(key: Key)

  /** What an operand denotes, seen from the function it occurs in. A callee's parameter stands for the
      call site's argument. */
  ghost function Locate(p: Plan, b: nat, ns: Ns): Result<Operand>
    requires WfPlan(p) && b < |p.dag|
    decreases if ns.Main? then 0 else 1
  {
    match p.dag[b].kind
    case Const(val) => Ok(Literal(Low(val, p.dag[b].width)))
    case Var(n) =>
      if ns.Main? then Ok(Of(Input(n)))
      else if p.callee.None? then Err("callee references unknown param")
      else
        var i := ParamIndex(p.callee.value.params, n);
        if i == |p.callee.value.params| then Err("callee references unknown param")
        else
          ArgsInStore(p, i);
          Locate(p, p.Args()[i], Main)
    case _ =>
      if b in p.Order(ns) then Ok(Of(Temp(ns, IdOf(p.Order(ns), b))))
      else Err("operand not in its namespace's linearization")
  }

  lemma ArgsInStore(p: Plan, i: nat)
    requires WfPlan(p) && p.callee.Some? && i < |p.Args()|
    ensures p.Args()[i] < |p.dag|
  {
    OperandsBelow(p.dag[p.linM[p.callId]].kind, p.linM[p.callId]);
  }

  /** The reference stage k uses for an operand, or the reason there is none. */
  ghost function ResolveRef(p: Plan, b: nat, ns: Ns, k: nat): Result<Ref>
    requires WfPlan(p) && b < |p.dag| && k >= 1
  {
    var o := Locate(p, b, ns);
    if o.Err? then Err(o.reason)
    else match o.value
      case Literal(val) => Ok(Lit(val))
      case Of(key) =>
        LocatedIsKnown(p, b, ns);
        if Def(p, key) > k then Err("schedule is not topological") else Ok(Named(SigAt(p, key, k)))
  }

  lemma LocatedIsKnown(p: Plan, b: nat, ns: Ns)
    requires WfPlan(p) && b < |p.dag|
    ensures Locate(p, b, ns).Ok? && Locate(p, b, ns).value.Of? ==> Known(p, Locate(p, b, ns).value.key)
    decreases if ns.Main? then 0 else 1
  {
    if p.dag[b].kind.Var? && ns.Callee? && p.callee.Some? {
      var i := ParamIndex(p.callee.value.params, p.dag[b].kind.name);
      if i < |p.callee.value.params| {
        ArgsInStore(p, i);
        LocatedIsKnown(p, p.Args()[i], Main);
      }
    }
  }

  /** The nodes an assignment reads, with the function each occurs in. The nested call reads the callee's
      result; every other node reads its operands. */
  ghost function Sources(p: Plan, t: Key): (s: seq<nat>)
    requires WfPlan(p) && t.Temp? && Known(p, t)
    ensures AllBelow(s, |p.dag|)
  {
    NodeInStore(p, t);
    var b := p.Order(t.ns)[t.id];
    OperandsBelow(p.dag[b].kind, |p.dag|);
    OperandsBelow(p.dag[b].kind, b);
    if p.dag[b].kind.Call? then
      if p.linC == [] then [] else (NodeInStore(p, Temp(Callee, |p.linC| - 1)); [p.linC[|p.linC| - 1]])
    else p.dag[b].kind.Operands()
  }

  function SourceNs(p: Plan, t: Key): Ns
    requires t.Temp? && t.id < |p.Order(t.ns)| && p.Order(t.ns)[t.id] < |p.dag|
  {
    if p.dag[p.Order(t.ns)[t.id]].kind.Call? then Callee else t.ns
  }

  lemma NodeInStore(p: Plan, t: Key)
    requires WfPlan(p) && t.Temp? && Known(p, t)
    ensures p.Order(t.ns)[t.id] < |p.dag| && !p.dag[p.Order(t.ns)[t.id]].kind.IsLeaf()
  {
    var n := p.Order(t.ns)[t.id];
    assert n in p.Order(t.ns);
  }

  /** Value `key` is read by the assignment of temporary `t`. */
  ghost predicate Reads(p: Plan, t: Key, key: Key)
    requires WfPlan(p) && t.Temp? && Known(p, t)
  {
    NodeInStore(p, t);
    exists i :: 0 <= i < |Sources(p, t)| && Locate(p, Sources(p, t)[i], SourceNs(p, t)) == Ok(Of(key))
  }

  function Range(ns: Ns, lo: nat, hi: nat): (s: seq<Key>)
    ensures |s| == if lo < hi then hi - lo else 0
    ensures forall i :: 0 <= i < |s| ==> s[i] == Temp(ns, lo + i)
  {
    if hi <= lo then [] else seq(hi - lo, i requires 0 <= i => Temp(ns, lo + i))
  }

  /** Stage k's temporaries in assignment order: main temporaries before the call, then the callee's, then
      the call and the main temporaries after it. */
  function StageTemps(p: Plan, k: nat): (s: seq<Key>)
    requires 1 <= k < |p.sched.mainStarts| && |p.sched.calleeStarts| == |p.sched.mainStarts|
  {
    var m0, m1 := p.sched.mainStarts[k - 1], p.sched.mainStarts[k];
    var c0, c1 := p.sched.calleeStarts[k - 1], p.sched.calleeStarts[k];
    Range(Main, m0, Min(m1, p.callId)) + Range(Callee, c0, c1) + Range(Main, Max(m0, p.callId), m1)
  }

  /** Value `key` is read in stage k, by one of its assignments or, in the last stage, by the output. */
  ghost predicate ReadIn(p: Plan, key: Key, k: nat)
    requires WfPlan(p) && 1 <= k <= p.sched.Stages()
  {
    (exists t :: t in StageTemps(p, k) && t.Temp? && Known(p, t) && Reads(p, t, key))
    || (k == p.sched.Stages() && Locate(p, p.body, Main) == Ok(Of(key)))
  }

  ghost predicate LiveAfter(p: Plan, key: Key, k: nat)
    requires WfPlan(p)
  {
    exists j :: k < j <= p.sched.Stages() && ReadIn(p, key, j)
  }

  /** Register layer k carries exactly the inputs and temporaries available by stage k and read later. */
  ghost predicate Carried(p: Plan, key: Key, k: nat)
    requires WfPlan(p)
  {
    Known(p, key) && Def(p, key) <= k && LiveAfter(p, key, k)
    && (key.Input? ==> exists i :: 0 <= i < |p.params| && p.params[i].0 == key.name)
  }

  /** The assignment of temporary `t` in stage k. */
  ghost predicate IsAssign(p: Plan, t: Key, k: nat, a: Assign)
    requires WfPlan(p) && t.Temp? && Known(p, t) && k >= 1
  {
    NodeInStore(p, t);
    var b := p.Order(t.ns)[t.id];
    var src := Sources(p, t);
    a.dst == Wire(k, t.ns, t.id)
    && if p.dag[b].kind.Call? then src != [] && a.rhs.Copy? && ResolveRef(p, src[0], Callee, k) == Ok(a.rhs.ref)
       else a.rhs.Op? && a.rhs.node == b && |a.rhs.refs| == |src|
            && forall i :: 0 <= i < |src| ==> ResolveRef(p, src[i], t.ns, k) == Ok(a.rhs.refs[i])
  }

  lemma StageTempsKnown(p: Plan, k: nat, i: nat)
    requires WfPlan(p) && 1 <= k <= p.sched.Stages() && i < |StageTemps(p, k)|
    ensures var t := StageTemps(p, k)[i]; t.Temp? && Known(p, t) && Def(p, t) == k
  {
    hide IsLinearization, WithCallee;
    var m0, m1 := p.sched.mainStarts[k - 1], p.sched.mainStarts[k];
    var c0, c1 := p.sched.calleeStarts[k - 1], p.sched.calleeStarts[k];
    var a, b, c := Range(Main, m0, Min(m1, p.callId)), Range(Callee, c0, c1), Range(Main, Max(m0, p.callId), m1);
    var t := StageTemps(p, k)[i];
    if i < |a| {
      assert t == a[i];
    } else if i < |a| + |b| {
      assert t == b[i - |a|];
    } else {
      assert t == c[i - |a| - |b|];
    }
    var starts := p.Starts(t.ns);
    assert starts[k - 1] <= t.id < starts[k] <= starts[|starts| - 1];
    StageIs(starts, t.id, k);
  }

  lemma StageIs(starts: seq<nat>, id: nat, k: nat)
    requires Cuts(starts) && 1 <= k < |starts| && starts[k - 1] <= id < starts[k]
    ensures id < starts[|starts| - 1] && StageOf(starts, id) == k
  {
    assert starts[k] <= starts[|starts| - 1];
  }

  /** Temporary `key` is assigned in the stage that owns it: its position in that stage's list. */
  lemma DefInStage(p: Plan, key: Key) returns (i: nat)
    requires WfPlan(p) && key.Temp? && Known(p, key)
    ensures var k := Def(p, key); 1 <= k <= p.sched.Stages() && i < |StageTemps(p, k)| && StageTemps(p, k)[i] == key
  {
    hide IsLinearization, WithCallee;
    var k := Def(p, key);
    var starts := p.Starts(key.ns);
    assert starts[k - 1] <= key.id < starts[k] by {
      if k > 1 {
        assert starts[k - 1] <= key.id;
      }
    }
    var m0, m1 := p.sched.mainStarts[k - 1], p.sched.mainStarts[k];
    var c0, c1 := p.sched.calleeStarts[k - 1], p.sched.calleeStarts[k];
    var a, b, c := Range(Main, m0, Min(m1, p.callId)), Range(Callee, c0, c1), Range(Main, Max(m0, p.callId), m1);
    if key.ns.Callee? {
      i := |a| + (key.id - c0);
      assert StageTemps(p, k)[i] == b[key.id - c0];
    } else if key.id < p.callId {
      i := key.id - m0;
      assert StageTemps(p, k)[i] == a[i];
    } else {
      i := |a| + |b| + (key.id - Max(m0, p.callId));
      assert StageTemps(p, k)[i] == c[key.id - Max(m0, p.callId)];
    }
  }

  /** Every operand of every assignment, and the output, is defined by the stage that reads it. */
  ghost predicate Accepts(p: Plan)
    requires WfPlan(p)
  {
    (p.callee.Some? ==> p.linC != [])
    && (forall k, i :: 1 <= k <= p.sched.Stages() && 0 <= i < |StageTemps(p, k)| ==> TempResolves(p, StageTemps(p, k)[i], k))
    && ResolveRef(p, p.body, Main, p.sched.Stages()).Ok?
  }

  ghost predicate TempResolves(p: Plan, t: Key, k: nat)
    requires WfPlan(p) && k >= 1
  {
    t.Temp? && Known(p, t)
    && (NodeInStore(p, t);
        forall i :: 0 <= i < |Sources(p, t)| ==> ResolveRef(p, Sources(p, t)[i], SourceNs(p, t), k).Ok?)
  }

  /** The shape of an accepted rendering. */
  ghost predicate IsNetlist(p: Plan, net: Netlist)
    requires WfPlan(p)
  {
    |net.stages| == p.sched.Stages()
    && (forall i :: 0 <= i < p.sched.Stages() ==> IsComb(p, i + 1, net.stages[i].comb))
    && (forall i :: 0 <= i < p.sched.Stages() - 1 ==> IsLayer(p, i + 1, net.stages[i].loads))
    && net.stages[p.sched.Stages() - 1].loads == []
    && ResolveRef(p, p.body, Main, p.sched.Stages()) == Ok(net.y)
  }

  ghost predicate IsComb(p: Plan, k: nat, comb: seq<Assign>)
    requires WfPlan(p) && 1 <= k <= p.sched.Stages()
  {
    |comb| == |StageTemps(p, k)|
    && forall i :: 0 <= i < |comb| ==> (StageTempsKnown(p, k, i); IsAssign(p, StageTemps(p, k)[i], k, comb[i]))
  }

  ghost predicate IsLayer(p: Plan, k: nat, loads: seq<Load>)
    requires WfPlan(p) && 1 <= k
  {
    (forall i :: 0 <= i < |loads| ==> IsLoad(p, k, loads[i]))
    && (forall key :: Carried(p, key, k) ==> exists i :: 0 <= i < |loads| && loads[i].dst == Reg(k, key))
  }

  ghost predicate IsLoad(p: Plan, k: nat, l: Load)
    requires WfPlan(p) && 1 <= k
  {
    l.dst.Reg? && l.dst.layer == k && Carried(p, l.dst.key, k) && l.src == SigAt(p, l.dst.key, k)
  }
}
