/** The clocked meaning of a staged netlist, and the proof that every accepted netlist computes the
    staged function's value, delayed by one cycle per register layer. */
module StagedCorrect {
  import opened BitVec
  import opened Wrappers
  import opened FpIr
  import opened FpEval
  import opened Linearize
  import opened StagedPlan

  // ---- Clocked semantics ---------------------------------------------------------------------------

  /** One cycle's inputs and the register contents at its start. */
  datatype Cycle = Cycle(inputs: map<string, nat>, regs: map<Sig, nat>)

  /** A signal's value; None when the name does not exist or is not assigned yet. */
  function ReadSig(c: Cycle, wires: map<Sig, nat>, s: Sig): Option<nat> {
    match s
    case Port(n) => if n in c.inputs then Some(c.inputs[n]) else None
    case Wire(_, _, _) => if s in wires then Some(wires[s]) else None
    case Reg(_, _) => if s in c.regs then Some(c.regs[s]) else None
  }

  function ReadRef(c: Cycle, wires: map<Sig, nat>, r: Ref): Option<nat> {
    match r
    case Lit(val) => Some(val)
    case Named(s) => ReadSig(c, wires, s)
  }

  function ReadRefs(c: Cycle, wires: map<Sig, nat>, refs: seq<Ref>): (vs: Option<seq<nat>>)
    ensures vs.Some? ==> |vs.value| == |refs|
  {
    if refs == [] then Some([])
    else
      var v, vs := ReadRef(c, wires, refs[0]), ReadRefs(c, wires, refs[1..]);
      if v.None? || vs.None? then None else Some([v.value] + vs.value)
  }

  ghost function RhsValue(dag: Dag, c: Cycle, wires: map<Sig, nat>, rhs: Rhs): Option<nat> {
    match rhs
    case Copy(r) => ReadRef(c, wires, r)
    case Op(b, refs) =>
      var vs := ReadRefs(c, wires, refs);
      if b < |dag| && dag[b].kind.Below(|dag|) && !dag[b].kind.IsLeaf() && !dag[b].kind.Call?
         && |refs| == |dag[b].kind.Operands()| && vs.Some?
      then Some(Meaning(dag, dag[b], vs.value))
      else None
  }

  /** A stage's combinational block: blocking assignments, in order. */
  ghost function RunComb(dag: Dag, c: Cycle, comb: seq<Assign>): Option<map<Sig, nat>> {
    if comb == [] then Some(map[])
    else
      var k := |comb| - 1;
      var wires := RunComb(dag, c, comb[..k]);
      if wires.None? then None
      else
        var v := RhsValue(dag, c, wires.value, comb[k].rhs);
        if v.None? then None else Some(wires.value[comb[k].dst := v.value])
  }

  /** A register layer's non-blocking loads, added to the registers loaded so far on this edge. */
  function RunLoads(c: Cycle, wires: map<Sig, nat>, loads: seq<Load>, next: map<Sig, nat>): Option<map<Sig, nat>> {
    if loads == [] then Some(next)
    else
      var k := |loads| - 1;
      var r := RunLoads(c, wires, loads[..k], next);
      var v := ReadSig(c, wires, loads[k].src);
      if r.None? || v.None? then None else Some(r.value[loads[k].dst := v.value])
  }

  /** Registers after the clock edge that ends cycle `c`. */
  ghost function Edge(dag: Dag, c: Cycle, stages: seq<Stage>): Option<map<Sig, nat>> {
    if stages == [] then Some(map[])
    else
      var k := |stages| - 1;
      var next := Edge(dag, c, stages[..k]);
      var wires := RunComb(dag, c, stages[k].comb);
      if next.None? || wires.None? then None else RunLoads(c, wires.value, stages[k].loads, next.value)
  }

  /** Registers at the start of cycle t of a run with inputs `ins`, powered up with contents `init`. */
  ghost function RegsAt(dag: Dag, net: Netlist, ins: seq<map<string, nat>>, init: map<Sig, nat>,
                        t: nat): Option<map<Sig, nat>>
    requires t <= |ins|
  {
    if t == 0 then Some(init)
    else
      var regs := RegsAt(dag, net, ins, init, t - 1);
      if regs.None? then None else Edge(dag, Cycle(ins[t - 1], regs.value), net.stages)
  }

  /** The module output in cycle t. */
  ghost function OutAt(dag: Dag, net: Netlist, ins: seq<map<string, nat>>, init: map<Sig, nat>, t: nat): Option<nat>
    requires t < |ins| && net.stages != []
  {
    var regs := RegsAt(dag, net, ins, init, t);
    if regs.None? then None
    else
      var c := Cycle(ins[t], regs.value);
      var wires := RunComb(dag, c, net.stages[|net.stages| - 1].comb);
      if wires.None? then None else ReadRef(c, wires.value, net.y)
  }

  // ---- The values the netlist should carry --------------------------------------------------------------

  ghost predicate DistinctNames(params: seq<(string, nat)>) {
    forall i, j :: 0 <= i < j < |params| ==> params[i].0 != params[j].0
  }

  /** The staged function resolves over its parameters, and the inlined callee is the one its call names. */
  ghost predicate Ready(p: Plan, fns: seq<FpFn>) {
    WfPlan(p) && WfFns(p.dag, fns)
    && Resolves(p.dag, fns, ParamTypes(p.params).Keys, p.body, 0)
    && (p.callee.Some? ==> Find(fns, p.sched.callee) == p.callee && DistinctNames(p.callee.value.params))
  }

  ghost function ArgValues(p: Plan, fns: seq<FpFn>, env: map<string, nat>): (vs: seq<nat>)
    requires Ready(p, fns) && p.callee.Some?
    ensures |vs| == |p.Args()|
  {
    OperandsBelow(p.dag[p.linM[p.callId]].kind, p.linM[p.callId]);
    Values(p.dag, fns, env, p.Args(), 0)
  }

  /** The environment a function's temporaries are evaluated in. */
  ghost function EnvOf(p: Plan, fns: seq<FpFn>, env: map<string, nat>, ns: Ns): map<string, nat>
    requires Ready(p, fns)
  {
    if ns.Main? || p.callee.None? then env
    else Bind(p.callee.value.params, ArgValues(p, fns, env))
  }

  function Depth(ns: Ns): nat { if ns.Main? then 0 else 1 }

  ghost function KeyValue(p: Plan, fns: seq<FpFn>, env: map<string, nat>, key: Key): nat
    requires Ready(p, fns) && Known(p, key)
  {
    match key
    case Input(n) => if n in env then env[n] else 0
    case Temp(ns, id) =>
      NodeInStore(p, key);
      Value(p.dag, fns, EnvOf(p, fns, env, ns), p.Order(ns)[id], Depth(ns))
  }

  /** Node `b`, read inside function `ns`, resolves there. */
  ghost predicate ResolvesIn(p: Plan, fns: seq<FpFn>, ns: Ns, b: nat)
    requires Ready(p, fns) && b < |p.dag|
  {
    (ns.Callee? ==> p.callee.Some?)
    && Resolves(p.dag, fns, ParamTypes(if ns.Main? then p.params else p.callee.value.params).Keys, b, Depth(ns))
  }

  lemma BodyResolves(p: Plan, fns: seq<FpFn>, ns: Ns, n: nat)
    requires Ready(p, fns) && n in p.Order(ns)
    ensures n < |p.dag| && ResolvesIn(p, fns, ns, n)
  {
    hide Resolves, IsLinearization;
    if ns.Main? {
      InMain(p, n);
      ResolvesInside(p.dag, fns, ParamTypes(p.params).Keys, p.body, n, 0);
    } else {
      CallResolves(p, fns);
      InCallee(p, n);
      ResolvesInside(p.dag, fns, ParamTypes(p.callee.value.params).Keys, p.callee.value.body, n, 1);
    }
  }

  lemma InMain(p: Plan, n: nat)
    requires WfPlan(p) && n in p.linM
    ensures n < |p.dag| && Reaches(p.dag, p.body, n)
  {
  }

  lemma InCallee(p: Plan, n: nat)
    requires WfPlan(p) && n in p.linC
    ensures p.callee.Some? && n < |p.dag| && p.callee.value.body < |p.dag| && Reaches(p.dag, p.callee.value.body, n)
  {
  }

  lemma CallResolves(p: Plan, fns: seq<FpFn>)
    requires Ready(p, fns) && p.linC != []
    ensures p.callee.Some? && Resolves(p.dag, fns, ParamTypes(p.callee.value.params).Keys, p.callee.value.body, 1)
  {
    hide IsLinearization, Reaches;
    var c := p.linM[p.callId];
    assert c in p.linM;
    InMain(p, c);
    ResolvesInside(p.dag, fns, ParamTypes(p.params).Keys, p.body, c, 0);
  }

  lemma ArgResolves(p: Plan, fns: seq<FpFn>, i: nat)
    requires Ready(p, fns) && p.callee.Some? && i < |p.Args()|
    ensures p.Args()[i] < |p.dag| && ResolvesIn(p, fns, Main, p.Args()[i])
  {
    hide IsLinearization, Reaches;
    var c := p.linM[p.callId];
    assert c in p.linM;
    ArgsInStore(p, i);
    InMain(p, c);
    ResolvesInside(p.dag, fns, ParamTypes(p.params).Keys, p.body, c, 0);
    assert p.dag[c].kind.Operands() == p.Args();
  }

  lemma {:induction false} BindAt(params: seq<(string, nat)>, vs: seq<nat>, i: nat)
    requires |params| == |vs| && i < |params| && DistinctNames(params)
    ensures params[i].0 in Bind(params, vs) && Bind(params, vs)[params[i].0] == vs[i]
    decreases |params|
  {
    var k := |params| - 1;
    if i < k {
      BindAt(params[..k], vs[..k], i);
    }
  }

  lemma {:induction false} ParamNames(params: seq<(string, nat)>, n: string)
    ensures n in ParamTypes(params) <==> exists i :: 0 <= i < |params| && params[i].0 == n
    decreases |params|
  {
    if params != [] {
      var k := |params| - 1;
      ParamNames(params[..k], n);
      if n in ParamTypes(params[..k]) {
        var i :| 0 <= i < k && params[..k][i].0 == n;
        assert params[i].0 == n;
      } else if exists i :: 0 <= i < |params| && params[i].0 == n {
        var i :| 0 <= i < |params| && params[i].0 == n;
        if i < k {
          assert params[..k][i].0 == n;
        }
      }
    }
  }

  /** Whatever an operand is located as carries the operand's value. */
  lemma LocatedValue(p: Plan, fns: seq<FpFn>, env: map<string, nat>, b: nat, ns: Ns)
    requires Ready(p, fns) && b < |p.dag| && ResolvesIn(p, fns, ns, b)
    requires env.Keys == ParamTypes(p.params).Keys
    requires Locate(p, b, ns).Ok?
    ensures var v := Value(p.dag, fns, EnvOf(p, fns, env, ns), b, Depth(ns));
            match Locate(p, b, ns).value
            case Literal(val) => val == v
            case Of(key) => Known(p, key) && KeyValue(p, fns, env, key) == v
                            && (key.Input? ==> key.name in ParamTypes(p.params))
    decreases if ns.Main? then 0 else 1
  {
    hide WfPlan, Low;
    LocatedIsKnown(p, b, ns);
    if p.dag[b].kind.Var? {
      hide ParamTypes;
      if ns.Callee? {
        CalleeVarValue(p, fns, env, b);
        var i := ParamIndex(p.callee.value.params, p.dag[b].kind.name);
        ArgsInStore(p, i);
        ArgResolves(p, fns, i);
        LocatedValue(p, fns, env, p.Args()[i], Main);
      }
    } else if p.dag[b].kind.Const? {
    } else {
      hide Value, Resolves;
    }
  }

  lemma CalleeVarValue(p: Plan, fns: seq<FpFn>, env: map<string, nat>, b: nat)
    requires Ready(p, fns) && b < |p.dag| && p.dag[b].kind.Var? && ResolvesIn(p, fns, Callee, b)
    ensures p.callee.Some?
    ensures var i := ParamIndex(p.callee.value.params, p.dag[b].kind.name);
            i < |p.Args()| == |p.callee.value.params| && p.Args()[i] < |p.dag|
            && Value(p.dag, fns, EnvOf(p, fns, env, Callee), b, 1) == Value(p.dag, fns, env, p.Args()[i], 0)
  {
    hide IsLinearization, Low;
    var params := p.callee.value.params;
    var n := p.dag[b].kind.name;
    ParamNames(params, n);
    var i := ParamIndex(params, n);
    ArgsInStore(p, i);
    BindAt(params, ArgValues(p, fns, env), i);
  }

  /** A temporary's value from its sources: the call copies the callee's result, any other node applies its
      operation. */
  lemma TempValue(p: Plan, fns: seq<FpFn>, env: map<string, nat>, t: Key)
    requires Ready(p, fns) && t.Temp? && Known(p, t)
    requires env.Keys == ParamTypes(p.params).Keys
    ensures p.Order(t.ns)[t.id] < |p.dag|
    ensures var b := p.Order(t.ns)[t.id];
            var e := EnvOf(p, fns, env, t.ns);
            if p.dag[b].kind.Call? then
              p.linC != [] ==> KeyValue(p, fns, env, t) == KeyValue(p, fns, env, Temp(Callee, |p.linC| - 1))
            else
              p.dag[b].kind.Below(|p.dag|) && AllBelow(p.dag[b].kind.Operands(), |p.dag|)
              && KeyValue(p, fns, env, t) == Meaning(p.dag, p.dag[b], Values(p.dag, fns, e, p.dag[b].kind.Operands(), Depth(t.ns)))
  {
    hide Resolves, IsLinearization, Eval, Meaning, Values;
    NodeInStore(p, t);
    var b := p.Order(t.ns)[t.id];
    OperandsBelow(p.dag[b].kind, b);
    OperandsBelow(p.dag[b].kind, |p.dag|);
    assert b in p.Order(t.ns);
    BodyResolves(p, fns, t.ns, b);
    if p.dag[b].kind.Call? {
      if p.linC != [] {
        CallValue(p, fns, env, t);
      }
    } else {
      EnvKeys(p, fns, env, t.ns);
      ValueIsStep(p.dag, fns, EnvOf(p, fns, env, t.ns), b, Depth(t.ns));
    }
  }

  lemma EnvKeys(p: Plan, fns: seq<FpFn>, env: map<string, nat>, ns: Ns)
    requires Ready(p, fns) && env.Keys == ParamTypes(p.params).Keys && (ns.Callee? ==> p.callee.Some?)
    ensures EnvOf(p, fns, env, ns).Keys == ParamTypes(if ns.Main? then p.params else p.callee.value.params).Keys
  {
    hide Resolves, IsLinearization, ParamTypes;
  }

  lemma CallValue(p: Plan, fns: seq<FpFn>, env: map<string, nat>, t: Key)
    requires Ready(p, fns) && t.Temp? && Known(p, t) && p.linC != []
    requires env.Keys == ParamTypes(p.params).Keys
    requires p.Order(t.ns)[t.id] < |p.dag| && p.dag[p.Order(t.ns)[t.id]].kind.Call?
    ensures KeyValue(p, fns, env, t) == KeyValue(p, fns, env, Temp(Callee, |p.linC| - 1))
  {
    hide Resolves, Eval, Values, Reaches, WfOrder;
    NodeInStore(p, t);
    var b := p.Order(t.ns)[t.id];
    assert b in p.Order(t.ns);
    BodyResolves(p, fns, t.ns, b);
    OperandsBelow(p.dag[b].kind, b);
    OnlyCall(p, t);
    ResolvedCall(p.dag, fns, env, b, 0);
    CalleeRoot(p);
  }

  lemma OnlyCall(p: Plan, t: Key)
    requires WfPlan(p) && t.Temp? && Known(p, t) && p.linC != []
    requires p.Order(t.ns)[t.id] < |p.dag| && p.dag[p.Order(t.ns)[t.id]].kind.Call?
    ensures t == Temp(Main, p.callId) && p.callee.Some? && p.dag[p.linM[p.callId]].kind.args == p.Args()
    ensures p.dag[p.linM[p.callId]].kind.name == p.sched.callee
  {
    hide IsLinearization;
  }

  lemma CalleeRoot(p: Plan)
    requires WfPlan(p) && p.linC != []
    ensures p.callee.Some? && p.linC[|p.linC| - 1] == p.callee.value.body
  {
    hide WfOrder, Reaches;
  }

  // ---- Assignment order ----------------------------------------------------------------------------

  lemma OperandEarlier(dag: Dag, order: seq<nat>, i: nat, j: nat)
    requires Acyclic(dag) && WfOrder(dag, order) && i < |order| && order[i] < |dag|
    requires j < |dag[order[i]].kind.Operands()|
    ensures var o := dag[order[i]].kind.Operands()[j];
            o < |dag| && (o in order && !dag[o].kind.IsLeaf() ==> IdOf(order, o) < i)
            && (!dag[o].kind.IsLeaf() ==> o in order)
  {
    assert OrderedAt(dag, order, i);
    var o := dag[order[i]].kind.Operands()[j];
    assert Settled(dag, order[..i], o);
    if !dag[o].kind.IsLeaf() {
      var k :| 0 <= k < i && order[..i][k] == o;
      assert order[k] == o == order[IdOf(order, o)];
    }
  }

  /** Main temporaries before the call come first, then the callee's, then the rest; ascending in each. */
  ghost predicate Before(p: Plan, a: Key, b: Key) {
    a.Temp? && b.Temp?
    && var ra := Rank(p, a); var rb := Rank(p, b); ra < rb || (ra == rb && a.id < b.id)
  }

  function Rank(p: Plan, t: Key): nat
    requires t.Temp?
  {
    if t.ns.Callee? then 1 else if t.id < p.callId then 0 else 2
  }

  /** Every value an assignment reads is listed before it, in rank order. */
  lemma SourceBefore(p: Plan, t: Key, i: nat, key: Key)
    requires WfPlan(p) && t.Temp? && Known(p, t) && i < |Sources(p, t)|
    requires p.Order(t.ns)[t.id] < |p.dag|
    requires Locate(p, Sources(p, t)[i], SourceNs(p, t)) == Ok(Of(key)) && key.Temp?
    ensures Before(p, key, t)
  {
    hide Reaches;
    NodeInStore(p, t);
    var b := p.Order(t.ns)[t.id];
    var o := Sources(p, t)[i];
    if p.dag[b].kind.Call? {
      OnlyCall(p, t);
      NodeInStore(p, Temp(Callee, |p.linC| - 1));
    } else {
      OperandEarlier(p.dag, p.Order(t.ns), t.id, i);
      if p.dag[o].kind.Var? {
        CalleeVarKey(p, o, key);
      }
    }
  }

  lemma CalleeVarKey(p: Plan, o: nat, key: Key)
    requires WfPlan(p) && o < |p.dag| && p.dag[o].kind.Var? && p.callee.Some?
    requires Locate(p, o, Callee) == Ok(Of(key)) && key.Temp?
    ensures key.ns == Main && key.id < p.callId
  {
    hide Reaches;
    var i := ParamIndex(p.callee.value.params, p.dag[o].kind.name);
    ArgsInStore(p, i);
    assert p.Args() == p.dag[p.linM[p.callId]].kind.Operands();
    OperandEarlier(p.dag, p.linM, p.callId, i);
  }

  /** Within a stage, rank order is list order. */
  lemma RankIsPosition(p: Plan, k: nat, i: nat, j: nat)
    requires WfPlan(p) && 1 <= k <= p.sched.Stages() && i < |StageTemps(p, k)| && j < |StageTemps(p, k)|
    requires Before(p, StageTemps(p, k)[i], StageTemps(p, k)[j])
    ensures i < j
  {
    hide IsLinearization, Reaches, Cuts, WithCallee;
    var m0, m1 := p.sched.mainStarts[k - 1], p.sched.mainStarts[k];
    var c0, c1 := p.sched.calleeStarts[k - 1], p.sched.calleeStarts[k];
    var a, b, c := Range(Main, m0, Min(m1, p.callId)), Range(Callee, c0, c1), Range(Main, Max(m0, p.callId), m1);
    var s := a + b + c;
    assert i < |a| ==> s[i] == a[i];
    assert |a| <= i < |a| + |b| ==> s[i] == b[i - |a|];
    assert |a| + |b| <= i ==> s[i] == c[i - |a| - |b|];
    assert j < |a| ==> s[j] == a[j];
    assert |a| <= j < |a| + |b| ==> s[j] == b[j - |a|];
    assert |a| + |b| <= j ==> s[j] == c[j - |a| - |b|];
  }
}
