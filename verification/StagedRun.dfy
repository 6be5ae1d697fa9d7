/** Every clocked run of an accepted staged netlist: names exist before they are read, each register
    layer holds the values of one earlier input, and the output is the staged function of the inputs
    stages - 1 cycles ago. */
module StagedRun {
  import opened BitVec
  import opened Wrappers
  import opened FpIr
  import opened FpEval
  import opened Linearize
  import opened StagedPlan
  import opened StagedCorrect

  /** Register layer k holds every value it carries; when `exact`, those are the values for inputs `env`. */
  ghost predicate LayerOk(p: Plan, fns: seq<FpFn>, regs: map<Sig, nat>, k: nat, env: map<string, nat>, exact: bool)
    requires Ready(p, fns)
  {
    forall key :: Carried(p, key, k) ==>
      Reg(k, key) in regs && (exact ==> regs[Reg(k, key)] == KeyValue(p, fns, env, key))
  }

  /** What stage k reads from outside itself: the ports in stage 1, register layer k - 1 afterwards. */
  ghost predicate Fed(p: Plan, fns: seq<FpFn>, c: Cycle, k: nat, env: map<string, nat>, exact: bool)
    requires Ready(p, fns)
  {
    if k == 1 then c.inputs.Keys == ParamTypes(p.params).Keys && (exact ==> c.inputs == env)
    else k > 1 && LayerOk(p, fns, c.regs, k - 1, env, exact)
  }

  ghost predicate WireOk(p: Plan, fns: seq<FpFn>, wires: map<Sig, nat>, t: Key, k: nat, env: map<string, nat>, exact: bool)
    requires Ready(p, fns)
  {
    t.Temp? && Known(p, t)
    && Wire(k, t.ns, t.id) in wires && (exact ==> wires[Wire(k, t.ns, t.id)] == KeyValue(p, fns, env, t))
  }

  /** The first j assignments of stage k have run. */
  ghost predicate WiresOk(p: Plan, fns: seq<FpFn>, wires: map<Sig, nat>, k: nat, j: nat, env: map<string, nat>, exact: bool)
    requires Ready(p, fns) && 1 <= k <= p.sched.Stages() && j <= |StageTemps(p, k)|
  {
    forall i :: 0 <= i < j ==> WireOk(p, fns, wires, StageTemps(p, k)[i], k, env, exact)
  }

  /** A value stage k may read after its first j assignments: it crosses the layer before stage k, or one of
      those assignments has just defined it. */
  ghost predicate ReadableAt(p: Plan, key: Key, k: nat, j: nat)
    requires WfPlan(p) && 1 <= k <= p.sched.Stages() && j <= |StageTemps(p, k)|
  {
    LiveAfter(p, key, k - 1)
    && (Known(p, key) && Def(p, key) == k ==> exists i :: 0 <= i < j && StageTemps(p, k)[i] == key)
  }

  /** A value read in stage k is readable there under its stage-k name, and has the right value. */
  lemma SigReads(p: Plan, fns: seq<FpFn>, c: Cycle, wires: map<Sig, nat>, k: nat, j: nat, key: Key,
                 env: map<string, nat>, exact: bool)
    requires Ready(p, fns) && 1 <= k <= p.sched.Stages() && j <= |StageTemps(p, k)|
    requires Fed(p, fns, c, k, env, exact) && WiresOk(p, fns, wires, k, j, env, exact)
    requires Known(p, key) && Def(p, key) <= k && ReadableAt(p, key, k, j)
    requires key.Input? ==> key.name in ParamTypes(p.params)
    ensures var r := ReadSig(c, wires, SigAt(p, key, k));
            r.Some? && (exact ==> r.value == KeyValue(p, fns, env, key))
  {
    hide Resolves, LiveAfter, StageTemps, Value, EnvOf, IsLinearization, WithCallee;
    if key.Temp? && Def(p, key) == k {
      var i :| 0 <= i < j && StageTemps(p, k)[i] == key;
      assert WireOk(p, fns, wires, StageTemps(p, k)[i], k, env, exact);
    } else if k > 1 {
      if key.Input? {
        ParamNames(p.params, key.name);
      }
      assert Carried(p, key, k - 1);
    }
  }

  /** One resolved operand of an assignment, or of the output, reads the operand's value. */
  lemma OperandReads(p: Plan, fns: seq<FpFn>, c: Cycle, wires: map<Sig, nat>, k: nat, j: nat, b: nat, ns: Ns, r: Ref,
                     env: map<string, nat>, exact: bool)
    requires Ready(p, fns) && 1 <= k <= p.sched.Stages() && j <= |StageTemps(p, k)|
    requires Fed(p, fns, c, k, env, exact) && WiresOk(p, fns, wires, k, j, env, exact)
    requires b < |p.dag| && ResolvesIn(p, fns, ns, b) && ResolveRef(p, b, ns, k) == Ok(r)
    requires env.Keys == ParamTypes(p.params).Keys
    requires forall key :: Locate(p, b, ns) == Ok(Of(key)) ==> ReadableAt(p, key, k, j)
    ensures var v := ReadRef(c, wires, r);
            v.Some? && (exact ==> v.value == Value(p.dag, fns, EnvOf(p, fns, env, ns), b, Depth(ns)))
  {
    hide WfPlan, Resolves, ReadableAt, StageTemps, Value, EnvOf, Fed, WiresOk, Locate, KeyValue;
    LocatedIsKnown(p, b, ns);
    LocatedValue(p, fns, env, b, ns);
    if Locate(p, b, ns).value.Of? {
      SigReads(p, fns, c, wires, k, j, Locate(p, b, ns).value.key, env, exact);
    }
  }

  lemma ReadNow(p: Plan, key: Key, k: nat)
    requires WfPlan(p) && 1 <= k <= p.sched.Stages() && ReadIn(p, key, k)
    ensures LiveAfter(p, key, k - 1)
  {
    hide ReadIn;
  }

  /** The i-th source of the j-th assignment of stage k. */
  lemma SourceReads(p: Plan, fns: seq<FpFn>, c: Cycle, wires: map<Sig, nat>, k: nat, j: nat, i: nat, r: Ref,
                    env: map<string, nat>, exact: bool)
    requires Ready(p, fns) && 1 <= k <= p.sched.Stages() && j < |StageTemps(p, k)|
    requires Fed(p, fns, c, k, env, exact) && WiresOk(p, fns, wires, k, j, env, exact)
    requires env.Keys == ParamTypes(p.params).Keys
    requires var t := StageTemps(p, k)[j];
             t.Temp? && Known(p, t) && p.Order(t.ns)[t.id] < |p.dag| && i < |Sources(p, t)|
             && ResolveRef(p, Sources(p, t)[i], SourceNs(p, t), k) == Ok(r)
    ensures var t := StageTemps(p, k)[j];
            var v := ReadRef(c, wires, r);
            v.Some? && (exact ==>
              v.value == Value(p.dag, fns, EnvOf(p, fns, env, SourceNs(p, t)), Sources(p, t)[i], Depth(SourceNs(p, t))))
  {
    hide IsLinearization, WithCallee, Resolves, ReadableAt, StageTemps, Value, EnvOf, Fed, WiresOk, Locate, KeyValue,
         ResolvesIn, Sources;
    var t := StageTemps(p, k)[j];
    SourceResolves(p, fns, t, i);
    var b, ns := Sources(p, t)[i], SourceNs(p, t);
    forall key | Locate(p, b, ns) == Ok(Of(key)) ensures ReadableAt(p, key, k, j) {
      SourceKey(p, k, j, i, key);
    }
    OperandReads(p, fns, c, wires, k, j, b, ns, r, env, exact);
  }

  lemma SourceResolves(p: Plan, fns: seq<FpFn>, t: Key, i: nat)
    requires Ready(p, fns) && t.Temp? && Known(p, t) && p.Order(t.ns)[t.id] < |p.dag| && i < |Sources(p, t)|
    ensures Sources(p, t)[i] < |p.dag| && ResolvesIn(p, fns, SourceNs(p, t), Sources(p, t)[i])
  {
    hide Reaches;
    var b := p.Order(t.ns)[t.id];
    assert b in p.Order(t.ns);
    BodyResolves(p, fns, t.ns, b);
    if p.dag[b].kind.Call? {
      NodeInStore(p, Temp(Callee, |p.linC| - 1));
      assert p.linC[|p.linC| - 1] in p.linC;
      BodyResolves(p, fns, Callee, p.linC[|p.linC| - 1]);
    }
  }

  lemma SourceKey(p: Plan, k: nat, j: nat, i: nat, key: Key)
    requires WfPlan(p) && 1 <= k <= p.sched.Stages() && j < |StageTemps(p, k)|
    requires var t := StageTemps(p, k)[j];
             t.Temp? && Known(p, t) && p.Order(t.ns)[t.id] < |p.dag| && i < |Sources(p, t)|
             && Locate(p, Sources(p, t)[i], SourceNs(p, t)) == Ok(Of(key))
    ensures ReadableAt(p, key, k, j)
  {
    hide Locate, Sources, StageTemps, IsLinearization, WithCallee, LiveAfter;
    var t := StageTemps(p, k)[j];
    assert Reads(p, t, key);
    assert ReadIn(p, key, k);
    ReadNow(p, key, k);
    if Known(p, key) && Def(p, key) == k {
      var at := DefInStage(p, key);
      SourceBefore(p, t, i, key);
      RankIsPosition(p, k, at, j);
    }
  }

  /** All operands of the j-th assignment of stage k. */
  lemma {:induction false} RefsRead(p: Plan, fns: seq<FpFn>, c: Cycle, wires: map<Sig, nat>, k: nat, j: nat,
                                    refs: seq<Ref>, m: nat,
                                    env: map<string, nat>, exact: bool)
    requires Ready(p, fns) && 1 <= k <= p.sched.Stages() && j < |StageTemps(p, k)|
    requires Fed(p, fns, c, k, env, exact) && WiresOk(p, fns, wires, k, j, env, exact)
    requires env.Keys == ParamTypes(p.params).Keys
    requires var t := StageTemps(p, k)[j];
             t.Temp? && Known(p, t) && p.Order(t.ns)[t.id] < |p.dag|
             && m + |refs| == |Sources(p, t)|
             && forall i :: 0 <= i < |refs| ==> ResolveRef(p, Sources(p, t)[m + i], SourceNs(p, t), k) == Ok(refs[i])
    ensures var t := StageTemps(p, k)[j];
            var vs := ReadRefs(c, wires, refs);
            vs.Some? && (exact ==>
              vs.value == Values(p.dag, fns, EnvOf(p, fns, env, SourceNs(p, t)), Sources(p, t)[m..], Depth(SourceNs(p, t))))
    decreases |refs|
  {
    hide IsLinearization, WithCallee, Resolves, StageTemps, Value, EnvOf, Fed, WiresOk, ResolveRef, Sources;
    if refs != [] {
      var t := StageTemps(p, k)[j];
      assert Sources(p, t)[m..][0] == Sources(p, t)[m];
      assert Sources(p, t)[m..][1..] == Sources(p, t)[m + 1..];
      SourceReads(p, fns, c, wires, k, j, m, refs[0], env, exact);
      RefsRead(p, fns, c, wires, k, j, refs[1..], m + 1, env, exact);
    }
  }

  /** The j-th assignment of stage k has a value, and the right one. */
  lemma AssignRuns(p: Plan, fns: seq<FpFn>, c: Cycle, wires: map<Sig, nat>, k: nat, j: nat, a: Assign,
                   env: map<string, nat>, exact: bool)
    requires Ready(p, fns) && 1 <= k <= p.sched.Stages() && j < |StageTemps(p, k)|
    requires Fed(p, fns, c, k, env, exact) && WiresOk(p, fns, wires, k, j, env, exact)
    requires env.Keys == ParamTypes(p.params).Keys
    requires var t := StageTemps(p, k)[j]; t.Temp? && Known(p, t) && IsAssign(p, t, k, a)
    ensures var t := StageTemps(p, k)[j];
            var v := RhsValue(p.dag, c, wires, a.rhs);
            v.Some? && (exact ==> v.value == KeyValue(p, fns, env, t))
  {
    hide IsLinearization, WithCallee, Resolves, StageTemps, EnvOf, Fed, WiresOk, ResolveRef, Meaning, ReadRefs, Eval;
    var t := StageTemps(p, k)[j];
    NodeInStore(p, t);
    var b := p.Order(t.ns)[t.id];
    OperandsBelow(p.dag[b].kind, b);
    OperandsBelow(p.dag[b].kind, |p.dag|);
    TempValue(p, fns, env, t);
    if p.dag[b].kind.Call? {
      SourceReads(p, fns, c, wires, k, j, 0, a.rhs.ref, env, exact);
    } else {
      RefsRead(p, fns, c, wires, k, j, a.rhs.refs, 0, env, exact);
      assert Sources(p, t)[0..] == Sources(p, t);
    }
  }

  /** A stage's block runs to the end: no assignment reads a name that is missing or not assigned yet. */
  lemma {:induction false} CombRuns(p: Plan, fns: seq<FpFn>, c: Cycle, k: nat, comb: seq<Assign>, j: nat,
                                    env: map<string, nat>, exact: bool)
    requires Ready(p, fns) && 1 <= k <= p.sched.Stages() && IsComb(p, k, comb) && j <= |comb|
    requires Fed(p, fns, c, k, env, exact) && env.Keys == ParamTypes(p.params).Keys
    ensures var r := RunComb(p.dag, c, comb[..j]);
            r.Some? && WiresOk(p, fns, r.value, k, j, env, exact)
    decreases j
  {
    hide IsLinearization, WithCallee, Resolves, StageTemps, Fed, KeyValue, RhsValue, IsAssign;
    if j > 0 {
      CombRuns(p, fns, c, k, comb, j - 1, env, exact);
      assert comb[..j][..j - 1] == comb[..j - 1];
      var wires := RunComb(p.dag, c, comb[..j - 1]).value;
      StageTempsKnown(p, k, j - 1);
      AssignRuns(p, fns, c, wires, k, j - 1, comb[j - 1], env, exact);
      AssignedDst(p, k, comb, j - 1);
      var v := RhsValue(p.dag, c, wires, comb[j - 1].rhs).value;
      WiresExtend(p, fns, wires, k, j, env, exact, v);
    }
  }

  lemma AssignedDst(p: Plan, k: nat, comb: seq<Assign>, i: nat)
    requires WfPlan(p) && 1 <= k <= p.sched.Stages() && IsComb(p, k, comb) && i < |comb|
    ensures var t := StageTemps(p, k)[i]; t.Temp? && comb[i].dst == Wire(k, t.ns, t.id)
  {
    hide IsLinearization, WithCallee, StageTemps;
    StageTempsKnown(p, k, i);
  }

  lemma WiresExtend(p: Plan, fns: seq<FpFn>, wires: map<Sig, nat>, k: nat, j: nat, env: map<string, nat>, exact: bool,
                    v: nat)
    requires Ready(p, fns) && 1 <= k <= p.sched.Stages() && 0 < j <= |StageTemps(p, k)|
    requires WiresOk(p, fns, wires, k, j - 1, env, exact)
    requires var t := StageTemps(p, k)[j - 1]; t.Temp? && Known(p, t) && (exact ==> v == KeyValue(p, fns, env, t))
    ensures var t := StageTemps(p, k)[j - 1]; WiresOk(p, fns, wires[Wire(k, t.ns, t.id) := v], k, j, env, exact)
  {
    hide IsLinearization, WithCallee, Resolves, StageTemps, KeyValue;
    var t := StageTemps(p, k)[j - 1];
    var w := wires[Wire(k, t.ns, t.id) := v];
    forall i | 0 <= i < j ensures WireOk(p, fns, w, StageTemps(p, k)[i], k, env, exact) {
      if i < j - 1 {
        assert WireOk(p, fns, wires, StageTemps(p, k)[i], k, env, exact);
      }
    }
  }

  // ---- The clock edge -----------------------------------------------------------------------------------

  ghost predicate RegOk(p: Plan, fns: seq<FpFn>, regs: map<Sig, nat>, r: Sig, env: map<string, nat>, exact: bool)
    requires Ready(p, fns)
  {
    r.Reg? && Known(p, r.key) && r in regs && (exact ==> regs[r] == KeyValue(p, fns, env, r.key))
  }

  /** Register layer k loads every carried value from stage k. */
  lemma {:induction false} LoadsRun(p: Plan, fns: seq<FpFn>, c: Cycle, wires: map<Sig, nat>, k: nat, loads: seq<Load>,
                                    next: map<Sig, nat>,
                                    env: map<string, nat>, exact: bool)
    requires Ready(p, fns) && 1 <= k <= p.sched.Stages()
    requires forall i :: 0 <= i < |loads| ==> IsLoad(p, k, loads[i])
    requires Fed(p, fns, c, k, env, exact) && WiresOk(p, fns, wires, k, |StageTemps(p, k)|, env, exact)
    ensures var r := RunLoads(c, wires, loads, next);
            r.Some?
            && (forall s :: s in next && !(s.Reg? && s.layer == k) ==> s in r.value && r.value[s] == next[s])
            && (forall i :: 0 <= i < |loads| ==> RegOk(p, fns, r.value, loads[i].dst, env, exact))
    decreases |loads|
  {
    hide IsLinearization, WithCallee, Resolves, StageTemps, Fed, KeyValue, WiresOk, SigAt, Carried, ReadSig;
    if loads != [] {
      var m := |loads| - 1;
      LoadsRun(p, fns, c, wires, k, loads[..m], next, env, exact);
      assert IsLoad(p, k, loads[m]);
      LoadReads(p, fns, c, wires, k, loads[m], env, exact);
      var prev := RunLoads(c, wires, loads[..m], next).value;
      var r := RunLoads(c, wires, loads, next).value;
      forall i | 0 <= i < |loads| ensures RegOk(p, fns, r, loads[i].dst, env, exact) {
        if i < m {
          assert loads[..m][i] == loads[i];
          assert RegOk(p, fns, prev, loads[i].dst, env, exact);
        }
      }
    }
  }

  lemma LoadReads(p: Plan, fns: seq<FpFn>, c: Cycle, wires: map<Sig, nat>, k: nat, l: Load, env: map<string, nat>,
                  exact: bool)
    requires Ready(p, fns) && 1 <= k <= p.sched.Stages() && IsLoad(p, k, l)
    requires Fed(p, fns, c, k, env, exact) && WiresOk(p, fns, wires, k, |StageTemps(p, k)|, env, exact)
    ensures l.dst.Reg? && l.dst.layer == k && Known(p, l.dst.key)
    ensures var v := ReadSig(c, wires, l.src); v.Some? && (exact ==> v.value == KeyValue(p, fns, env, l.dst.key))
  {
    hide IsLinearization, WithCallee, Resolves, StageTemps, Fed, KeyValue, WiresOk, SigAt, ReadIn;
    var key := l.dst.key;
    if Def(p, key) == k {
      var at := DefInStage(p, key);
    }
    if key.Input? {
      ParamNames(p.params, key.name);
    }
    SigReads(p, fns, c, wires, k, |StageTemps(p, k)|, key, env, exact);
  }

  /** The inputs whose values layer k (or stage k + 1) works on in cycle t. */
  function EnvAt(ins: seq<map<string, nat>>, t: nat, k: nat): map<string, nat>
    requires t < |ins| || (k > 0 && t <= |ins|)
    requires |ins| > 0
  {
    if t >= k then ins[t - k] else ins[0]
  }

  ghost predicate Driven(p: Plan, ins: seq<map<string, nat>>) {
    forall i :: 0 <= i < |ins| ==> ins[i].Keys == ParamTypes(p.params).Keys
  }

  /** Layers 1 .. n hold what they should in cycle t: layer k the values of the inputs k cycles ago. */
  ghost predicate LayersOk(p: Plan, fns: seq<FpFn>, ins: seq<map<string, nat>>, regs: map<Sig, nat>, t: nat, n: nat)
    requires Ready(p, fns) && |ins| > 0 && t <= |ins|
  {
    forall k :: 1 <= k <= n ==> LayerOkAt(p, fns, ins, regs, t, k)
  }

  ghost predicate LayerOkAt(p: Plan, fns: seq<FpFn>, ins: seq<map<string, nat>>, regs: map<Sig, nat>, t: nat, k: nat)
    requires Ready(p, fns) && |ins| > 0 && t <= |ins| && k > 0
  {
    LayerOk(p, fns, regs, k, EnvAt(ins, t, k), t >= k)
  }

  lemma CombLength(p: Plan, net: Netlist, n: nat)
    requires WfPlan(p) && IsNetlist(p, net) && 1 <= n <= p.sched.Stages()
    ensures IsComb(p, n, net.stages[n - 1].comb) && |net.stages[n - 1].comb| == |StageTemps(p, n)|
  {
    hide IsLinearization, WithCallee;
    assert IsComb(p, n - 1 + 1, net.stages[n - 1].comb);
  }

  lemma StageFed(p: Plan, fns: seq<FpFn>, ins: seq<map<string, nat>>, regs: map<Sig, nat>, t: nat, k: nat)
    requires Ready(p, fns) && t < |ins| && Driven(p, ins) && 1 <= k <= p.sched.Stages()
    requires LayersOk(p, fns, ins, regs, t, p.sched.Stages() - 1)
    ensures Fed(p, fns, Cycle(ins[t], regs), k, EnvAt(ins, t, k - 1), t >= k - 1)
  {
    hide WfPlan, Resolves, LayerOk;
    if k > 1 {
      assert LayerOkAt(p, fns, ins, regs, t, k - 1);
    }
  }

  lemma {:induction false} EdgeOk(p: Plan, fns: seq<FpFn>, net: Netlist, ins: seq<map<string, nat>>,
                                  regs: map<Sig, nat>, t: nat, n: nat)
    requires Ready(p, fns) && IsNetlist(p, net) && t < |ins| && Driven(p, ins) && n <= p.sched.Stages()
    requires LayersOk(p, fns, ins, regs, t, p.sched.Stages() - 1)
    ensures var r := Edge(p.dag, Cycle(ins[t], regs), net.stages[..n]);
            r.Some? && LayersOk(p, fns, ins, r.value, t + 1, if n < p.sched.Stages() then n else n - 1)
    decreases n
  {
    hide IsLinearization, WithCallee, Resolves, LayerOk, IsComb, IsLayer, RunComb, RunLoads, ResolveRef;
    if n > 0 {
      EdgeOk(p, fns, net, ins, regs, t, n - 1);
      assert net.stages[..n][..n - 1] == net.stages[..n - 1];
      var c := Cycle(ins[t], regs);
      var next := Edge(p.dag, c, net.stages[..n - 1]).value;
      var stage := net.stages[n - 1];
      StageFed(p, fns, ins, regs, t, n);
      CombLength(p, net, n);
      CombRuns(p, fns, c, n, stage.comb, |stage.comb|, EnvAt(ins, t, n - 1), t >= n - 1);
      assert stage.comb[..|stage.comb|] == stage.comb;
      StageEdge(p, fns, net, ins, regs, t, n, next);
    }
  }

  lemma StageEdge(p: Plan, fns: seq<FpFn>, net: Netlist, ins: seq<map<string, nat>>, regs: map<Sig, nat>, t: nat,
                  n: nat, next: map<Sig, nat>)
    requires Ready(p, fns) && IsNetlist(p, net) && t < |ins| && Driven(p, ins) && 1 <= n <= p.sched.Stages()
    requires Fed(p, fns, Cycle(ins[t], regs), n, EnvAt(ins, t, n - 1), t >= n - 1)
    requires var wires := RunComb(p.dag, Cycle(ins[t], regs), net.stages[n - 1].comb);
             wires.Some? && |net.stages[n - 1].comb| == |StageTemps(p, n)|
             && WiresOk(p, fns, wires.value, n, |StageTemps(p, n)|, EnvAt(ins, t, n - 1), t >= n - 1)
    requires LayersOk(p, fns, ins, next, t + 1, n - 1)
    ensures var wires := RunComb(p.dag, Cycle(ins[t], regs), net.stages[n - 1].comb).value;
            var r := RunLoads(Cycle(ins[t], regs), wires, net.stages[n - 1].loads, next);
            r.Some? && LayersOk(p, fns, ins, r.value, t + 1, if n < p.sched.Stages() then n else n - 1)
  {
    hide IsLinearization, WithCallee, Resolves, RunComb, RunLoads, ResolveRef, IsComb, Fed, WiresOk, KeyValue,
         StageTemps, Carried;
    var c := Cycle(ins[t], regs);
    var wires := RunComb(p.dag, c, net.stages[n - 1].comb).value;
    var loads := net.stages[n - 1].loads;
    if n == p.sched.Stages() {
      NoLoads(c, wires, next);
    } else {
      assert IsLayer(p, n, net.stages[n - 1].loads);
      var env, exact := EnvAt(ins, t, n - 1), t >= n - 1;
      LoadsRun(p, fns, c, wires, n, loads, next, env, exact);
      var r := RunLoads(c, wires, loads, next).value;
      assert EnvAt(ins, t + 1, n) == env || !exact;
      var t1 := t + 1;
      forall k | 1 <= k <= n ensures LayerOkAt(p, fns, ins, r, t1, k) {
        if k < n {
          assert LayerOkAt(p, fns, ins, next, t1, k);
        } else {
          LayerLoaded(p, fns, n, loads, r, env, exact);
        }
      }
    }
  }

  lemma NoLoads(c: Cycle, wires: map<Sig, nat>, next: map<Sig, nat>)
    ensures RunLoads(c, wires, [], next) == Some(next)
  {
  }

  lemma LayerLoaded(p: Plan, fns: seq<FpFn>, k: nat, loads: seq<Load>, regs: map<Sig, nat>, env: map<string, nat>,
                    exact: bool)
    requires Ready(p, fns) && 1 <= k && IsLayer(p, k, loads)
    requires forall i :: 0 <= i < |loads| ==> RegOk(p, fns, regs, loads[i].dst, env, exact)
    ensures LayerOk(p, fns, regs, k, env, exact)
  {
    hide WfPlan, Resolves, KeyValue, IsLoad, Carried;
    forall key | Carried(p, key, k)
      ensures Reg(k, key) in regs && (exact ==> RegOk(p, fns, regs, Reg(k, key), env, exact))
    {
      var i :| 0 <= i < |loads| && loads[i].dst == Reg(k, key);
      assert RegOk(p, fns, regs, loads[i].dst, env, exact);
    }
  }

  /** Every register the netlist loads exists at power-up, with whatever contents. */
  ghost predicate PoweredUp(net: Netlist, init: map<Sig, nat>) {
    forall i, j :: 0 <= i < |net.stages| && 0 <= j < |net.stages[i].loads| ==> net.stages[i].loads[j].dst in init
  }

  lemma {:induction false} RunOk(p: Plan, fns: seq<FpFn>, net: Netlist, ins: seq<map<string, nat>>,
                                 init: map<Sig, nat>, t: nat)
    requires Ready(p, fns) && IsNetlist(p, net) && 0 < |ins| && t <= |ins| && Driven(p, ins) && PoweredUp(net, init)
    ensures var regs := RegsAt(p.dag, net, ins, init, t);
            regs.Some? && LayersOk(p, fns, ins, regs.value, t, p.sched.Stages() - 1)
    decreases t
  {
    hide IsLinearization, WithCallee, Resolves, IsComb, IsLoad, Edge, KeyValue, ResolveRef, Carried;
    if t == 0 {
      forall k | 1 <= k < p.sched.Stages() ensures LayerOkAt(p, fns, ins, init, 0, k) {
        assert IsLayer(p, k - 1 + 1, net.stages[k - 1].loads);
      }
    } else {
      RunOk(p, fns, net, ins, init, t - 1);
      EdgeOk(p, fns, net, ins, RegsAt(p.dag, net, ins, init, t - 1).value, t - 1, p.sched.Stages());
      assert net.stages[..p.sched.Stages()] == net.stages;
    }
  }

  /** Pipelining preserves meaning. On every run with a new input each cycle and any power-up contents, the
      output is defined in every cycle, and from cycle stages - 1 on it is the interpreter's value of the
      staged function (its nested call inlined) on the inputs of stages - 1 cycles ago. */
  lemma PipelinePreservesMeaning(p: Plan, fns: seq<FpFn>, net: Netlist, ins: seq<map<string, nat>>,
                                 init: map<Sig, nat>, t: nat)
    requires Ready(p, fns) && IsNetlist(p, net) && t < |ins| && Driven(p, ins) && PoweredUp(net, init)
    ensures net.stages != [] && OutAt(p.dag, net, ins, init, t).Some?
    ensures var delay := p.sched.Stages() - 1;
            t >= delay ==> OutAt(p.dag, net, ins, init, t) == Eval(p.dag, fns, ins[t - delay], p.body, 0)
  {
    hide IsLinearization, WithCallee, Resolves, IsComb, IsLayer, KeyValue, ResolveRef, Eval, Fed, WiresOk;
    RunOk(p, fns, net, ins, init, t);
    var n := p.sched.Stages();
    var regs := RegsAt(p.dag, net, ins, init, t).value;
    var c := Cycle(ins[t], regs);
    StageFed(p, fns, ins, regs, t, n);
    var comb := net.stages[n - 1].comb;
    var env, exact := EnvAt(ins, t, n - 1), t >= n - 1;
    CombLength(p, net, n);
    CombRuns(p, fns, c, n, comb, |comb|, env, exact);
    assert comb[..|comb|] == comb;
    var wires := RunComb(p.dag, c, comb).value;
    OutputReads(p, fns, net, c, wires, env, exact);
    if exact {
      ResolvedEvaluates(p.dag, fns, env, p.body, 0);
    }
  }

  lemma OutputReads(p: Plan, fns: seq<FpFn>, net: Netlist, c: Cycle, wires: map<Sig, nat>, env: map<string, nat>,
                    exact: bool)
    requires Ready(p, fns) && IsNetlist(p, net) && env.Keys == ParamTypes(p.params).Keys
    requires var n := p.sched.Stages(); Fed(p, fns, c, n, env, exact) && WiresOk(p, fns, wires, n, |StageTemps(p, n)|, env, exact)
    ensures var v := ReadRef(c, wires, net.y); v.Some? && (exact ==> v.value == Value(p.dag, fns, env, p.body, 0))
  {
    hide IsLinearization, WithCallee, Resolves, IsComb, IsLayer, KeyValue, ResolveRef, Fed, WiresOk, Value,
         StageTemps, Locate, LiveAfter;
    var n := p.sched.Stages();
    forall key | Locate(p, p.body, Main) == Ok(Of(key)) ensures ReadableAt(p, key, n, |StageTemps(p, n)|) {
      ReadNow(p, key, n);
      if Known(p, key) && Def(p, key) == n {
        var at := DefInStage(p, key);
      }
    }
    OperandReads(p, fns, c, wires, n, |StageTemps(p, n)|, p.body, Main, net.y, env, exact);
  }
}
