/** The two passes of the staged renderer: liveness first, then combinational blocks and register layers;
    and exactly which functions and schedules it accepts. */
module StagedEmit {
  import opened BitVec
  import opened Wrappers
  import opened FpIr
  import opened FpEval
  import opened Linearize
  import opened StagedPlan
  import opened StagedRender

  // ---- Liveness --------------------------------------------------------------------------------------

  ghost predicate TempReadIn(p: Plan, key: Key, k: nat, n: nat)
    requires WfPlan(p) && 1 <= k <= p.sched.Stages() && n <= |StageTemps(p, k)|
  {
    exists i :: 0 <= i < n && StageReads(p, k, i, key)
  }

  ghost predicate StageReads(p: Plan, k: nat, i: nat, key: Key)
    requires WfPlan(p) && 1 <= k <= p.sched.Stages() && i < |StageTemps(p, k)|
  {
    StageTempsKnown(p, k, i);
    Reads(p, StageTemps(p, k)[i], key)
  }

  /** Value `key` is read in stage j by an assignment before position n of stage k. */
  ghost predicate ReadBy(p: Plan, key: Key, j: nat, k: nat, n: nat)
    requires WfPlan(p) && 1 <= k <= p.sched.Stages() && n <= |StageTemps(p, k)|
  {
    1 <= j <= k && TempReadIn(p, key, j, if j < k then |StageTemps(p, j)| else n)
  }

  ghost predicate UsesUpTo(p: Plan, uses: map<Key, nat>, k: nat, n: nat)
    requires WfPlan(p) && 1 <= k <= p.sched.Stages() && n <= |StageTemps(p, k)|
  {
    forall key ::
      (LastUse(uses, key) > 0 ==> ReadBy(p, key, LastUse(uses, key), k, n))
      && forall j: nat :: ReadBy(p, key, j, k, n) ==> j <= LastUse(uses, key)
  }

  /** Every recorded stage is the last one that reads the value. */
  ghost predicate UsesFinal(p: Plan, uses: map<Key, nat>)
    requires WfPlan(p)
  {
    forall key ::
      (LastUse(uses, key) > 0 ==> LastUse(uses, key) <= p.sched.Stages() && ReadIn(p, key, LastUse(uses, key)))
      && forall j: nat :: 1 <= j <= p.sched.Stages() && ReadIn(p, key, j) ==> j <= LastUse(uses, key)
  }

  lemma UsesStep(p: Plan, before: map<Key, nat>, after: map<Key, nat>, k: nat, n: nat)
    requires WfPlan(p) && 1 <= k <= p.sched.Stages() && n < |StageTemps(p, k)|
    requires UsesUpTo(p, before, k, n)
    requires var t := StageTemps(p, k)[n]; t.Temp? && Known(p, t) && Recorded(before, after, TempReads(p, t), k)
    ensures UsesUpTo(p, after, k, n + 1)
  {
    hide WfPlan, Reads, StageTemps, LastUse;
    PlanShape(p);
    var t, n1 := StageTemps(p, k)[n], n + 1;
    forall key
      ensures LastUse(after, key) > 0 ==> ReadBy(p, key, LastUse(after, key), k, n1)
      ensures forall j: nat :: ReadBy(p, key, j, k, n1) ==> j <= LastUse(after, key)
    {
      assert key in TempReads(p, t) <==> StageReads(p, k, n, key);
      forall j: nat
        ensures ReadBy(p, key, j, k, n1) <==> ReadBy(p, key, j, k, n) || (j == k && StageReads(p, k, n, key))
      {
        ReadByMore(p, key, j, k, n);
      }
    }
  }

  lemma ReadByMore(p: Plan, key: Key, j: nat, k: nat, n: nat)
    requires WfPlan(p) && 1 <= k <= p.sched.Stages() && n < |StageTemps(p, k)|
    ensures ReadBy(p, key, j, k, n + 1) <==> ReadBy(p, key, j, k, n) || (j == k && StageReads(p, k, n, key))
  {
    hide WfPlan, StageReads, StageTemps;
    PlanShape(p);
  }

  /** Nothing is read between the end of one stage and the start of the next. */
  lemma UsesNextStage(p: Plan, uses: map<Key, nat>, k: nat)
    requires WfPlan(p) && 1 <= k < p.sched.Stages() && UsesUpTo(p, uses, k, |StageTemps(p, k)|)
    ensures UsesUpTo(p, uses, k + 1, 0)
  {
    hide WfPlan, StageReads, StageTemps, LastUse;
    PlanShape(p);
    var k1 := k + 1;
    forall key
      ensures LastUse(uses, key) > 0 ==> ReadBy(p, key, LastUse(uses, key), k1, 0)
      ensures forall j: nat :: ReadBy(p, key, j, k1, 0) ==> j <= LastUse(uses, key)
    {
      forall j: nat ensures ReadBy(p, key, j, k1, 0) <==> ReadBy(p, key, j, k, |StageTemps(p, k)|) {
        ReadByNext(p, key, j, k);
      }
    }
  }

  lemma ReadByNext(p: Plan, key: Key, j: nat, k: nat)
    requires WfPlan(p) && 1 <= k < p.sched.Stages()
    ensures ReadBy(p, key, j, k + 1, 0) <==> ReadBy(p, key, j, k, |StageTemps(p, k)|)
  {
    hide WfPlan, StageReads, StageTemps;
    PlanShape(p);
  }

  lemma ReadInIs(p: Plan, key: Key, k: nat)
    requires WfPlan(p) && 1 <= k <= p.sched.Stages()
    ensures ReadIn(p, key, k) <==>
            TempReadIn(p, key, k, |StageTemps(p, k)|) || (k == p.sched.Stages() && Locate(p, p.body, Main) == Ok(Of(key)))
  {
    hide WfPlan, Reads, StageTemps, Locate;
    PlanShape(p);
    var s := StageTemps(p, k);
    if TempReadIn(p, key, k, |s|) {
      var i :| 0 <= i < |s| && StageReads(p, k, i, key);
      assert s[i] in s;
      StageTempsKnown(p, k, i);
    }
    if t :| t in s && t.Temp? && Known(p, t) && Reads(p, t, key) {
      var i :| 0 <= i < |s| && s[i] == t;
      assert StageReads(p, k, i, key);
    }
  }

  /** Recording the output's read completes the liveness pass. */
  lemma UsesDone(p: Plan, before: map<Key, nat>, after: map<Key, nat>)
    requires WfPlan(p)
    requires UsesUpTo(p, before, p.sched.Stages(), |StageTemps(p, p.sched.Stages())|)
    requires Recorded(before, after, OperandKeys(p, p.body, Main), p.sched.Stages())
    ensures UsesFinal(p, after)
  {
    hide WfPlan, StageTemps, LastUse, ReadIn, TempReadIn, Locate;
    PlanShape(p);
    var n: nat := p.sched.Stages();
    forall key
      ensures LastUse(after, key) > 0 ==> LastUse(after, key) <= n && ReadIn(p, key, LastUse(after, key))
      ensures forall j: nat :: 1 <= j <= n && ReadIn(p, key, j) ==> j <= LastUse(after, key)
    {
      forall j: nat | 1 <= j <= n
        ensures ReadIn(p, key, j) <==> ReadBy(p, key, j, n, |StageTemps(p, n)|) || (j == n && key in OperandKeys(p, p.body, Main))
      {
        ReadInIs(p, key, j);
      }
    }
  }

  lemma LiveIsRecorded(p: Plan, uses: map<Key, nat>, key: Key, k: nat)
    requires WfPlan(p) && UsesFinal(p, uses)
    ensures LiveAfter(p, key, k) <==> LastUse(uses, key) > k
  {
    hide WfPlan, ReadIn, LastUse;
    PlanShape(p);
    if LastUse(uses, key) > k {
      assert ReadIn(p, key, LastUse(uses, key));
    }
  }

  /** The second pass re-records reads the first has already seen. */
  lemma ReRecorded(p: Plan, before: map<Key, nat>, after: map<Key, nat>, keys: iset<Key>, k: nat)
    requires WfPlan(p) && UsesFinal(p, before) && Recorded(before, after, keys, k)
    requires 1 <= k <= p.sched.Stages() && forall key :: key in keys ==> ReadIn(p, key, k)
    ensures UsesFinal(p, after)
  {
    hide WfPlan, ReadIn, LastUse;
    PlanShape(p);
    forall key ensures LastUse(after, key) == LastUse(before, key) {
    }
  }

  lemma TempReadsAreReadIn(p: Plan, k: nat, i: nat)
    requires WfPlan(p) && 1 <= k <= p.sched.Stages() && i < |StageTemps(p, k)|
    requires var t := StageTemps(p, k)[i]; t.Temp? && Known(p, t)
    ensures forall key :: key in TempReads(p, StageTemps(p, k)[i]) ==> ReadIn(p, key, k)
  {
    hide WfPlan, Reads, StageTemps;
    PlanShape(p);
    assert StageTemps(p, k)[i] in StageTemps(p, k);
  }

  // ---- The passes ----------------------------------------------------------------------------------------

  /** Pass 1: resolve every right-hand side and the output, keeping only the liveness record. */
  method Liveness(ctx: StagedCtx) returns (r: Result<Ref>)
    requires WfPlan(ctx.plan) && ctx.uses == map[]
    modifies ctx`uses
    ensures r.Ok? <==> Accepts(ctx.plan)
    ensures r.Ok? ==> UsesFinal(ctx.plan, ctx.uses)
  {
    hide WfPlan, ResolveRef, Locate, StageTemps, TempResolves, Reads, Sourced, LastUse;
    var p := ctx.plan;
    PlanShape(p);
    var stages := p.sched.Stages();
    EmptyUses(p);
    for k := 1 to stages + 1
      invariant k <= stages ==> UsesUpTo(p, ctx.uses, k, 0)
      invariant k == stages + 1 ==> UsesUpTo(p, ctx.uses, stages, |StageTemps(p, stages)|)
      invariant forall j :: 1 <= j < k ==> StageResolves(p, j)
    {
      PlanShape(p);
      var temps := StageTemps(p, k);
      for i := 0 to |temps|
        invariant UsesUpTo(p, ctx.uses, k, i)
        invariant forall j :: 0 <= j < i ==> TempResolves(p, temps[j], k) && SourcedAt(p, k, j)
      {
        StageTempsKnown(p, k, i);
        ghost var before := ctx.uses;
        var res := ctx.Rhs(temps[i], k);
        if res.Err? {
          NotAccepted(p, k, i);
          return Err(res.reason);
        }
        UsesStep(p, before, ctx.uses, k, i);
      }
      assert StageResolves(p, k);
      if k < stages {
        UsesNextStage(p, ctx.uses, k);
      }
    }
    ghost var before := ctx.uses;
    r := ctx.Resolve(p.body, Main, stages);
    if r.Ok? {
      UsesDone(p, before, ctx.uses);
      AcceptsByStage(p);
    }
  }

  ghost predicate SourcedAt(p: Plan, k: nat, i: nat)
    requires WfPlan(p) && 1 <= k <= p.sched.Stages() && i < |StageTemps(p, k)|
  {
    StageTempsKnown(p, k, i);
    Sourced(p, StageTemps(p, k)[i])
  }

  ghost predicate StageResolves(p: Plan, k: nat)
    requires WfPlan(p) && 1 <= k <= p.sched.Stages()
  {
    forall i :: 0 <= i < |StageTemps(p, k)| ==> TempResolves(p, StageTemps(p, k)[i], k) && SourcedAt(p, k, i)
  }

  lemma EmptyUses(p: Plan)
    requires WfPlan(p)
    ensures UsesUpTo(p, map[], 1, 0)
  {
    hide WfPlan, StageTemps, StageReads;
    PlanShape(p);
  }

  lemma NotAccepted(p: Plan, k: nat, i: nat)
    requires WfPlan(p) && 1 <= k <= p.sched.Stages() && i < |StageTemps(p, k)|
    requires var t := StageTemps(p, k)[i]; t.Temp? && Known(p, t) && !(TempResolves(p, t, k) && Sourced(p, t))
    ensures !Accepts(p)
  {
    hide IsLinearization, StageTemps, TempResolves, ResolveRef;
    NodeInStore(p, StageTemps(p, k)[i]);
  }

  lemma AcceptsByStage(p: Plan)
    requires WfPlan(p) && forall k :: 1 <= k <= p.sched.Stages() ==> StageResolves(p, k)
    requires ResolveRef(p, p.body, Main, p.sched.Stages()).Ok?
    ensures Accepts(p)
  {
    hide IsLinearization, StageTemps, TempResolves, ResolveRef;
    if p.callee.Some? {
      var t := Temp(Main, p.callId);
      var i := DefInStage(p, t);
      assert StageResolves(p, Def(p, t));
      assert SourcedAt(p, Def(p, t), i);
    }
    forall k, i | 1 <= k <= p.sched.Stages() && 0 <= i < |StageTemps(p, k)| ensures TempResolves(p, StageTemps(p, k)[i], k) {
      assert StageResolves(p, k);
    }
  }

  /** Emits stage k's combinational block. */
  method Comb(ctx: StagedCtx, k: nat) returns (comb: seq<Assign>)
    requires WfPlan(ctx.plan) && Accepts(ctx.plan) && UsesFinal(ctx.plan, ctx.uses) && 1 <= k <= ctx.plan.sched.Stages()
    modifies ctx`uses
    ensures IsComb(ctx.plan, k, comb) && UsesFinal(ctx.plan, ctx.uses)
  {
    hide WfPlan, ResolveRef, Locate, StageTemps, TempResolves, Reads, LastUse, IsAssign, ReadIn;
    var p := ctx.plan;
    PlanShape(p);
    var temps := StageTemps(p, k);
    comb := [];
    for i := 0 to |temps|
      invariant UsesFinal(p, ctx.uses)
      invariant |comb| == i
      invariant forall j :: 0 <= j < i ==> AssignedAt(p, k, j, comb[j])
    {
      StageTempsKnown(p, k, i);
      ghost var before := ctx.uses;
      assert TempResolves(p, StageTemps(p, k)[i], k);
      AcceptedIsSourced(p, temps[i]);
      var rhs := ctx.Rhs(temps[i], k);
      TempReadsAreReadIn(p, k, i);
      ReRecorded(p, before, ctx.uses, TempReads(p, temps[i]), k);
      comb := comb + [Assign(Wire(k, temps[i].ns, temps[i].id), rhs.value)];
    }
    forall i | 0 <= i < |comb| ensures (StageTempsKnown(p, k, i); IsAssign(p, StageTemps(p, k)[i], k, comb[i])) {
      StageTempsKnown(p, k, i);
      assert AssignedAt(p, k, i, comb[i]);
    }
  }

  ghost predicate AssignedAt(p: Plan, k: nat, i: nat, a: Assign)
    requires WfPlan(p) && 1 <= k <= p.sched.Stages() && i < |StageTemps(p, k)|
  {
    StageTempsKnown(p, k, i);
    IsAssign(p, StageTemps(p, k)[i], k, a)
  }

  lemma AcceptedIsSourced(p: Plan, t: Key)
    requires WfPlan(p) && Accepts(p) && t.Temp? && Known(p, t)
    ensures Sourced(p, t)
  {
    hide IsLinearization, StageTemps, TempResolves, ResolveRef;
    NodeInStore(p, t);
  }

  ghost predicate HasLoad(loads: seq<Load>, r: Sig) { exists i :: 0 <= i < |loads| && loads[i].dst == r }

  lemma HasMore(loads: seq<Load>, l: Load)
    ensures forall r :: HasLoad(loads, r) ==> HasLoad(loads + [l], r)
    ensures HasLoad(loads + [l], l.dst)
  {
    forall r | HasLoad(loads, r) ensures HasLoad(loads + [l], r) {
      var i :| 0 <= i < |loads| && loads[i].dst == r;
      assert (loads + [l])[i].dst == r;
    }
    assert (loads + [l])[|loads|] == l;
  }

  ghost predicate AllLoads(p: Plan, k: nat, loads: seq<Load>)
    requires WfPlan(p) && k >= 1
  {
    forall i :: 0 <= i < |loads| ==> IsLoad(p, k, loads[i])
  }

  /** Emits register layer k: inputs in parameter order, then main and callee temporaries. */
  method Layer(ctx: StagedCtx, k: nat) returns (loads: seq<Load>)
    requires WfPlan(ctx.plan) && UsesFinal(ctx.plan, ctx.uses) && 1 <= k < ctx.plan.sched.Stages()
    ensures IsLayer(ctx.plan, k, loads)
  {
    hide WfPlan, LastUse, ReadIn, UsesFinal, IsLoad, Carried, HasLoad;
    var p := ctx.plan;
    PlanShape(p);
    loads := [];
    for i := 0 to |p.params|
      invariant AllLoads(p, k, loads)
      invariant forall j :: 0 <= j < i && Carried(p, Input(p.params[j].0), k) ==> HasLoad(loads, Reg(k, Input(p.params[j].0)))
    {
      var key := Input(p.params[i].0);
      CarriedIs(p, ctx.uses, key, k);
      if LastUse(ctx.uses, key) > k {
        assert Carried(p, key, k) by {
          assert p.params[i].0 == key.name;
        }
        var l := Load(Reg(k, key), SigAt(p, key, k));
        assert IsLoad(p, k, l) by { LoadIs(p, k, l); }
        HasMore(loads, l);
        loads := loads + [l];
      }
    }
    loads := LayerTemps(ctx, k, Main, loads);
    loads := LayerTemps(ctx, k, Callee, loads);
    LayerComplete(p, k, loads);
  }

  method LayerTemps(ctx: StagedCtx, k: nat, ns: Ns, loads0: seq<Load>) returns (loads: seq<Load>)
    requires WfPlan(ctx.plan) && UsesFinal(ctx.plan, ctx.uses) && 1 <= k < ctx.plan.sched.Stages()
    requires AllLoads(ctx.plan, k, loads0)
    ensures AllLoads(ctx.plan, k, loads)
    ensures forall r :: HasLoad(loads0, r) ==> HasLoad(loads, r)
    ensures forall id :: Carried(ctx.plan, Temp(ns, id), k) ==> HasLoad(loads, Reg(k, Temp(ns, id)))
  {
    hide WfPlan, LastUse, ReadIn, UsesFinal, IsLoad, HasLoad, LiveAfter;
    var p := ctx.plan;
    PlanShape(p);
    loads := loads0;
    for id := 0 to |p.Order(ns)|
      invariant AllLoads(p, k, loads)
      invariant forall r :: HasLoad(loads0, r) ==> HasLoad(loads, r)
      invariant forall j :: 0 <= j < id && Carried(p, Temp(ns, j), k) ==> HasLoad(loads, Reg(k, Temp(ns, j)))
    {
      var key := Temp(ns, id);
      CarriedIs(p, ctx.uses, key, k);
      var d := Def(p, key);
      if d <= k && LastUse(ctx.uses, key) > k {
        var l := Load(Reg(k, key), SigAt(p, key, k));
        assert IsLoad(p, k, l) by { LoadIs(p, k, l); }
        HasMore(loads, l);
        loads := loads + [l];
      }
    }
  }

  lemma LoadIs(p: Plan, k: nat, l: Load)
    requires WfPlan(p) && k >= 1
    requires l.dst.Reg? && l.dst.layer == k && Carried(p, l.dst.key, k)
    requires Known(p, l.dst.key) && (PlanShape(p); l.src == SigAt(p, l.dst.key, k))
    ensures IsLoad(p, k, l)
  {
    hide WfPlan, Carried;
    PlanShape(p);
  }

  lemma CarriedIs(p: Plan, uses: map<Key, nat>, key: Key, k: nat)
    requires WfPlan(p) && UsesFinal(p, uses) && Known(p, key)
    ensures (PlanShape(p); Carried(p, key, k) <==>
            Def(p, key) <= k && LastUse(uses, key) > k
            && (key.Input? ==> exists i :: 0 <= i < |p.params| && p.params[i].0 == key.name))
  {
    hide WfPlan, UsesFinal, LastUse, LiveAfter;
    PlanShape(p);
    LiveIsRecorded(p, uses, key, k);
  }

  lemma LayerComplete(p: Plan, k: nat, loads: seq<Load>)
    requires WfPlan(p) && k >= 1 && AllLoads(p, k, loads)
    requires forall j :: 0 <= j < |p.params| && Carried(p, Input(p.params[j].0), k) ==> HasLoad(loads, Reg(k, Input(p.params[j].0)))
    requires forall id :: Carried(p, Temp(Main, id), k) ==> HasLoad(loads, Reg(k, Temp(Main, id)))
    requires forall id :: Carried(p, Temp(Callee, id), k) ==> HasLoad(loads, Reg(k, Temp(Callee, id)))
    ensures IsLayer(p, k, loads)
  {
    hide WfPlan, LiveAfter, IsLoad;
    PlanShape(p);
    forall key | Carried(p, key, k) ensures HasLoad(loads, Reg(k, key)) {
      if key.Input? {
        var i :| 0 <= i < |p.params| && p.params[i].0 == key.name;
        assert key == Input(p.params[i].0);
      } else {
        assert key == Temp(key.ns, key.id);
      }
    }
  }

  /** Renders an accepted plan. */
  method Emit(p: Plan) returns (r: Result<Netlist>)
    requires WfPlan(p)
    ensures r.Ok? <==> Accepts(p)
    ensures r.Ok? ==> IsNetlist(p, r.value)
  {
    hide WfPlan, ResolveRef, UsesFinal, IsComb, IsLayer, Accepts;
    var ctx := new StagedCtx(p);
    var live := Liveness(ctx);
    if live.Err? {
      return Err(live.reason);
    }
    PlanShape(p);
    var n := p.sched.Stages();
    var stages: seq<Stage> := [];
    for i := 0 to n
      invariant ctx.plan == p && UsesFinal(p, ctx.uses) && |stages| == i
      invariant forall j :: 0 <= j < i ==> IsComb(p, j + 1, stages[j].comb)
      invariant forall j :: 0 <= j < i && j < n - 1 ==> IsLayer(p, j + 1, stages[j].loads)
      invariant i == n ==> stages[n - 1].loads == []
    {
      var comb := Comb(ctx, i + 1);
      var loads: seq<Load> := [];
      if i + 1 < n {
        loads := Layer(ctx, i + 1);
      }
      stages := stages + [Stage(comb, loads)];
    }
    OutputResolves(p);
    var y := ctx.Resolve(p.body, Main, n);
    r := Ok(Netlist(stages, y.value));
  }

  lemma OutputResolves(p: Plan)
    requires WfPlan(p) && Accepts(p)
    ensures ResolveRef(p, p.body, Main, p.sched.Stages()).Ok?
  {
    hide WfPlan, ResolveRef, TempResolves;
    PlanShape(p);
  }
}
