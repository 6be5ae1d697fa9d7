/** The staged compilation end to end: structural checks, both rendering passes, and the clocked run of what they emit. */
module StagedCompile {
  import opened BitVec
  import opened Wrappers
  import opened FpIr
  import opened FpEval
  import opened Linearize
  import opened StagedPlan
  import opened StagedCorrect
  import opened StagedRun
  import opened StagedTop
  import opened LeafSchedule

  /** The function store a rendering is for: every operand of `main` resolves in it, and the callee's name finds the
      callee, whose parameters have different names. */
  ghost predicate Linked(dag: Dag, main: FpFn, callee: Option<FpFn>, sched: Schedule, fns: seq<FpFn>)
    requires InStore(dag, main, callee)
  {
    WfFns(dag, fns) && Resolves(dag, fns, ParamTypes(main.params).Keys, main.body, 0)
    && (callee.Some? ==> Find(fns, sched.callee) == callee && DistinctNames(callee.value.params))
  }

  /** In cycle t the output is defined, and once the pipeline is full it is the interpreter's value of `main` on the
      inputs of `delay` cycles ago. */
  ghost predicate OutputAt(dag: Dag, main: FpFn, fns: seq<FpFn>, net: Netlist, delay: nat, ins: seq<map<string, nat>>,
                           init: map<Sig, nat>, t: nat)
    requires Acyclic(dag) && main.body < |dag| && WfFns(dag, fns) && net.stages != [] && t < |ins|
  {
    OutAt(dag, net, ins, init, t).Some?
    && (t >= delay ==> OutAt(dag, net, ins, init, t) == Eval(dag, fns, ins[t - delay], main.body, 0))
  }

  /** A run of t + 1 cycles or more that gives every parameter a value in every cycle, from any power-up contents. */
  ghost predicate LegalRun(main: FpFn, net: Netlist, ins: seq<map<string, nat>>, init: map<Sig, nat>, t: nat) {
    t < |ins| && (forall i :: 0 <= i < |ins| ==> ins[i].Keys == ParamTypes(main.params).Keys) && PoweredUp(net, init)
  }

  /** The netlist is the pipelined `main`: on every run, with a new input in every cycle and any power-up contents. */
  ghost predicate Pipelines(dag: Dag, main: FpFn, fns: seq<FpFn>, net: Netlist, delay: nat)
    requires Acyclic(dag) && main.body < |dag| && WfFns(dag, fns)
  {
    net.stages != []
    && forall ins: seq<map<string, nat>>, init, t: nat ::
         LegalRun(main, net, ins, init, t) ==> OutputAt(dag, main, fns, net, delay, ins, init, t)
  }

  lemma NetlistPipelines(dag: Dag, main: FpFn, callee: Option<FpFn>, sched: Schedule, fns: seq<FpFn>, net: Netlist)
    requires InStore(dag, main, callee) && WfSchedule(sched) && Linked(dag, main, callee, sched, fns)
    requires var p := PlanOf(dag, main, callee, sched); WfPlan(p) && IsNetlist(p, net)
    ensures Pipelines(dag, main, fns, net, sched.Stages() - 1)
  {
    hide WfPlan, IsNetlist, Resolves, Eval, OutAt, Visit;
    var p := PlanOf(dag, main, callee, sched);
    assert Ready(p, fns);
    NotEmpty(p, net);
    forall ins: seq<map<string, nat>>, init, t: nat | LegalRun(main, net, ins, init, t)
      ensures OutputAt(dag, main, fns, net, sched.Stages() - 1, ins, init, t)
    {
      PipelinePreservesMeaning(p, fns, net, ins, init, t);
    }
  }

  lemma NotEmpty(p: Plan, net: Netlist)
    requires WfPlan(p) && IsNetlist(p, net)
    ensures net.stages != []
  {
    hide IsLinearization, IsComb, IsLayer;
  }

  /** Whatever the renderer accepts computes its function, pipelined; it accepts exactly the well-formed plans whose
      operands are all defined by the stages that read them. */
  method CompileStaged(dag: Dag, main: FpFn, callee: Option<FpFn>, sched: Schedule) returns (r: Result<Netlist>)
    requires InStore(dag, main, callee) && WfSchedule(sched)
    ensures r.Ok? <==> WfPlan(PlanOf(dag, main, callee, sched)) && Accepts(PlanOf(dag, main, callee, sched))
    ensures r.Ok? ==> forall fns :: Linked(dag, main, callee, sched, fns) ==>
                                      Pipelines(dag, main, fns, r.value, sched.Stages() - 1)
  {
    hide WfPlan, Accepts, IsNetlist, Pipelines, Visit, Calls, PlanOf;
    r := RenderStaged(dag, main, callee, sched);
    if r.Ok? {
      forall fns | Linked(dag, main, callee, sched, fns) ensures Pipelines(dag, main, fns, r.value, sched.Stages() - 1) {
        NetlistPipelines(dag, main, callee, sched, fns, r.value);
      }
    }
  }

  /** A function that makes no call, cut into any number of stages up to the number of its temporaries, is accepted
      and pipelined; nothing else is. */
  method CompileLeaf(dag: Dag, f: FpFn, stages: nat) returns (r: Result<Netlist>)
    requires Acyclic(dag) && f.body < |dag|
    ensures var order := Visit(dag, f.body, []);
            r.Ok? <==> stages >= 1 && NoCalls(dag, order) && stages <= |order|
    ensures r.Ok? ==> forall fns :: WfFns(dag, fns) && Resolves(dag, fns, ParamTypes(f.params).Keys, f.body, 0) ==>
                                      Pipelines(dag, f, fns, r.value, stages - 1)
  {
    hide WfPlan, Accepts, IsNetlist, Pipelines, Visit, Calls, PlanOf, Balanced, Resolves, StrictCuts;
    var starts := DeriveLeafSchedule(dag, f, stages);
    match starts {
      case Err(message) =>
        r := Err(message);
      case Ok(cuts) =>
        LeafScheduleAccepted(dag, f, stages, cuts);
        LeafCuts(stages, cuts, |Visit(dag, f.body, [])|);
        var sched := Schedule("", cuts, Zeros(stages + 1));
        r := CompileStaged(dag, f, None, sched);
        assert forall fns :: WfFns(dag, fns) && Resolves(dag, fns, ParamTypes(f.params).Keys, f.body, 0)
                             ==> Linked(dag, f, None, sched, fns);
    }
  }

  lemma LeafCuts(stages: nat, cuts: seq<nat>, n: nat)
    requires stages >= 1 && StrictCuts(cuts, stages, n)
    ensures WfSchedule(Schedule("", cuts, Zeros(stages + 1))) && Schedule("", cuts, Zeros(stages + 1)).Stages() == stages
  {
  }
}
