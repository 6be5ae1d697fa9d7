/** Staged rendering from functions to netlist: the structural checks, and exactly when they pass. */
module StagedTop {
  import opened BitVec
  import opened Wrappers
  import opened FpIr
  import opened FpEval
  import opened Linearize
  import opened StagedPlan
  import opened StagedRender
  import opened StagedEmit

  /** The temporaries that are calls, ascending. */
  function Calls(dag: Dag, order: seq<nat>): (s: seq<nat>)
    ensures forall i: nat :: i in s <==> i < |order| && order[i] < |dag| && dag[order[i]].kind.Call?
    ensures forall i, j :: 0 <= i < j < |s| ==> s[i] < s[j]
  {
    CallsUpTo(dag, order, |order|)
  }

  function CallsUpTo(dag: Dag, order: seq<nat>, n: nat): (s: seq<nat>)
    requires n <= |order|
    ensures forall i :: 0 <= i < |s| ==> s[i] < n
    ensures forall i: nat :: i in s <==> i < n && order[i] < |dag| && dag[order[i]].kind.Call?
    ensures forall i, j :: 0 <= i < j < |s| ==> s[i] < s[j]
  {
    if n == 0 then []
    else
      var s := CallsUpTo(dag, order, n - 1);
      if order[n - 1] < |dag| && dag[order[n - 1]].kind.Call? then
        var r := s + [n - 1];
        assert forall i: nat :: i in r <==> i in s || i == n - 1;
        r
      else s
  }

  ghost predicate InStore(dag: Dag, main: FpFn, callee: Option<FpFn>) {
    Acyclic(dag) && main.body < |dag| && (callee.Some? ==> callee.value.body < |dag|)
  }

  /** The plan a rendering works on. */
  ghost function PlanOf(dag: Dag, main: FpFn, callee: Option<FpFn>, sched: Schedule): Plan
    requires InStore(dag, main, callee)
  {
    var linM := Visit(dag, main.body, []);
    var linC := if callee.Some? then Visit(dag, callee.value.body, []) else [];
    var calls := Calls(dag, linM);
    Plan(dag, main.body, main.params, callee, linM, linC, if calls == [] then |linM| else calls[0], sched)
  }

  lemma OneCall(dag: Dag, order: seq<nat>)
    requires forall i :: 0 <= i < |order| ==> order[i] < |dag|
    ensures |Calls(dag, order)| == 0 <==> NoCalls(dag, order)
    ensures forall c: nat :: c < |order| && OnlyCallAt(dag, order, c) <==> Calls(dag, order) == [c]
  {
    var s := Calls(dag, order);
    if |s| > 0 {
      assert s[0] in s;
    }
    if |s| > 1 {
      assert s[1] in s;
    }
    forall c: nat ensures c < |order| && OnlyCallAt(dag, order, c) <==> s == [c] {
      if c < |order| && OnlyCallAt(dag, order, c) {
        assert c in s;
        assert forall i: nat :: i in s ==> i == c;
      }
      if s == [c] {
        assert forall i: nat :: i in s <==> i == c;
      }
    }
  }

  lemma InOrder(dag: Dag, b: nat, order: seq<nat>)
    requires Acyclic(dag) && b < |dag| && IsLinearization(dag, b, order)
    ensures forall i :: 0 <= i < |order| ==> order[i] < |dag|
  {
    forall i | 0 <= i < |order| ensures order[i] < |dag| {
      assert order[i] in order;
    }
  }

  /** The checks of a rendering with a nested call, against what a well-formed plan means. */
  lemma CalleeChecks(p: Plan, c: FpFn)
    requires Acyclic(p.dag) && p.body < |p.dag| && c.body < |p.dag|
    requires IsLinearization(p.dag, p.body, p.linM) && IsLinearization(p.dag, c.body, p.linC)
    requires p.callId == if Calls(p.dag, p.linM) == [] then |p.linM| else Calls(p.dag, p.linM)[0]
    ensures WithCallee(p, c) <==>
            c.name == p.sched.callee && |Calls(p.dag, p.linM)| == 1 && Calls(p.dag, p.linC) == [] && CallMatches(p, c)
  {
    InOrder(p.dag, p.body, p.linM);
    InOrder(p.dag, c.body, p.linC);
    OneCall(p.dag, p.linM);
    OneCall(p.dag, p.linC);
    hide IsLinearization, Calls;
    var s := Calls(p.dag, p.linM);
    assert |s| == 1 ==> s == [p.callId];
  }

  ghost predicate CallMatches(p: Plan, c: FpFn) {
    p.callId < |p.linM| && p.linM[p.callId] < |p.dag| && p.dag[p.linM[p.callId]].kind.Call?
    && p.dag[p.linM[p.callId]].kind.name == p.sched.callee && |p.Args()| == |c.params|
  }

  /** The structural checks, as the renderer runs them. */
  ghost predicate Checked(p: Plan)
    requires WfSchedule(p.sched)
  {
    (p.callee.Some? ==> p.callee.value.name == p.sched.callee)
    && |p.linM| == p.sched.mainStarts[|p.sched.mainStarts| - 1]
    && |p.linC| == p.sched.calleeStarts[|p.sched.calleeStarts| - 1]
    && |Calls(p.dag, p.linM)| == (if p.callee.Some? then 1 else 0)
    && Calls(p.dag, p.linC) == []
    && (p.callee.Some? ==> CallMatches(p, p.callee.value))
  }

  lemma ChecksAreExact(dag: Dag, main: FpFn, callee: Option<FpFn>, sched: Schedule)
    requires InStore(dag, main, callee) && WfSchedule(sched)
    ensures WfPlan(PlanOf(dag, main, callee, sched)) <==> Checked(PlanOf(dag, main, callee, sched))
  {
    hide Visit, Calls, WithCallee, CallMatches, IsLinearization, Cuts;
    VisitLinearizes(dag, main.body);
    var p := PlanOf(dag, main, callee, sched);
    InOrder(dag, main.body, p.linM);
    OneCall(dag, p.linM);
    if callee.Some? {
      VisitLinearizes(dag, callee.value.body);
      CalleeChecks(p, callee.value);
    } else {
      NoCallsInNothing(dag);
    }
  }

  lemma NoCallsInNothing(dag: Dag)
    ensures Calls(dag, []) == []
  {
  }

  /** Renders `main`, inlining its one nested call to `callee`; or, without a callee, a function that makes
      no call. Accepts exactly the well-formed plans whose every operand is defined by the stage reading it. */
  method RenderStaged(dag: Dag, main: FpFn, callee: Option<FpFn>, sched: Schedule) returns (r: Result<Netlist>)
    requires InStore(dag, main, callee) && WfSchedule(sched)
    ensures r.Ok? <==> WfPlan(PlanOf(dag, main, callee, sched)) && Accepts(PlanOf(dag, main, callee, sched))
    ensures r.Ok? ==> IsNetlist(PlanOf(dag, main, callee, sched), r.value)
  {
    hide IsLinearization, Accepts, IsNetlist, Visit, WithCallee, WfPlan, Calls;
    ChecksAreExact(dag, main, callee, sched);
    ghost var plan := PlanOf(dag, main, callee, sched);
    var linM := Run(dag, main.body);
    var orderM := linM.order;
    var orderC: seq<nat> := [];
    if callee.Some? {
      var linC := Run(dag, callee.value.body);
      orderC := linC.order;
      if callee.value.name != sched.callee {
        return Err("schedule expects another callee");
      }
    }
    if |orderM| != sched.mainStarts[|sched.mainStarts| - 1] {
      return Err("main temp count drifted");
    }
    if |orderC| != sched.calleeStarts[|sched.calleeStarts| - 1] {
      return Err("callee temp count drifted");
    }
    var calls := Calls(dag, orderM);
    if |calls| != (if callee.Some? then 1 else 0) {
      return Err("unexpected number of nested calls");
    }
    if Calls(dag, orderC) != [] {
      return Err("callee itself nests a call");
    }
    var callId := |orderM|;
    if callee.Some? {
      callId := calls[0];
      assert callId in calls;
      if dag[orderM[callId]].kind.name != sched.callee {
        return Err("nested call is another function");
      }
      if |dag[orderM[callId]].kind.args| != |callee.value.params| {
        return Err("call arg count != callee param count");
      }
    }
    var p := Plan(dag, main.body, main.params, callee, orderM, orderC, callId, sched);
    r := Emit(p);
  }
}
