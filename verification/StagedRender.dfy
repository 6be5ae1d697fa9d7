/** The staged renderer: resolves every operand twice, once to learn when each value is last read and once
    to emit the netlist, and refuses any schedule that reads a value before the stage defining it. */
module StagedRender {
  import opened BitVec
  import opened Wrappers
  import opened FpIr
  import opened FpEval
  import opened Linearize
  import opened StagedPlan

  /** Last stage recorded for a value; 0 when none is. */
  function LastUse(uses: map<Key, nat>, key: Key): nat {
    if key in uses then uses[key] else 0
  }

  /** `after` records, on top of `before`, a read in stage k of each value of `keys`. */
  ghost predicate Recorded(before: map<Key, nat>, after: map<Key, nat>, keys: iset<Key>, k: nat) {
    forall key :: LastUse(after, key) == if key in keys then Max(LastUse(before, key), k) else LastUse(before, key)
  }

  /** The value an operand names, as a set. */
  ghost function OperandKeys(p: Plan, b: nat, ns: Ns): iset<Key>
    requires WfPlan(p) && b < |p.dag|
  {
    iset key | Locate(p, b, ns) == Ok(Of(key))
  }

  ghost function TempReads(p: Plan, t: Key): iset<Key>
    requires WfPlan(p) && t.Temp? && Known(p, t)
  {
    iset key | Reads(p, t, key)
  }

  class StagedCtx {
    const plan: Plan
    /** Last stage that reads each value. */
    var uses: map<Key, nat>

    constructor (plan: Plan)
      ensures this.plan == plan && uses == map[]
    {
      this.plan := plan;
      uses := map[];
    }

    /** Resolves an operand reference from a stage-k context and records the read. */
    method Resolve(b: nat, ns: Ns, k: nat) returns (r: Result<Ref>)
      requires WfPlan(plan) && b < |plan.dag| && k >= 1
      modifies this`uses
      ensures r == ResolveRef(plan, b, ns, k)
      ensures r.Ok? ==> Recorded(old(uses), uses, OperandKeys(plan, b, ns), k)
      decreases if ns.Main? then 0 else 1, 1
    {
      hide WfPlan, Low, Reads;
      PlanShape(plan);
      var n := plan.dag[b];
      if n.kind.Const? {
        return Ok(Lit(Low(n.kind.val, n.width)));
      }
      if n.kind.Var? && ns.Callee? {
        if plan.callee.None? {
          return Err("callee references unknown param");
        }
        var i := ParamIndex(plan.callee.value.params, n.kind.name);
        if i == |plan.callee.value.params| {
          return Err("callee references unknown param");
        }
        ArgsInStore(plan, i);
        r := Resolve(plan.Args()[i], Main, k);
      } else {
        r := ResolveKey(b, ns, k);
      }
    }

    /** Resolves a main-function variable or a compound node. */
    method ResolveKey(b: nat, ns: Ns, k: nat) returns (r: Result<Ref>)
      requires WfPlan(plan) && b < |plan.dag| && k >= 1
      requires !plan.dag[b].kind.Const? && (plan.dag[b].kind.Var? ==> ns.Main?)
      modifies this`uses
      ensures r == ResolveRef(plan, b, ns, k)
      ensures r.Ok? ==> Recorded(old(uses), uses, OperandKeys(plan, b, ns), k)
      decreases if ns.Main? then 0 else 1, 0
    {
      hide WfPlan, Low, Reads;
      PlanShape(plan);
      LocatedIsKnown(plan, b, ns);
      var n := plan.dag[b];
      var key: Key;
      if n.kind.Var? {
        key := Input(n.kind.name);
      } else {
        if b !in plan.Order(ns) {
          return Err("operand not in its namespace's linearization");
        }
        key := Temp(ns, IdOf(plan.Order(ns), b));
      }
      if Def(plan, key) > k {
        return Err("schedule is not topological");
      }
      uses := uses[key := Max(LastUse(uses, key), k)];
      r := Ok(Named(SigAt(plan, key, k)));
    }

    /** Renders the right-hand side of a temporary owned by stage k. Every operand is resolved even after one
        has failed. */
    method Rhs(t: Key, k: nat) returns (r: Result<Rhs>)
      requires WfPlan(plan) && t.Temp? && Known(plan, t) && k >= 1
      modifies this`uses
      ensures r.Ok? <==> TempResolves(plan, t, k) && Sourced(plan, t)
      ensures r.Ok? ==> IsAssign(plan, t, k, Assign(Wire(k, t.ns, t.id), r.value))
      ensures r.Ok? ==> Recorded(old(uses), uses, TempReads(plan, t), k)
    {
      hide WfPlan, ResolveRef, Locate;
      NodeInStore(plan, t);
      var b := plan.Order(t.ns)[t.id];
      if plan.dag[b].kind.Call? {
        if plan.linC == [] {
          return Err("empty callee");
        }
        CallSource(plan, t);
        var res := Resolve(plan.linC[|plan.linC| - 1], Callee, k);
        KeysOfSources(plan, t);
        OneSource(plan, Sources(plan, t), SourceNs(plan, t));
        r := if res.Ok? then Ok(Copy(res.value)) else Err(res.reason);
      } else {
        OpSources(plan, t);
        KeysOfSources(plan, t);
        r := Operands(plan.dag[b].kind.Operands(), t.ns, b, k);
      }
    }

    method Operands(ops: seq<nat>, ns: Ns, b: nat, k: nat) returns (r: Result<Rhs>)
      requires WfPlan(plan) && AllBelow(ops, |plan.dag|) && k >= 1
      modifies this`uses
      ensures r.Ok? <==> forall i :: 0 <= i < |ops| ==> ResolveRef(plan, ops[i], ns, k).Ok?
      ensures r.Ok? ==> r.value.Op? && r.value.node == b && |r.value.refs| == |ops|
                        && forall i :: 0 <= i < |ops| ==> ResolveRef(plan, ops[i], ns, k) == Ok(r.value.refs[i])
      ensures r.Ok? ==> Recorded(old(uses), uses, ListKeys(plan, ops, ns), k)
    {
      hide WfPlan, ResolveRef, Locate;
      var refs: seq<Ref> := [];
      var err: Option<string> := None;
      assert Recorded(old(uses), uses, ListKeys(plan, ops[..0], ns), k);
      for i := 0 to |ops|
        invariant err.None? ==> |refs| == i && Recorded(old(uses), uses, ListKeys(plan, ops[..i], ns), k)
        invariant err.None? ==> forall j :: 0 <= j < i ==> ResolveRef(plan, ops[j], ns, k) == Ok(refs[j])
        invariant err.Some? ==> exists j :: 0 <= j < i && ResolveRef(plan, ops[j], ns, k).Err?
      {
        ghost var before := uses;
        var res := Resolve(ops[i], ns, k);
        if res.Err? {
          err := Some(res.reason);
        } else {
          refs := refs + [res.value];
          if err.None? {
            RecordedMore(plan, old(uses), before, uses, ops, i, ns, k);
          }
        }
      }
      assert ops[..|ops|] == ops;
      r := if err.Some? then Err(err.value) else Ok(Op(b, refs));
    }
  }

  /** A nested call has a callee result to copy. */
  ghost predicate Sourced(p: Plan, t: Key)
    requires WfPlan(p) && t.Temp? && Known(p, t)
  {
    NodeInStore(p, t);
    p.dag[p.Order(t.ns)[t.id]].kind.Call? ==> p.linC != []
  }

  ghost function ListKeys(p: Plan, ids: seq<nat>, ns: Ns): iset<Key>
    requires WfPlan(p) && AllBelow(ids, |p.dag|)
  {
    iset key | exists i :: 0 <= i < |ids| && Locate(p, ids[i], ns) == Ok(Of(key))
  }

  lemma RecordedMore(p: Plan, a: map<Key, nat>, b: map<Key, nat>, c: map<Key, nat>, ids: seq<nat>, i: nat, ns: Ns, k: nat)
    requires WfPlan(p) && AllBelow(ids, |p.dag|) && i < |ids|
    requires Recorded(a, b, ListKeys(p, ids[..i], ns), k) && Recorded(b, c, OperandKeys(p, ids[i], ns), k)
    ensures Recorded(a, c, ListKeys(p, ids[..i + 1], ns), k)
  {
    hide WfPlan, Locate, LastUse;
    forall key
      ensures key in ListKeys(p, ids[..i + 1], ns) <==> key in ListKeys(p, ids[..i], ns) || key in OperandKeys(p, ids[i], ns)
    {
      if key in ListKeys(p, ids[..i], ns) {
        var j :| 0 <= j < i && Locate(p, ids[..i][j], ns) == Ok(Of(key));
        assert Locate(p, ids[..i + 1][j], ns) == Ok(Of(key));
      }
      if key in OperandKeys(p, ids[i], ns) {
        assert Locate(p, ids[..i + 1][i], ns) == Ok(Of(key));
      }
    }
  }

  lemma CallSource(p: Plan, t: Key)
    requires WfPlan(p) && t.Temp? && Known(p, t) && p.linC != []
    requires p.Order(t.ns)[t.id] < |p.dag| && p.dag[p.Order(t.ns)[t.id]].kind.Call?
    ensures Sources(p, t) == [p.linC[|p.linC| - 1]] && SourceNs(p, t) == Callee && p.linC[|p.linC| - 1] < |p.dag|
  {
    hide IsLinearization;
    NodeInStore(p, Temp(Callee, |p.linC| - 1));
  }

  lemma OpSources(p: Plan, t: Key)
    requires WfPlan(p) && t.Temp? && Known(p, t)
    requires p.Order(t.ns)[t.id] < |p.dag| && !p.dag[p.Order(t.ns)[t.id]].kind.Call?
    ensures Sources(p, t) == p.dag[p.Order(t.ns)[t.id]].kind.Operands() && SourceNs(p, t) == t.ns
    ensures AllBelow(Sources(p, t), |p.dag|)
  {
    hide IsLinearization;
  }

  lemma KeysOfSources(p: Plan, t: Key)
    requires WfPlan(p) && t.Temp? && Known(p, t) && p.Order(t.ns)[t.id] < |p.dag|
    ensures TempReads(p, t) == ListKeys(p, Sources(p, t), SourceNs(p, t))
  {
    hide WfPlan, Locate, Sources;
  }

  lemma OneSource(p: Plan, ids: seq<nat>, ns: Ns)
    requires WfPlan(p) && AllBelow(ids, |p.dag|) && |ids| == 1
    ensures ListKeys(p, ids, ns) == OperandKeys(p, ids[0], ns)
  {
    hide WfPlan, Locate;
  }
}
