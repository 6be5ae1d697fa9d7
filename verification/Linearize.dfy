/** Linearisation of an expression DAG to one operation per temporary (src/fp_ir.rs), and the proof
    that running the temporaries in order computes what the interpreter computes. */
module Linearize {
  import opened BitVec
  import opened Wrappers
  import opened FpIr
  import opened FpEval

  /** Node `n` occurs in the expression rooted at `b`. */
  ghost predicate Reaches(dag: Dag, b: nat, n: nat)
    requires Acyclic(dag) && b < |dag|
    decreases b
  {
    OperandsBelow(dag[b].kind, b);
    var ops := dag[b].kind.Operands();
    b == n || exists j :: 0 <= j < |ops| && Reaches(dag, ops[j], n)
  }

  // ---- The post-order walk ----------------------------------------------------------------------

  /** Appends the compound nodes of `b` that `order` does not list yet, operands before users. */
  ghost function Visit(dag: Dag, b: nat, order: seq<nat>): seq<nat>
    requires Acyclic(dag) && b < |dag|
    decreases b, 1, 0
  {
    OperandsBelow(dag[b].kind, b);
    if dag[b].kind.IsLeaf() || b in order then order
    else VisitAll(dag, dag[b].kind.Operands(), b, order) + [b]
  }

  ghost function VisitAll(dag: Dag, ids: seq<nat>, bound: nat, order: seq<nat>): seq<nat>
    requires Acyclic(dag) && bound <= |dag| && AllBelow(ids, bound)
    decreases bound, 0, |ids|
  {
    if ids == [] then order
    else
      var k := |ids| - 1;
      Visit(dag, ids[k], VisitAll(dag, ids[..k], bound, order))
  }

  /** Every listed node is compound, listed once, and has each compound operand listed earlier. */
  ghost predicate WfOrder(dag: Dag, order: seq<nat>) {
    (forall i :: 0 <= i < |order| ==> OrderedAt(dag, order, i))
    && (forall i, j :: 0 <= i < j < |order| ==> order[i] != order[j])
  }

  ghost predicate OrderedAt(dag: Dag, order: seq<nat>, i: nat)
    requires i < |order|
  {
    order[i] < |dag| && !dag[order[i]].kind.IsLeaf()
    && forall j :: 0 <= j < |dag[order[i]].kind.Operands()| ==> Settled(dag, order[..i], dag[order[i]].kind.Operands()[j])
  }

  /** `b` can be read once the nodes of `order` have been computed. */
  ghost predicate Settled(dag: Dag, order: seq<nat>, b: nat) {
    b < |dag| && (dag[b].kind.IsLeaf() || b in order)
  }

  lemma Extend(dag: Dag, order: seq<nat>, b: nat)
    requires WfOrder(dag, order) && b < |dag| && !dag[b].kind.IsLeaf() && b !in order
    requires forall j :: 0 <= j < |dag[b].kind.Operands()| ==> Settled(dag, order, dag[b].kind.Operands()[j])
    ensures WfOrder(dag, order + [b])
  {
    var o := order + [b];
    forall i | 0 <= i < |o| ensures OrderedAt(dag, o, i) {
      if i < |order| {
        assert OrderedAt(dag, order, i);
        assert o[..i] == order[..i];
      } else {
        assert o[..i] == order;
      }
    }
  }

  ghost predicate Prefix(a: seq<nat>, b: seq<nat>) { |a| <= |b| && b[..|a|] == a }

  /** What a visit adds: the walked node becomes readable, nothing listed moves, and only nodes of the
      expression are added. */
  ghost predicate Visited(dag: Dag, b: nat, before: seq<nat>, after: seq<nat>)
    requires Acyclic(dag) && b < |dag|
  {
    WfOrder(dag, after) && Prefix(before, after) && Settled(dag, after, b)
    && forall n :: n in after ==> n in before || Reaches(dag, b, n)
  }

  lemma {:induction false} VisitIsVisited(dag: Dag, b: nat, order: seq<nat>)
    requires Acyclic(dag) && b < |dag| && WfOrder(dag, order)
    ensures Visited(dag, b, order, Visit(dag, b, order))
    ensures forall n :: n in Visit(dag, b, order) && n !in order ==> n <= b
    decreases b, 1, 0
  {
    OperandsBelow(dag[b].kind, b);
    if !dag[b].kind.IsLeaf() && b !in order {
      var ops := dag[b].kind.Operands();
      VisitAllIsVisited(dag, ops, b, order);
      var mid := VisitAll(dag, ops, b, order);
      Extend(dag, mid, b);
    }
  }

  lemma {:induction false} VisitAllIsVisited(dag: Dag, ids: seq<nat>, bound: nat, order: seq<nat>)
    requires Acyclic(dag) && bound <= |dag| && AllBelow(ids, bound) && WfOrder(dag, order)
    ensures VisitedAll(dag, ids, bound, order, VisitAll(dag, ids, bound, order))
    decreases bound, 0, |ids|
  {
    if ids != [] {
      var k := |ids| - 1;
      var mid := VisitAll(dag, ids[..k], bound, order);
      VisitAllIsVisited(dag, ids[..k], bound, order);
      VisitIsVisited(dag, ids[k], mid);
      VisitedSnoc(dag, ids, bound, order, mid, Visit(dag, ids[k], mid));
    }
  }

  ghost predicate VisitedAll(dag: Dag, ids: seq<nat>, bound: nat, before: seq<nat>, after: seq<nat>)
    requires Acyclic(dag) && bound <= |dag| && AllBelow(ids, bound)
  {
    WfOrder(dag, after) && Prefix(before, after)
    && (forall j :: 0 <= j < |ids| ==> Settled(dag, after, ids[j]))
    && (forall n :: n in after && n !in before ==> n < bound && ReachedFrom(dag, ids, n))
  }

  ghost predicate ReachedFrom(dag: Dag, ids: seq<nat>, n: nat)
    requires Acyclic(dag) && AllBelow(ids, |dag|)
  {
    exists j :: 0 <= j < |ids| && Reaches(dag, ids[j], n)
  }

  lemma VisitedSnoc(dag: Dag, ids: seq<nat>, bound: nat, before: seq<nat>, mid: seq<nat>, after: seq<nat>)
    requires Acyclic(dag) && bound <= |dag| && AllBelow(ids, bound) && ids != []
    requires VisitedAll(dag, ids[..|ids| - 1], bound, before, mid)
    requires Visited(dag, ids[|ids| - 1], mid, after)
    requires forall n :: n in after && n !in mid ==> n <= ids[|ids| - 1]
    ensures VisitedAll(dag, ids, bound, before, after)
  {
    hide Reaches, WfOrder;
    var k := |ids| - 1;
    forall n | n in after && n !in before ensures n < bound && ReachedFrom(dag, ids, n) {
      if n in mid {
        var j :| 0 <= j < k && Reaches(dag, ids[..k][j], n);
        assert Reaches(dag, ids[j], n);
      } else {
        assert Reaches(dag, ids[k], n);
      }
    }
    forall j | 0 <= j < |ids| ensures Settled(dag, after, ids[j]) {
      if j < k {
        assert Settled(dag, mid, ids[..k][j]);
      }
    }
  }

  /** An ordered list that lists a node lists every compound node of its expression. */
  lemma {:induction false} Closed(dag: Dag, order: seq<nat>, b: nat, n: nat)
    requires Acyclic(dag) && WfOrder(dag, order) && Settled(dag, order, b)
    requires Reaches(dag, b, n)
    ensures Settled(dag, order, n)
    decreases b
  {
    OperandsBelow(dag[b].kind, b);
    if b != n {
      var ops := dag[b].kind.Operands();
      var j :| 0 <= j < |ops| && Reaches(dag, ops[j], n);
      var i :| 0 <= i < |order| && order[i] == b;
      assert OrderedAt(dag, order, i);
      assert Settled(dag, order[..i], ops[j]);
      Closed(dag, order, ops[j], n);
    }
  }

  /** `order` lists exactly the compound nodes of the expression rooted at `b`, each once, operands
      before users and the root last. */
  ghost predicate IsLinearization(dag: Dag, b: nat, order: seq<nat>)
    requires Acyclic(dag) && b < |dag|
  {
    WfOrder(dag, order)
    && (forall n: nat :: n in order <==> n < |dag| && !dag[n].kind.IsLeaf() && Reaches(dag, b, n))
    && (if dag[b].kind.IsLeaf() then order == [] else order != [] && order[|order| - 1] == b)
  }

  lemma VisitLinearizes(dag: Dag, b: nat)
    requires Acyclic(dag) && b < |dag|
    ensures IsLinearization(dag, b, Visit(dag, b, []))
  {
    var order := Visit(dag, b, []);
    VisitIsVisited(dag, b, []);
    forall n: nat | n < |dag| && !dag[n].kind.IsLeaf() && Reaches(dag, b, n) ensures n in order {
      Closed(dag, order, b, n);
    }
    forall n: nat | n in order ensures n < |dag| && !dag[n].kind.IsLeaf() && Reaches(dag, b, n) {
      var i :| 0 <= i < |order| && order[i] == n;
      assert OrderedAt(dag, order, i);
    }
  }

  // ---- The linearizer ----------------------------------------------------------------------------

  class Lin {
    /** Temporary id of each listed node. */
    var ids: map<nat, nat>
    /** Compound nodes in topological order. */
    var order: seq<nat>

    ghost predicate Valid()
      reads this
    {
      (forall n :: n in ids <==> n in order)
      && (forall n :: n in ids ==> ids[n] < |order| && order[ids[n]] == n)
    }

    constructor ()
      ensures Valid() && order == [] && ids == map[]
    {
      ids := map[];
      order := [];
    }

    method Go(dag: Dag, b: nat)
      requires Valid() && Acyclic(dag) && b < |dag| && WfOrder(dag, order)
      modifies this
      ensures Valid() && order == Visit(dag, b, old(order)) && WfOrder(dag, order)
      decreases b
    {
      VisitIsVisited(dag, b, order);
      if dag[b].kind.IsLeaf() {
        return;
      }
      if b in ids {
        return;
      }
      OperandsBelow(dag[b].kind, b);
      var ops := dag[b].kind.Operands();
      for i := 0 to |ops|
        invariant Valid() && WfOrder(dag, order)
        invariant order == VisitAll(dag, ops[..i], b, old(order))
      {
        assert ops[..i + 1][..i] == ops[..i];
        Go(dag, ops[i]);
      }
      assert ops[..|ops|] == ops;
      VisitAllIsVisited(dag, ops, b, old(order));
      assert b !in order;
      var id := |order|;
      ids := ids[b := id];
      order := order + [b];
    }
  }

  method Run(dag: Dag, body: nat) returns (lin: Lin)
    requires Acyclic(dag) && body < |dag|
    ensures fresh(lin) && lin.Valid() && IsLinearization(dag, body, lin.order)
    ensures lin.order == Visit(dag, body, [])
  {
    lin := new Lin();
    lin.Go(dag, body);
    VisitLinearizes(dag, body);
  }

  // ---- Running the temporaries ---------------------------------------------------------------------

  /** Every variable is bound by `names`, every node fits a host word, and every call finds a callee of
      matching arity and widths whose own body resolves, within the call-depth budget. */
  ghost predicate Resolves(dag: Dag, fns: seq<FpFn>, names: set<string>, b: nat, depth: nat)
    requires Acyclic(dag) && WfFns(dag, fns) && b < |dag| && depth <= MAX_CALL_DEPTH
    decreases MAX_CALL_DEPTH - depth, b
  {
    OperandsBelow(dag[b].kind, b);
    dag[b].width <= 128
    && (forall j :: 0 <= j < |dag[b].kind.Operands()| ==> Resolves(dag, fns, names, dag[b].kind.Operands()[j], depth))
    && match dag[b].kind
       case Var(n) => n in names
       case Call(name, args) =>
         depth < MAX_CALL_DEPTH && Find(fns, name).Some?
         && var f := Find(fns, name).value;
            ArgsMatch(dag, f.params, args) && Resolves(dag, fns, ParamTypes(f.params).Keys, f.body, depth + 1)
       case _ => true
  }

  ghost predicate ArgsMatch(dag: Dag, params: seq<(string, nat)>, args: seq<nat>)
    requires AllBelow(args, |dag|)
  {
    |params| == |args| && forall j :: 0 <= j < |args| ==> dag[args[j]].width == params[j].1
  }

  /** The callee's environment built from the argument values. */
  function Bind(params: seq<(string, nat)>, vs: seq<nat>): (env: map<string, nat>)
    requires |params| == |vs|
    ensures env.Keys == ParamTypes(params).Keys
  {
    if params == [] then map[]
    else
      var k := |params| - 1;
      Bind(params[..k], vs[..k])[params[k].0 := vs[k]]
  }

  /** The value of a resolved expression. */
  ghost function Value(dag: Dag, fns: seq<FpFn>, env: map<string, nat>, b: nat, depth: nat): nat
    requires Acyclic(dag) && WfFns(dag, fns) && b < |dag| && depth <= MAX_CALL_DEPTH
  {
    var r := Eval(dag, fns, env, b, depth);
    if r.Some? then r.value else 0
  }

  ghost function Values(dag: Dag, fns: seq<FpFn>, env: map<string, nat>, ids: seq<nat>, depth: nat): (vs: seq<nat>)
    requires Acyclic(dag) && WfFns(dag, fns) && AllBelow(ids, |dag|) && depth <= MAX_CALL_DEPTH
    ensures |vs| == |ids|
    ensures forall j :: 0 <= j < |ids| ==> vs[j] == Value(dag, fns, env, ids[j], depth)
  {
    if ids == [] then [] else [Value(dag, fns, env, ids[0], depth)] + Values(dag, fns, env, ids[1..], depth)
  }

  /** The value of one operation, or of one call, from its operands' values alone. */
  ghost function StepValue(dag: Dag, fns: seq<FpFn>, b: nat, vs: seq<nat>, depth: nat): nat
    requires Acyclic(dag) && WfFns(dag, fns) && b < |dag| && depth <= MAX_CALL_DEPTH
    requires !dag[b].kind.IsLeaf() && |vs| == |dag[b].kind.Operands()|
  {
    OperandsBelow(dag[b].kind, b);
    OperandsBelow(dag[b].kind, |dag|);
    if dag[b].kind.Call? then
      var f := Find(fns, dag[b].kind.name);
      if depth < MAX_CALL_DEPTH && f.Some? && |f.value.params| == |vs|
      then Value(dag, fns, Bind(f.value.params, vs), f.value.body, depth + 1)
      else 0
    else Meaning(dag, dag[b], vs)
  }

  /** A resolved expression always has a value. */
  lemma {:induction false} ResolvedEvaluates(dag: Dag, fns: seq<FpFn>, env: map<string, nat>, b: nat, depth: nat)
    requires Acyclic(dag) && WfFns(dag, fns) && b < |dag| && depth <= MAX_CALL_DEPTH
    requires Resolves(dag, fns, env.Keys, b, depth)
    ensures Eval(dag, fns, env, b, depth).Some?
    decreases MAX_CALL_DEPTH - depth, b + 1, 0
  {
    hide Low, Meaning, Pow2, EvalAll, EvalArgs;
    OperandsBelow(dag[b].kind, b);
    var ops := dag[b].kind.Operands();
    if dag[b].kind.Ite? {
      assert ops[0] == dag[b].kind.c && ops[1] == dag[b].kind.t && ops[2] == dag[b].kind.e;
      ResolvedEvaluates(dag, fns, env, ops[0], depth);
      ResolvedEvaluates(dag, fns, env, ops[1], depth);
      ResolvedEvaluates(dag, fns, env, ops[2], depth);
    } else if dag[b].kind.Call? {
      ResolvedCall(dag, fns, env, b, depth);
    } else if !dag[b].kind.IsLeaf() {
      ResolvedOperands(dag, fns, env, ops, b, depth);
    }
  }

  lemma {:induction false} ResolvedCall(dag: Dag, fns: seq<FpFn>, env: map<string, nat>, b: nat, depth: nat)
    requires Acyclic(dag) && WfFns(dag, fns) && b < |dag| && depth <= MAX_CALL_DEPTH
    requires Resolves(dag, fns, env.Keys, b, depth) && dag[b].kind.Call?
    requires AllBelow(dag[b].kind.args, |dag|)
    ensures var f := Find(fns, dag[b].kind.name);
            depth < MAX_CALL_DEPTH && f.Some? && |f.value.params| == |dag[b].kind.args|
            && Eval(dag, fns, env, b, depth)
            == Eval(dag, fns, Bind(f.value.params, Values(dag, fns, env, dag[b].kind.args, depth)), f.value.body, depth + 1)
            && Eval(dag, fns, env, b, depth).Some?
    decreases MAX_CALL_DEPTH - depth, b, |dag[b].kind.args| + 2
  {
    hide Low, Meaning, Pow2, EvalAll, EvalArgs, Values;
    OperandsBelow(dag[b].kind, b);
    var ops := dag[b].kind.Operands();
    var f := Find(fns, dag[b].kind.name).value;
    ResolvedArgs(dag, fns, env, f.params, ops, b, depth);
    var vs := Values(dag, fns, env, ops, depth);
    ResolvedEvaluates(dag, fns, Bind(f.params, vs), f.body, depth + 1);
  }

  lemma {:induction false} ResolvedOperands(dag: Dag, fns: seq<FpFn>, env: map<string, nat>, ids: seq<nat>, b: nat,
                                            depth: nat)
    requires Acyclic(dag) && WfFns(dag, fns) && b < |dag| && depth <= MAX_CALL_DEPTH
    requires AllBelow(ids, b) && AllBelow(ids, |dag|)
    requires forall j :: 0 <= j < |ids| ==> Resolves(dag, fns, env.Keys, ids[j], depth)
    ensures EvalAll(dag, fns, env, ids, b, depth) == Some(Values(dag, fns, env, ids, depth))
    decreases MAX_CALL_DEPTH - depth, b, |ids| + 1
  {
    hide Eval, Resolves;
    if ids != [] {
      ResolvedEvaluates(dag, fns, env, ids[0], depth);
      ResolvedOperands(dag, fns, env, ids[1..], b, depth);
    }
  }

  lemma {:induction false} ResolvedArgs(dag: Dag, fns: seq<FpFn>, env: map<string, nat>, params: seq<(string, nat)>,
                                        ids: seq<nat>, b: nat, depth: nat)
    requires Acyclic(dag) && WfFns(dag, fns) && b < |dag| && depth <= MAX_CALL_DEPTH
    requires AllBelow(ids, b) && AllBelow(ids, |dag|) && ArgsMatch(dag, params, ids)
    requires forall j :: 0 <= j < |ids| ==> Resolves(dag, fns, env.Keys, ids[j], depth)
    ensures EvalArgs(dag, fns, env, params, ids, b, depth) == Some(Bind(params, Values(dag, fns, env, ids, depth)))
    decreases MAX_CALL_DEPTH - depth, b, |ids| + 1
  {
    hide Eval, Resolves, Values, ParamTypes;
    if ids != [] {
      var k := |ids| - 1;
      ResolvedArgs(dag, fns, env, params[..k], ids[..k], b, depth);
      ResolvedEvaluates(dag, fns, env, ids[k], depth);
      ValuesPrefix(dag, fns, env, ids, k, depth);
    }
  }

  lemma ValuesPrefix(dag: Dag, fns: seq<FpFn>, env: map<string, nat>, ids: seq<nat>, k: nat, depth: nat)
    requires Acyclic(dag) && WfFns(dag, fns) && AllBelow(ids, |dag|) && depth <= MAX_CALL_DEPTH && k <= |ids|
    ensures Values(dag, fns, env, ids[..k], depth) == Values(dag, fns, env, ids, depth)[..k]
  {
    hide Value, Values;
  }

  /** The interpreter's value of a compound node is its operation applied to its operands' values: in a
      resolved expression, short-circuiting is not observable. */
  lemma ValueIsStep(dag: Dag, fns: seq<FpFn>, env: map<string, nat>, b: nat, depth: nat)
    requires Acyclic(dag) && WfFns(dag, fns) && b < |dag| && depth <= MAX_CALL_DEPTH
    requires Resolves(dag, fns, env.Keys, b, depth) && !dag[b].kind.IsLeaf()
    requires AllBelow(dag[b].kind.Operands(), |dag|)
    ensures Eval(dag, fns, env, b, depth)
         == Some(StepValue(dag, fns, b, Values(dag, fns, env, dag[b].kind.Operands(), depth), depth))
  {
    hide Low, Pow2;
    ResolvedEvaluates(dag, fns, env, b, depth);
    OperandsBelow(dag[b].kind, b);
    OperandsBelow(dag[b].kind, |dag|);
    var ops := dag[b].kind.Operands();
    if dag[b].kind.Ite? {
      hide *;
      IteIsStep(dag, fns, env, b, depth);
    } else if dag[b].kind.Call? {
      hide Meaning, Eval, Resolves, EvalArgs;
      ResolvedCall(dag, fns, env, b, depth);
    } else {
      hide Meaning, EvalAll;
      ResolvedOperands(dag, fns, env, ops, b, depth);
    }
  }

  lemma IteIsStep(dag: Dag, fns: seq<FpFn>, env: map<string, nat>, b: nat, depth: nat)
    requires Acyclic(dag) && WfFns(dag, fns) && b < |dag| && depth <= MAX_CALL_DEPTH
    requires Resolves(dag, fns, env.Keys, b, depth) && dag[b].kind.Ite?
    requires AllBelow(dag[b].kind.Operands(), |dag|)
    ensures Eval(dag, fns, env, b, depth)
         == Some(StepValue(dag, fns, b, Values(dag, fns, env, dag[b].kind.Operands(), depth), depth))
  {
    hide Low, Pow2;
    OperandsBelow(dag[b].kind, b);
    OperandsBelow(dag[b].kind, |dag|);
    var ops := dag[b].kind.Operands();
    assert ops[0] == dag[b].kind.c && ops[1] == dag[b].kind.t && ops[2] == dag[b].kind.e;
    ResolvedEvaluates(dag, fns, env, ops[0], depth);
    ResolvedEvaluates(dag, fns, env, ops[1], depth);
    ResolvedEvaluates(dag, fns, env, ops[2], depth);
  }

  /** Position of `b` in `order`: the temporary id the renderers look up. */
  function IdOf(order: seq<nat>, b: nat): (i: nat)
    requires b in order
    ensures i < |order| && order[i] == b
  {
    if order[0] == b then 0 else 1 + IdOf(order[1..], b)
  }

  /** What a rendered operand reference reads: a parameter, a literal or an earlier temporary. */
  ghost function Read(dag: Dag, env: map<string, nat>, order: seq<nat>, temps: seq<nat>, b: nat): nat
    requires Settled(dag, order, b) && |temps| == |order|
  {
    match dag[b].kind
    case Var(n) => if n in env then env[n] else 0
    case Const(val) => Low(val, dag[b].width)
    case _ => temps[IdOf(order, b)]
  }

  ghost function ReadAll(dag: Dag, env: map<string, nat>, order: seq<nat>, temps: seq<nat>, ids: seq<nat>): (vs: seq<nat>)
    requires forall j :: 0 <= j < |ids| ==> Settled(dag, order, ids[j])
    requires |temps| == |order|
    ensures |vs| == |ids|
    ensures forall j :: 0 <= j < |ids| ==> vs[j] == Read(dag, env, order, temps, ids[j])
  {
    if ids == [] then [] else [Read(dag, env, order, temps, ids[0])] + ReadAll(dag, env, order, temps, ids[1..])
  }

  /** The rendered function body: one assignment per temporary, in list order. */
  ghost function Temps(dag: Dag, fns: seq<FpFn>, env: map<string, nat>, order: seq<nat>, depth: nat): (ts: seq<nat>)
    requires Acyclic(dag) && WfFns(dag, fns) && WfOrder(dag, order) && depth <= MAX_CALL_DEPTH
    ensures |ts| == |order|
  {
    if order == [] then []
    else
      var k := |order| - 1;
      assert OrderedAt(dag, order, k);
      WfPrefix(dag, order, k);
      var ts := Temps(dag, fns, env, order[..k], depth);
      var vs := ReadAll(dag, env, order[..k], ts, dag[order[k]].kind.Operands());
      ts + [StepValue(dag, fns, order[k], vs, depth)]
  }

  lemma WfPrefix(dag: Dag, order: seq<nat>, k: nat)
    requires WfOrder(dag, order) && k <= |order|
    ensures WfOrder(dag, order[..k])
  {
    forall i | 0 <= i < k ensures OrderedAt(dag, order[..k], i) {
      assert OrderedAt(dag, order, i);
      assert order[..k][..i] == order[..i];
    }
  }

  /** Each temporary holds the interpreter's value of its node. */
  ghost predicate HoldsValues(dag: Dag, fns: seq<FpFn>, env: map<string, nat>, order: seq<nat>, depth: nat, ts: seq<nat>)
    requires Acyclic(dag) && WfFns(dag, fns) && depth <= MAX_CALL_DEPTH
  {
    |ts| == |order|
    && forall i :: 0 <= i < |order| ==> order[i] < |dag| && Eval(dag, fns, env, order[i], depth) == Some(ts[i])
  }

  ghost predicate AllResolve(dag: Dag, fns: seq<FpFn>, names: set<string>, ids: seq<nat>, depth: nat)
    requires Acyclic(dag) && WfFns(dag, fns) && depth <= MAX_CALL_DEPTH
  {
    forall i :: 0 <= i < |ids| ==> ids[i] < |dag| && Resolves(dag, fns, names, ids[i], depth)
  }

  lemma {:induction false} TempsAreValues(dag: Dag, fns: seq<FpFn>, env: map<string, nat>, order: seq<nat>, depth: nat)
    requires Acyclic(dag) && WfFns(dag, fns) && WfOrder(dag, order) && depth <= MAX_CALL_DEPTH
    requires AllResolve(dag, fns, env.Keys, order, depth)
    ensures HoldsValues(dag, fns, env, order, depth, Temps(dag, fns, env, order, depth))
    decreases |order|
  {
    hide Eval, Resolves, StepValue, ReadAll, WfOrder;
    if order != [] {
      var k := |order| - 1;
      WfPrefix(dag, order, k);
      TempsAreValues(dag, fns, env, order[..k], depth);
      LastTemp(dag, fns, env, order, depth);
    }
  }

  lemma LastTemp(dag: Dag, fns: seq<FpFn>, env: map<string, nat>, order: seq<nat>, depth: nat)
    requires Acyclic(dag) && WfFns(dag, fns) && WfOrder(dag, order) && depth <= MAX_CALL_DEPTH && order != []
    requires var k := |order| - 1; order[k] < |dag| && Resolves(dag, fns, env.Keys, order[k], depth)
    requires WfOrder(dag, order[..|order| - 1])
    requires HoldsValues(dag, fns, env, order[..|order| - 1], depth, Temps(dag, fns, env, order[..|order| - 1], depth))
    ensures HoldsValues(dag, fns, env, order, depth, Temps(dag, fns, env, order, depth))
  {
    hide Low, StepValue, Eval;
    var k := |order| - 1;
    var b := order[k];
    assert OrderedAt(dag, order, k);
    OperandsBelow(dag[b].kind, b);
    var ops := dag[b].kind.Operands();
    var ts := Temps(dag, fns, env, order[..k], depth);
    var vs := ReadAll(dag, env, order[..k], ts, ops);
    var ws := Values(dag, fns, env, ops, depth);
    forall j | 0 <= j < |ops| ensures vs[j] == ws[j] {
      ReadIsValue(dag, fns, env, order[..k], ts, ops[j], depth);
    }
    assert vs == ws;
    ValueIsStep(dag, fns, env, b, depth);
    HoldsSnoc(dag, fns, env, order, depth, ts, StepValue(dag, fns, b, vs, depth));
  }

  lemma HoldsSnoc(dag: Dag, fns: seq<FpFn>, env: map<string, nat>, order: seq<nat>, depth: nat, ts: seq<nat>, v: nat)
    requires Acyclic(dag) && WfFns(dag, fns) && depth <= MAX_CALL_DEPTH && order != []
    requires HoldsValues(dag, fns, env, order[..|order| - 1], depth, ts)
    requires order[|order| - 1] < |dag| && Eval(dag, fns, env, order[|order| - 1], depth) == Some(v)
    ensures HoldsValues(dag, fns, env, order, depth, ts + [v])
  {
    hide Eval;
    forall i | 0 <= i < |order| ensures order[i] < |dag| && Eval(dag, fns, env, order[i], depth) == Some((ts + [v])[i]) {
      if i < |order| - 1 {
        assert order[..|order| - 1][i] == order[i];
      }
    }
  }

  lemma ReadIsValue(dag: Dag, fns: seq<FpFn>, env: map<string, nat>, order: seq<nat>, ts: seq<nat>, b: nat, depth: nat)
    requires Acyclic(dag) && WfFns(dag, fns) && depth <= MAX_CALL_DEPTH
    requires Settled(dag, order, b) && Resolves(dag, fns, env.Keys, b, depth)
    requires HoldsValues(dag, fns, env, order, depth, ts)
    ensures Read(dag, env, order, ts, b) == Value(dag, fns, env, b, depth)
  {
    hide Low, Meaning;
    if !dag[b].kind.IsLeaf() {
      hide Eval;
      assert order[IdOf(order, b)] == b;
    }
  }

  /** Resolution is inherited by every node of the expression. */
  lemma {:induction false} ResolvesInside(dag: Dag, fns: seq<FpFn>, names: set<string>, b: nat, n: nat, depth: nat)
    requires Acyclic(dag) && WfFns(dag, fns) && b < |dag| && depth <= MAX_CALL_DEPTH
    requires Resolves(dag, fns, names, b, depth) && Reaches(dag, b, n)
    ensures n < |dag| && Resolves(dag, fns, names, n, depth)
    decreases b
  {
    OperandsBelow(dag[b].kind, b);
    if b != n {
      var ops := dag[b].kind.Operands();
      var j :| 0 <= j < |ops| && Reaches(dag, ops[j], n);
      ResolvesInside(dag, fns, names, ops[j], n, depth);
    }
  }

  /** Linearised and interpreted results agree: reading the body after running its temporaries in order
      gives the interpreter's value, for every resolved body and every environment. */
  lemma LinearizationPreservesMeaning(dag: Dag, fns: seq<FpFn>, env: map<string, nat>, b: nat, order: seq<nat>, depth: nat)
    requires Acyclic(dag) && WfFns(dag, fns) && b < |dag| && depth <= MAX_CALL_DEPTH
    requires Resolves(dag, fns, env.Keys, b, depth) && IsLinearization(dag, b, order)
    ensures Settled(dag, order, b)
    ensures Eval(dag, fns, env, b, depth) == Some(Read(dag, env, order, Temps(dag, fns, env, order, depth), b))
  {
    hide Eval, Resolves, Temps, Read;
    forall i | 0 <= i < |order|
      ensures order[i] < |dag| && Resolves(dag, fns, env.Keys, order[i], depth)
    {
      assert order[i] in order;
      ResolvesInside(dag, fns, env.Keys, b, order[i], depth);
    }
    TempsAreValues(dag, fns, env, order, depth);
    ResolvedEvaluates(dag, fns, env, b, depth);
    ReadIsValue(dag, fns, env, order, Temps(dag, fns, env, order, depth), b, depth);
  }
}
