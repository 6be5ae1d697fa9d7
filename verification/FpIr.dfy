/** The bit-vector expression DAG of src/fp_ir.rs and its concrete interpreter.

    A DAG is a store of nodes; a node's id plays the role of its reference-counted pointer, and
    operands have smaller ids than the node that uses them. */
module FpIr {
  import opened BitVec
  import opened Wrappers

  datatype Bin = Add | Sub | Mul | And | Or | Xor | Shl | Lshr

  datatype Cmp = Eq | Ne | Ult | Ule | Ugt | Uge | Slt | Sle | Sgt | Sge

  datatype Kind =
    | Var(name: string)
    | Const(val: nat)
    | Extract(x: nat, hi: nat, lo: nat)
    | Concat(a: nat, b: nat)
    | ZeroExt(x: nat, to: nat)
    | BinOp(bin: Bin, a: nat, b: nat)
    | Not(x: nat)
    | Ite(c: nat, t: nat, e: nat)
    | CmpOp(cmp: Cmp, a: nat, b: nat)
    | Call(name: string, args: seq<nat>)
  {
    predicate IsLeaf() { Var? || Const? }

    /** Operand ids, in the order every renderer and walker visits them. */
    function Operands(): seq<nat> {
      match this
      case Var(_) => []
      case Const(_) => []
      case Extract(x, _, _) => [x]
      case Concat(a, b) => [a, b]
      case ZeroExt(x, _) => [x]
      case BinOp(_, a, b) => [a, b]
      case Not(x) => [x]
      case Ite(c, t, e) => [c, t, e]
      case CmpOp(_, a, b) => [a, b]
      case Call(_, args) => args
    }

    /** Every operand id lies below `bound`. */
    ghost predicate Below(bound: nat) {
      match this
      case Var(_) => true
      case Const(_) => true
      case Extract(x, _, _) => x < bound
      case Concat(a, b) => a < bound && b < bound
      case ZeroExt(x, _) => x < bound
      case BinOp(_, a, b) => a < bound && b < bound
      case Not(x) => x < bound
      case Ite(c, t, e) => c < bound && t < bound && e < bound
      case CmpOp(_, a, b) => a < bound && b < bound
      case Call(_, args) => AllBelow(args, bound)
    }
  }

  ghost predicate AllBelow(ids: seq<nat>, bound: nat) {
    forall j :: 0 <= j < |ids| ==> ids[j] < bound
  }

  lemma OperandsBelow(k: Kind, bound: nat)
    ensures k.Below(bound) <==> AllBelow(k.Operands(), bound)
  {
    var ops := k.Operands();
    match k
    case Var(_) =>
    case Const(_) =>
    case Call(_, _) =>
    case Ite(c, t, e) => assert ops[0] == c && ops[1] == t && ops[2] == e;
    case Concat(a, b) => assert ops[0] == a && ops[1] == b;
    case BinOp(_, a, b) => assert ops[0] == a && ops[1] == b;
    case CmpOp(_, a, b) => assert ops[0] == a && ops[1] == b;
    case Extract(x, _, _) => assert ops[0] == x;
    case ZeroExt(x, _) => assert ops[0] == x;
    case Not(x) => assert ops[0] == x;
  }

  datatype Node = Node(width: nat, kind: Kind)

  type Dag = seq<Node>

  datatype FpFn = FpFn(name: string, params: seq<(string, nat)>, retW: nat, body: nat)

  const MAX_CALL_DEPTH: nat := 64

  /** What the node constructors check of a node whose operands are already in the store. */
  ghost predicate WfNode(dag: Dag, n: Node)
    requires n.kind.Below(|dag|)
  {
    n.width >= 1 &&
    match n.kind
    case Var(_) => true
    case Const(_) => true
    case Extract(x, hi, lo) => lo <= hi < dag[x].width && n.width == hi - lo + 1
    case Concat(a, b) => n.width == dag[a].width + dag[b].width
    case ZeroExt(x, to) => n.width == to && dag[x].width <= to
    case BinOp(_, a, b) => dag[a].width == dag[b].width == n.width
    case Not(x) => dag[x].width == n.width
    case Ite(c, t, e) => dag[c].width == 1 && dag[t].width == dag[e].width == n.width
    case CmpOp(_, a, b) => dag[a].width == dag[b].width && n.width == 1
    case Call(_, _) => true
  }

  ghost predicate Acyclic(dag: Dag) {
    forall i :: 0 <= i < |dag| ==> dag[i].kind.Below(i)
  }

  ghost predicate WfDag(dag: Dag) {
    Acyclic(dag) && forall i :: 0 <= i < |dag| ==> dag[i].kind.Below(|dag|) && WfNode(dag, dag[i])
  }

  ghost predicate WfFns(dag: Dag, fns: seq<FpFn>) {
    forall i :: 0 <= i < |fns| ==> fns[i].body < |dag|
  }

  function Find(fns: seq<FpFn>, name: string): (r: Option<FpFn>)
    ensures r.Some? ==> r.value in fns && r.value.name == name
    ensures r.None? ==> forall f :: f in fns ==> f.name != name
  {
    if fns == [] then None
    else if fns[0].name == name then Some(fns[0])
    else Find(fns[1..], name)
  }

  // ---- Bit-vector meaning of one operation -------------------------------------------------

  /** Two's-complement reading of a w-bit value. */
  function Signed(v: nat, w: nat): int {
    if w > 0 && v >= Pow2(w - 1) then v - Pow2(w) else v
  }

  predicate Holds(op: Cmp, x: nat, y: nat, w: nat) {
    match op
    case Eq => x == y
    case Ne => x != y
    case Ult => x < y
    case Ule => x <= y
    case Ugt => x > y
    case Uge => x >= y
    case Slt => Signed(x, w) < Signed(y, w)
    case Sle => Signed(x, w) <= Signed(y, w)
    case Sgt => Signed(x, w) > Signed(y, w)
    case Sge => Signed(x, w) >= Signed(y, w)
  }

  function BinMeaning(op: Bin, w: nat, x: nat, y: nat): nat {
    match op
    case Add => Low(x + y, w)
    case Sub => Low(x + Pow2(w) - Low(y, w), w)
    case Mul => Low(x * y, w)
    case And => Low(Bitwise(AndBits, x, y), w)
    case Or => Low(Bitwise(OrBits, x, y), w)
    case Xor => Low(Bitwise(XorBits, x, y), w)
    case Shl => Low(Up(x, y), w)
    case Lshr => Low(Down(x, y), w)
  }

  /** The value the operation of node `n` denotes, given its operands' values: arithmetic modulo
      2^width, as the bit-vector theories behind every renderer define it. */
  ghost function Meaning(dag: Dag, n: Node, vs: seq<nat>): nat
    requires !n.kind.IsLeaf() && !n.kind.Call?
    requires n.kind.Below(|dag|)
    requires |vs| == |n.kind.Operands()|
  {
    var w := n.width;
    match n.kind
    case Extract(_, _, lo) => Low(Down(vs[0], lo), w)
    case Concat(_, b) => Up(vs[0], dag[b].width) + vs[1]
    case ZeroExt(_, _) => vs[0]
    case Not(_) => Pow2(w) - 1 - Low(vs[0], w)
    case BinOp(op, _, _) => BinMeaning(op, w, vs[0], vs[1])
    case Ite(_, _, _) => if vs[0] % 2 == 1 then vs[1] else vs[2]
    case CmpOp(op, a, _) => if Holds(op, vs[0], vs[1], dag[a].width) then 1 else 0
  }

  // ---- Specification of the interpreter ------------------------------------------------------

  /** The value of node `b`, or None when it cannot be decided: an unbound variable, an unknown or
      mismatched call, a node wider than 128 bits, or calls nested deeper than the budget. Only the
      selected arm of a conditional is looked at. */
  ghost function Eval(dag: Dag, fns: seq<FpFn>, env: map<string, nat>, b: nat, depth: nat): Option<nat>
    requires Acyclic(dag) && WfFns(dag, fns) && b < |dag| && depth <= MAX_CALL_DEPTH
    decreases MAX_CALL_DEPTH - depth, b + 1, 0
  {
    var n := dag[b];
    if n.width > 128 then None
    else match n.kind
      case Var(name) => if name in env then Some(env[name]) else None
      case Const(val) => Some(Low(val, n.width))
      case Ite(c, t, e) =>
        var cv := Eval(dag, fns, env, c, depth);
        if cv.None? then None
        else if cv.value % 2 == 1 then Eval(dag, fns, env, t, depth)
        else Eval(dag, fns, env, e, depth)
      case Call(name, args) =>
        var f := Find(fns, name);
        if depth >= MAX_CALL_DEPTH || f.None? || |f.value.params| != |args| then None
        else
          var child := EvalArgs(dag, fns, env, f.value.params, args, b, depth);
          if child.None? then None else Eval(dag, fns, child.value, f.value.body, depth + 1)
      case _ =>
        OperandsBelow(n.kind, b);
        OperandsBelow(n.kind, |dag|);
        var vs := EvalAll(dag, fns, env, n.kind.Operands(), b, depth);
        if vs.None? then None else Some(Meaning(dag, n, vs.value))
  }

  ghost function EvalAll(dag: Dag, fns: seq<FpFn>, env: map<string, nat>, ids: seq<nat>, b: nat, depth: nat)
    : (r: Option<seq<nat>>)
    requires Acyclic(dag) && WfFns(dag, fns) && b < |dag| && depth <= MAX_CALL_DEPTH
    requires AllBelow(ids, b)
    ensures r.Some? ==> |r.value| == |ids|
    decreases MAX_CALL_DEPTH - depth, b, |ids| + 1
  {
    if ids == [] then Some([])
    else
      var v := Eval(dag, fns, env, ids[0], depth);
      if v.None? then None
      else
        var vs := EvalAll(dag, fns, env, ids[1..], b, depth);
        if vs.None? then None else Some([v.value] + vs.value)
  }

  /** Binds a callee's parameters to the call site's argument values; None on a width mismatch. */
  ghost function EvalArgs(dag: Dag, fns: seq<FpFn>, env: map<string, nat>, params: seq<(string, nat)>, args: seq<nat>,
                    b: nat, depth: nat)
    : (r: Option<map<string, nat>>)
    requires Acyclic(dag) && WfFns(dag, fns) && b < |dag| && depth <= MAX_CALL_DEPTH
    requires AllBelow(args, b)
    requires |params| == |args|
    decreases MAX_CALL_DEPTH - depth, b, |args| + 1
  {
    if args == [] then Some(map[])
    else
      var k := |args| - 1;
      var rest := EvalArgs(dag, fns, env, params[..k], args[..k], b, depth);
      if rest.None? || dag[args[k]].width != params[k].1 then None
      else
        var v := Eval(dag, fns, env, args[k], depth);
        if v.None? then None else Some(rest.value[params[k].0 := v.value])
  }
}
