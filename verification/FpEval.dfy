/** The memoised concrete interpreter of src/fp_ir.rs: its 128-bit host arithmetic denotes the
    bit-vector operations, and the memo table never changes a result. */
module FpEval {
  import opened BitVec
  import opened Wrappers
  import opened FpIr
  import opened FpOps

  // ---- Host arithmetic on 128-bit words ------------------------------------------------------

  /** Bits in a host word. */
  function WordBits(): nat { 128 }

  function WordMask(w: nat): (m: nat)
    ensures m < Pow2(WordBits())
  {
    hide Pow2;
    Pow2Monotone(if w < WordBits() then w else WordBits(), WordBits());
    if w >= WordBits() then Pow2(WordBits()) - 1 else Pow2(w) - 1
  }

  function WordShl(x: nat, y: nat): nat { Low(Up(x, y), WordBits()) }

  function WordNot(x: nat): nat {
    Pow2(WordBits()) - 1 - Low(x, WordBits())
  }

  function AsSignedWord(x: nat): int {
    if x >= Pow2(WordBits() - 1) then x - Pow2(WordBits()) else x
  }

  /** Sign extension by or-ing in the complement of the mask. */
  function WordSext(v: nat, w: nat): int {
    hide Pow2, Bitwise, WordMask;
    if w == 0 || w >= WordBits() || Bitwise(AndBits, Down(v, w - 1), 1) == 0 then AsSignedWord(v)
    else AsSignedWord(Bitwise(OrBits, v, Pow2(WordBits()) - 1 - WordMask(w)))
  }

  function WordBin(op: Bin, w: nat, x: nat, y: nat): nat {
    var r := match op
      case Add => Low(x + y, WordBits())
      case Sub => Low(x + Pow2(WordBits()) - Low(y, WordBits()), WordBits())
      case Mul => Low(x * y, WordBits())
      case And => Bitwise(AndBits, x, y)
      case Or => Bitwise(OrBits, x, y)
      case Xor => Bitwise(XorBits, x, y)
      case Shl => if y >= WordBits() then 0 else WordShl(x, y)
      case Lshr => if y >= WordBits() then 0 else Down(x, y);
    Bitwise(AndBits, r, WordMask(w))
  }

  predicate WordCmp(op: Cmp, x: nat, y: nat, w: nat) {
    match op
    case Eq => x == y
    case Ne => x != y
    case Ult => x < y
    case Ule => x <= y
    case Ugt => x > y
    case Uge => x >= y
    case Slt => WordSext(x, w) < WordSext(y, w)
    case Sle => WordSext(x, w) <= WordSext(y, w)
    case Sgt => WordSext(x, w) > WordSext(y, w)
    case Sge => WordSext(x, w) >= WordSext(y, w)
  }

  /** The value the interpreter computes for node `n` from its operands' values. */
  function WordOp(dag: Dag, n: Node, vs: seq<nat>): nat
    requires !n.kind.IsLeaf() && !n.kind.Call?
    requires n.kind.Below(|dag|)
    requires |vs| == |n.kind.Operands()|
  {
    var w := n.width;
    match n.kind
    case Extract(_, _, lo) => Bitwise(AndBits, Down(vs[0], lo), WordMask(w))
    case Concat(_, b) => Bitwise(OrBits, WordShl(vs[0], dag[b].width), vs[1])
    case ZeroExt(_, _) => vs[0]
    case Not(_) => Bitwise(AndBits, WordNot(vs[0]), WordMask(w))
    case BinOp(op, _, _) => WordBin(op, w, vs[0], vs[1])
    case Ite(_, _, _) => if Bitwise(AndBits, vs[0], 1) == 1 then vs[1] else vs[2]
    case CmpOp(op, a, _) => if WordCmp(op, vs[0], vs[1], dag[a].width) then 1 else 0
  }

  // ---- Host arithmetic denotes the bit-vector operations ---------------------------------------

  lemma MaskIsLow(x: nat, w: nat)
    requires w <= WordBits()
    ensures Bitwise(AndBits, x, WordMask(w)) == Low(x, w)
  {
    hide Pow2, Bitwise, Low;
    AndMask(x, w);
  }

  lemma LowBit(x: nat)
    ensures Bitwise(AndBits, x, 1) == x % 2
  {
    AndMask(x, 1);
    assert Pow2(1) == 2 * Pow2(0) == 2;
  }

  /** A w-bit value's top bit is its quotient by 2^(w-1). */
  lemma TopBit(v: nat, w: nat)
    requires w > 0 && v < Pow2(w)
    ensures Down(v, w - 1) == if v >= Pow2(w - 1) then 1 else 0
  {
    hide Pow2;
    var h := Pow2(w - 1);
    Pow2Step(w);
    if v >= h {
      DivModUnique(v, h, 1, v - h);
    } else {
      DivModUnique(v, h, 0, v);
    }
  }

  /** The interpreter's sign extension is the two's-complement reading, at every width. */
  lemma SextIsSigned(v: nat, w: nat)
    requires 1 <= w <= WordBits() && v < Pow2(w)
    ensures WordSext(v, w) == Signed(v, w)
  {
    hide Pow2, Bitwise, Down;
    TopBit(v, w);
    LowBit(Down(v, w - 1));
    Pow2Step(WordBits());
    if w < WordBits() {
      Pow2Monotone(w, WordBits() - 1);
      if v >= Pow2(w - 1) {
        SextBit(v, w, WordBits());
      }
    }
  }

  lemma SextBit(v: nat, w: nat, h: nat)
    requires 1 <= w < h && v < Pow2(w)
    ensures Pow2(h) >= Pow2(w)
    ensures Bitwise(OrBits, v, Pow2(h) - Pow2(w)) == v + Pow2(h) - Pow2(w) >= Pow2(h - 1)
  {
    hide Pow2, Bitwise;
    MultipleBelow(w, h);
    Pow2Step(h);
    Pow2Monotone(w, h - 1);
    var k := Pow2(h - w) - 1;
    assert Up(k, w) == Pow2(h) - Pow2(w);
    BitwiseSymmetric(OrBits, v, Up(k, w));
    OrShifted(k, v, w);
  }

  /** 2^h - 2^w is a multiple of 2^w. */
  lemma MultipleBelow(w: nat, h: nat)
    requires w <= h
    ensures (Pow2(h - w) - 1) * Pow2(w) == Pow2(h) - Pow2(w)
  {
    hide Pow2;
    Pow2Add(h - w, w);
    MulDistribute(Pow2(h - w), -1, Pow2(w));
  }

  /** Shifting a w-bit value by at least w positions leaves nothing, on either side. */
  lemma ShiftedOut(x: nat, y: nat, w: nat)
    requires x < Pow2(w) && w <= y
    ensures Down(x, y) == 0
    ensures Low(Up(x, y), w) == 0
  {
    hide Pow2;
    Pow2Monotone(w, y);
    DivModUnique(x, Pow2(y), 0, x);
    Pow2Add(y - w, w);
    MulAssociate(x, Pow2(y - w), Pow2(w));
    LowUnique(Up(x, y), x * Pow2(y - w), 0, w);
  }

  lemma MulAssociate(a: int, b: int, c: int)
    ensures a * (b * c) == (a * b) * c
  {
  }

  /** Adding a multiple of 2^w changes no low bits. */
  lemma LowOfShifted(x: nat, z: nat, k: int, w: nat)
    requires x == k * Pow2(w) + z
    ensures Low(x, w) == Low(z, w)
  {
    hide Pow2;
    var m := Pow2(w);
    assert z == m * (z / m) + z % m;
    MulDistribute(k, z / m, m);
    LowUnique(x, k + z / m, z % m, w);
  }

  lemma SubIsLow(x: nat, y: nat, w: nat, h: nat)
    requires w <= h && x < Pow2(w) && y < Pow2(w)
    ensures Low(y, h) <= Pow2(h) && Low(y, w) <= Pow2(w)
    ensures Low(Low(x + Pow2(h) - Low(y, h), h), w) == Low(x + Pow2(w) - Low(y, w), w)
  {
    hide Pow2, Low;
    Pow2Monotone(w, h);
    LowOfSmall(y, h);
    LowOfSmall(y, w);
    LowOfLow(x + Pow2(h) - y, w, h);
    MultipleBelow(w, h);
    LowOfShifted(x + Pow2(h) - y, x + Pow2(w) - y, Pow2(h - w) - 1, w);
  }

  lemma WordBinIsMeaning(op: Bin, w: nat, x: nat, y: nat)
    requires 1 <= w <= WordBits() && x < Pow2(w) && y < Pow2(w)
    ensures WordBin(op, w, x, y) == BinMeaning(op, w, x, y)
  {
    hide Pow2, Bitwise, WordMask, Low, Up, Down;
    match op
    case Add => MaskIsLow(Low(x + y, WordBits()), w); LowOfLow(x + y, w, WordBits());
    case Sub => SubIsLow(x, y, w, WordBits()); MaskIsLow(Low(x + Pow2(WordBits()) - Low(y, WordBits()), WordBits()), w);
    case Mul => MaskIsLow(Low(x * y, WordBits()), w); LowOfLow(x * y, w, WordBits());
    case And => MaskIsLow(Bitwise(AndBits, x, y), w);
    case Or => MaskIsLow(Bitwise(OrBits, x, y), w);
    case Xor => MaskIsLow(Bitwise(XorBits, x, y), w);
    case Shl =>
      if y >= WordBits() {
        ShiftedOut(x, y, w);
        ZeroLow(w);
      } else {
        MaskIsLow(WordShl(x, y), w);
        LowOfLow(Up(x, y), w, WordBits());
      }
    case Lshr =>
      if y >= WordBits() {
        ShiftedOut(x, y, w);
        ZeroLow(w);
      } else {
        MaskIsLow(Down(x, y), w);
      }
  }

  lemma ZeroLow(w: nat)
    requires w <= WordBits()
    ensures Bitwise(AndBits, 0, WordMask(w)) == 0 && Low(0, w) == 0
  {
    hide Pow2, Bitwise;
    MaskIsLow(0, w);
    LowOfSmall(0, w);
  }

  lemma ConcatFits(x: nat, y: nat, a: nat, b: nat)
    requires x < Pow2(a) && y < Pow2(b)
    ensures Up(x, b) + y < Pow2(a + b)
  {
    hide Pow2;
    Pow2Add(a, b);
    MulMonotone(x, Pow2(a) - 1, Pow2(b));
    MulDistribute(Pow2(a), -1, Pow2(b));
  }

  lemma NotIsComplement(x: nat, w: nat, h: nat)
    requires w <= h && x < Pow2(w)
    ensures Pow2(w) <= Pow2(h)
    ensures Low(Pow2(h) - 1 - x, w) == Pow2(w) - 1 - Low(x, w)
  {
    hide Pow2, Low;
    Pow2Monotone(w, h);
    LowOfSmall(x, w);
    MultipleBelow(w, h);
    LowUnique(Pow2(h) - 1 - x, Pow2(h - w) - 1, Pow2(w) - 1 - x, w);
  }

  lemma ConcatIsOr(x: nat, y: nat, a: nat, b: nat)
    requires x < Pow2(a) && y < Pow2(b) && a + b <= WordBits()
    ensures Bitwise(OrBits, WordShl(x, b), y) == Up(x, b) + y
  {
    hide Pow2, Bitwise, Low, Up;
    ConcatFits(x, y, a, b);
    Pow2Monotone(a + b, WordBits());
    LowOfSmall(Up(x, b), WordBits());
    OrShifted(x, y, b);
  }

  /** The host computes the bit-vector meaning of every operation, for every width up to 128. */
  lemma WordOpIsMeaning(dag: Dag, n: Node, vs: seq<nat>)
    requires !n.kind.IsLeaf() && !n.kind.Call?
    requires n.kind.Below(|dag|) && WfNode(dag, n) && n.width <= WordBits()
    requires AllBelow(n.kind.Operands(), |dag|) && Fits(dag, n.kind.Operands(), vs)
    requires n.kind.CmpOp? ==> 1 <= dag[n.kind.a].width <= WordBits()
    ensures WordOp(dag, n, vs) == Meaning(dag, n, vs)
  {
    hide Pow2, Bitwise, WordMask, WordBin, BinMeaning, WordSext, Signed, Low, Up, Down;
    var ops := n.kind.Operands();
    match n.kind
    case Extract(_, _, lo) => MaskIsLow(Down(vs[0], lo), n.width);
    case Concat(a, b) =>
      assert ops[0] == a && ops[1] == b;
      ConcatIsOr(vs[0], vs[1], dag[a].width, dag[b].width);
    case ZeroExt(_, _) =>
    case Not(x) =>
      assert ops[0] == x;
      NotIsComplement(vs[0], n.width, WordBits());
      LowOfSmall(vs[0], WordBits());
      MaskIsLow(Pow2(WordBits()) - 1 - vs[0], n.width);
    case BinOp(op, a, b) =>
      assert ops[0] == a && ops[1] == b;
      WordBinIsMeaning(op, n.width, vs[0], vs[1]);
    case Ite(_, _, _) => LowBit(vs[0]);
    case CmpOp(op, a, b) =>
      assert ops[0] == a && ops[1] == b;
      SextIsSigned(vs[0], dag[a].width);
      SextIsSigned(vs[1], dag[a].width);
  }

  // ---- Typing -----------------------------------------------------------------------------------

  /** Parameter widths by name. */
  function ParamTypes(params: seq<(string, nat)>): map<string, nat> {
    if params == [] then map[]
    else
      var k := |params| - 1;
      ParamTypes(params[..k])[params[k].0 := params[k].1]
  }

  ghost predicate EnvFits(env: map<string, nat>, ty: map<string, nat>) {
    forall n :: n in env ==> n in ty && env[n] < Pow2(ty[n])
  }

  /** Every variable reachable from `b` that `ty` knows is used at the width `ty` gives it. */
  ghost predicate VarsTyped(dag: Dag, b: nat, ty: map<string, nat>)
    requires Acyclic(dag) && b < |dag|
    decreases b
  {
    OperandsBelow(dag[b].kind, b);
    match dag[b].kind
    case Var(n) => n in ty ==> ty[n] == dag[b].width
    case _ => forall j :: 0 <= j < |dag[b].kind.Operands()| ==> VarsTyped(dag, dag[b].kind.Operands()[j], ty)
  }

  ghost predicate AllTyped(dag: Dag, ids: seq<nat>, ty: map<string, nat>)
    requires Acyclic(dag) && AllBelow(ids, |dag|)
  {
    forall j :: 0 <= j < |ids| ==> VarsTyped(dag, ids[j], ty)
  }

  /** A function's body has its declared return width and uses its parameters at their widths. */
  ghost predicate WfFn(dag: Dag, f: FpFn)
    requires Acyclic(dag) && f.body < |dag|
  {
    f.retW == dag[f.body].width && VarsTyped(dag, f.body, ParamTypes(f.params))
  }

  ghost predicate CallsTyped(dag: Dag, fns: seq<FpFn>) {
    forall i :: 0 <= i < |dag| && dag[i].kind.Call? && Find(fns, dag[i].kind.name).Some?
      ==> Find(fns, dag[i].kind.name).value.retW == dag[i].width
  }

  ghost predicate WfProgram(dag: Dag, fns: seq<FpFn>) {
    Acyclic(dag) && WfDag(dag) && WfFns(dag, fns) && CallsTyped(dag, fns)
    && forall i :: 0 <= i < |fns| ==> WfFn(dag, fns[i])
  }

  lemma OperandsTyped(dag: Dag, b: nat, ty: map<string, nat>)
    requires Acyclic(dag) && b < |dag| && VarsTyped(dag, b, ty) && !dag[b].kind.IsLeaf()
    ensures dag[b].kind.Below(b) && AllBelow(dag[b].kind.Operands(), b)
    ensures AllTyped(dag, dag[b].kind.Operands(), ty)
  {
    OperandsBelow(dag[b].kind, b);
  }

  lemma BinFits(op: Bin, w: nat, x: nat, y: nat)
    ensures BinMeaning(op, w, x, y) < Pow2(w)
  {
    hide Pow2, Low, Bitwise;
  }

  /** The result of an operation fits the width of its node. */
  lemma MeaningFits(dag: Dag, n: Node, vs: seq<nat>)
    requires !n.kind.IsLeaf() && !n.kind.Call?
    requires n.kind.Below(|dag|) && WfNode(dag, n)
    requires AllBelow(n.kind.Operands(), |dag|) && Fits(dag, n.kind.Operands(), vs)
    ensures Meaning(dag, n, vs) < Pow2(n.width)
  {
    hide Pow2, Bitwise, BinMeaning, Holds, Low, Up, Down;
    var ops := n.kind.Operands();
    match n.kind
    case Extract(_, _, lo) =>
    case Concat(a, b) =>
      assert ops[0] == a && ops[1] == b;
      ConcatFits(vs[0], vs[1], dag[a].width, dag[b].width);
    case ZeroExt(x, to) =>
      assert ops[0] == x;
      Pow2Monotone(dag[x].width, to);
    case Not(x) =>
    case BinOp(op, a, b) => BinFits(op, n.width, vs[0], vs[1]);
    case Ite(c, t, e) => assert ops[1] == t && ops[2] == e;
    case CmpOp(op, a, b) =>
      Pow2Step(1);
      Pow2Monotone(0, 0);
      LowZero(0);
  }

  /** Whatever the interpreter decides fits the width of the node it decides. */
  lemma {:induction false} EvalFits(dag: Dag, fns: seq<FpFn>, env: map<string, nat>, ty: map<string, nat>, b: nat,
                                    depth: nat)
    requires WfProgram(dag, fns) && b < |dag| && depth <= MAX_CALL_DEPTH
    requires VarsTyped(dag, b, ty) && EnvFits(env, ty)
    ensures var r := Eval(dag, fns, env, b, depth);
            r.Some? ==> dag[b].width <= WordBits() && r.value < Pow2(dag[b].width)
    decreases MAX_CALL_DEPTH - depth, b + 1, 0
  {
    hide Pow2, Bitwise, Low, Up, Down, Meaning;
    var n := dag[b];
    if n.width <= 128 {
      match n.kind
      case Var(name) =>
      case Const(val) =>
      case Ite(c, t, e) =>
        OperandsTyped(dag, b, ty);
        var ops := n.kind.Operands();
        assert ops[0] == c && ops[1] == t && ops[2] == e;
        EvalFits(dag, fns, env, ty, t, depth);
        EvalFits(dag, fns, env, ty, e, depth);
      case Call(name, args) =>
        CallFits(dag, fns, env, ty, b, depth);
      case _ =>
        OperandsTyped(dag, b, ty);
        EvalAllFits(dag, fns, env, ty, n.kind.Operands(), b, depth);
        OpFits(dag, fns, env, b, depth);
    }
  }

  lemma OpFits(dag: Dag, fns: seq<FpFn>, env: map<string, nat>, b: nat, depth: nat)
    requires WfProgram(dag, fns) && b < |dag| && depth <= MAX_CALL_DEPTH
    requires !dag[b].kind.IsLeaf() && !dag[b].kind.Call? && !dag[b].kind.Ite?
    requires AllBelow(dag[b].kind.Operands(), b)
    requires var vs := EvalAll(dag, fns, env, dag[b].kind.Operands(), b, depth);
             vs.Some? ==> Fits(dag, dag[b].kind.Operands(), vs.value)
    ensures var r := Eval(dag, fns, env, b, depth); r.Some? ==> r.value < Pow2(dag[b].width)
  {
    hide Pow2, Bitwise, Low, Up, Down, Meaning, EvalAll;
    OperandsBelow(dag[b].kind, |dag|);
    var vs := EvalAll(dag, fns, env, dag[b].kind.Operands(), b, depth);
    if vs.Some? {
      MeaningFits(dag, dag[b], vs.value);
    }
  }

  lemma {:induction false} CallFits(dag: Dag, fns: seq<FpFn>, env: map<string, nat>, ty: map<string, nat>, b: nat,
                                    depth: nat)
    requires WfProgram(dag, fns) && b < |dag| && depth <= MAX_CALL_DEPTH
    requires VarsTyped(dag, b, ty) && EnvFits(env, ty) && dag[b].kind.Call?
    ensures var r := Eval(dag, fns, env, b, depth); r.Some? ==> r.value < Pow2(dag[b].width)
    decreases MAX_CALL_DEPTH - depth, b, |dag[b].kind.args| + 2
  {
    hide Pow2, EvalArgs;
    OperandsTyped(dag, b, ty);
    var f := Find(fns, dag[b].kind.name);
    if f.Some? && |f.value.params| == |dag[b].kind.args| && depth < MAX_CALL_DEPTH {
      EvalArgsFits(dag, fns, env, ty, f.value.params, dag[b].kind.args, b, depth);
      var child := EvalArgs(dag, fns, env, f.value.params, dag[b].kind.args, b, depth);
      if child.Some? {
        EvalFits(dag, fns, child.value, ParamTypes(f.value.params), f.value.body, depth + 1);
      }
    }
  }

  lemma {:induction false} EvalAllFits(dag: Dag, fns: seq<FpFn>, env: map<string, nat>, ty: map<string, nat>,
                                       ids: seq<nat>, b: nat, depth: nat)
    requires WfProgram(dag, fns) && b < |dag| && depth <= MAX_CALL_DEPTH
    requires AllBelow(ids, b) && AllTyped(dag, ids, ty) && EnvFits(env, ty)
    ensures var r := EvalAll(dag, fns, env, ids, b, depth); r.Some? ==> Fits(dag, ids, r.value)
    decreases MAX_CALL_DEPTH - depth, b, |ids| + 1
  {
    hide Pow2, Eval;
    if ids != [] {
      EvalFits(dag, fns, env, ty, ids[0], depth);
      EvalAllFits(dag, fns, env, ty, ids[1..], b, depth);
    }
  }

  lemma {:induction false} EvalArgsFits(dag: Dag, fns: seq<FpFn>, env: map<string, nat>, ty: map<string, nat>,
                                        params: seq<(string, nat)>, args: seq<nat>, b: nat, depth: nat)
    requires WfProgram(dag, fns) && b < |dag| && depth <= MAX_CALL_DEPTH
    requires AllBelow(args, b) && AllTyped(dag, args, ty) && EnvFits(env, ty) && |params| == |args|
    ensures var r := EvalArgs(dag, fns, env, params, args, b, depth); r.Some? ==> EnvFits(r.value, ParamTypes(params))
    decreases MAX_CALL_DEPTH - depth, b, |args| + 1
  {
    hide Pow2, Eval;
    if args != [] {
      var k := |args| - 1;
      EvalArgsFits(dag, fns, env, ty, params[..k], args[..k], b, depth);
      EvalFits(dag, fns, env, ty, args[k], depth);
    }
  }

  // ---- The memoised interpreter -------------------------------------------------------------------

  /** Every table entry is the value of its node in this frame. */
  ghost predicate MemoSound(dag: Dag, fns: seq<FpFn>, env: map<string, nat>, memo: map<nat, nat>, depth: nat)
    requires WfProgram(dag, fns) && depth <= MAX_CALL_DEPTH
  {
    forall k :: k in memo ==> k < |dag| && Eval(dag, fns, env, k, depth) == Some(memo[k])
  }

  /** Everything one interpreter frame may assume: a typed program, an environment that fits, and a
      sound memo table. */
  ghost predicate Frame(dag: Dag, fns: seq<FpFn>, env: map<string, nat>, ty: map<string, nat>, memo: map<nat, nat>,
                        depth: nat)
  {
    depth <= MAX_CALL_DEPTH && WfProgram(dag, fns) && EnvFits(env, ty) && MemoSound(dag, fns, env, memo, depth)
  }

  /** Evaluates one node. `memo0` and `memo` are the frame's table before and after the call. */
  method EvalGo(dag: Dag, b: nat, env: map<string, nat>, fns: seq<FpFn>, memo0: map<nat, nat>, depth: nat,
                ghost ty: map<string, nat>)
    returns (r: Option<nat>, memo: map<nat, nat>)
    requires Frame(dag, fns, env, ty, memo0, depth) && b < |dag| && VarsTyped(dag, b, ty)
    ensures r == Eval(dag, fns, env, b, depth)
    ensures MemoSound(dag, fns, env, memo, depth)
    decreases MAX_CALL_DEPTH - depth, b + 1, 0
  {
    hide Pow2, Bitwise, Low, WordMask, Meaning, WfDag, CallsTyped, WfFn, WordBits;
    memo := memo0;
    var n := dag[b];
    if n.width > 128 {
      return None, memo;
    }
    if b in memo {
      return Some(memo[b]), memo;
    }
    if n.kind.Var? {
      if n.kind.name !in env {
        return None, memo;
      }
      r := Some(env[n.kind.name]);
    } else if n.kind.Const? {
      ConstValue(n.kind.val, n.width);
      r := Some(Bitwise(AndBits, n.kind.val, WordMask(n.width)));
    } else if n.kind.Ite? {
      r, memo := EvalIte(dag, b, env, fns, memo, depth, ty);
    } else if n.kind.Call? {
      r, memo := EvalCall(dag, b, env, fns, memo, depth, ty);
    } else {
      r, memo := EvalOp(dag, b, env, fns, memo, depth, ty);
    }
    if r.Some? {
      memo := memo[b := r.value];
    }
  }

  lemma ConstValue(val: nat, w: nat)
    requires w <= 128
    ensures Bitwise(AndBits, val, WordMask(w)) == Low(val, w)
  {
    MaskIsLow(val, w);
  }

  lemma OpValue(dag: Dag, fns: seq<FpFn>, env: map<string, nat>, ty: map<string, nat>, b: nat, depth: nat, vs: seq<nat>)
    requires WfProgram(dag, fns) && b < |dag| && depth <= MAX_CALL_DEPTH
    requires VarsTyped(dag, b, ty) && EnvFits(env, ty) && dag[b].width <= 128
    requires !dag[b].kind.IsLeaf() && !dag[b].kind.Call? && !dag[b].kind.Ite?
    requires AllBelow(dag[b].kind.Operands(), b)
    requires EvalAll(dag, fns, env, dag[b].kind.Operands(), b, depth) == Some(vs)
    ensures Eval(dag, fns, env, b, depth) == Some(Meaning(dag, dag[b], vs)) == Some(WordOp(dag, dag[b], vs))
  {
    hide Pow2, Bitwise, Low, WordOp, Meaning;
    OperandsTyped(dag, b, ty);
    EvalAllFits(dag, fns, env, ty, dag[b].kind.Operands(), b, depth);
    OperandsBelow(dag[b].kind, |dag|);
    if dag[b].kind.CmpOp? {
      var ops := dag[b].kind.Operands();
      assert ops[0] == dag[b].kind.a;
      EvalFits(dag, fns, env, ty, ops[0], depth);
    }
    WordOpIsMeaning(dag, dag[b], vs);
  }

  /** Evaluates every operand, left to right, and applies the operation. */
  method EvalOp(dag: Dag, b: nat, env: map<string, nat>, fns: seq<FpFn>, memo0: map<nat, nat>, depth: nat,
                ghost ty: map<string, nat>)
    returns (r: Option<nat>, memo: map<nat, nat>)
    requires Frame(dag, fns, env, ty, memo0, depth) && b < |dag| && VarsTyped(dag, b, ty)
    requires !dag[b].kind.IsLeaf() && !dag[b].kind.Call? && !dag[b].kind.Ite? && dag[b].width <= 128
    ensures r == Eval(dag, fns, env, b, depth)
    ensures MemoSound(dag, fns, env, memo, depth)
    decreases MAX_CALL_DEPTH - depth, b, |dag[b].kind.Operands()| + 4
  {
    hide Pow2, Bitwise, Low, WordMask, WordOp, Meaning, CallsTyped, WfFn;
    OperandsTyped(dag, b, ty);
    var vs: Option<seq<nat>>;
    vs, memo := EvalOperands(dag, dag[b].kind.Operands(), b, env, fns, memo0, depth, ty);
    if vs.None? {
      return None, memo;
    }
    OperandsBelow(dag[b].kind, |dag|);
    OpValue(dag, fns, env, ty, b, depth, vs.value);
    r := Some(WordOp(dag, dag[b], vs.value));
  }

  /** Evaluates the condition and then only the selected arm. */
  method EvalIte(dag: Dag, b: nat, env: map<string, nat>, fns: seq<FpFn>, memo0: map<nat, nat>, depth: nat,
                 ghost ty: map<string, nat>)
    returns (r: Option<nat>, memo: map<nat, nat>)
    requires Frame(dag, fns, env, ty, memo0, depth) && b < |dag| && VarsTyped(dag, b, ty)
    requires dag[b].kind.Ite? && dag[b].width <= 128
    ensures r == Eval(dag, fns, env, b, depth)
    ensures MemoSound(dag, fns, env, memo, depth)
    decreases MAX_CALL_DEPTH - depth, b, 4
  {
    hide Pow2, Bitwise, Low, WfDag, CallsTyped, WfFn;
    var Ite(c, t, e) := dag[b].kind;
    OperandsTyped(dag, b, ty);
    ghost var ops := dag[b].kind.Operands();
    assert ops[0] == c && ops[1] == t && ops[2] == e;
    r, memo := EvalGo(dag, c, env, fns, memo0, depth, ty);
    if r.Some? {
      LowBit(r.value);
      if Bitwise(AndBits, r.value, 1) == 1 {
        r, memo := EvalGo(dag, t, env, fns, memo, depth, ty);
      } else {
        r, memo := EvalGo(dag, e, env, fns, memo, depth, ty);
      }
    }
  }

  /** Resolves a call, binds its arguments and evaluates the callee's body in a frame of its own. */
  method EvalCall(dag: Dag, b: nat, env: map<string, nat>, fns: seq<FpFn>, memo0: map<nat, nat>, depth: nat,
                  ghost ty: map<string, nat>)
    returns (r: Option<nat>, memo: map<nat, nat>)
    requires Frame(dag, fns, env, ty, memo0, depth) && b < |dag| && VarsTyped(dag, b, ty)
    requires dag[b].kind.Call? && dag[b].width <= 128
    ensures r == Eval(dag, fns, env, b, depth)
    ensures MemoSound(dag, fns, env, memo, depth)
    decreases MAX_CALL_DEPTH - depth, b, |dag[b].kind.args| + 3
  {
    hide Pow2, EvalArgs, WfDag, CallsTyped;
    memo := memo0;
    if depth >= MAX_CALL_DEPTH {
      return None, memo;
    }
    var f := Find(fns, dag[b].kind.name);
    if f.None? || |f.value.params| != |dag[b].kind.args| {
      return None, memo;
    }
    var child: Option<map<string, nat>>;
    OperandsTyped(dag, b, ty);
    child, memo := BindArgs(dag, b, f.value.params, dag[b].kind.args, env, fns, memo, depth, ty);
    if child.None? {
      return None, memo;
    }
    EvalArgsFits(dag, fns, env, ty, f.value.params, dag[b].kind.args, b, depth);
    var childMemo: map<nat, nat>;
    r, childMemo := EvalGo(dag, f.value.body, child.value, fns, map[], depth + 1, ParamTypes(f.value.params));
  }

  method BindArgs(dag: Dag, b: nat, params: seq<(string, nat)>, args: seq<nat>, env: map<string, nat>, fns: seq<FpFn>,
                  memo0: map<nat, nat>, depth: nat, ghost ty: map<string, nat>)
    returns (child: Option<map<string, nat>>, memo: map<nat, nat>)
    requires Frame(dag, fns, env, ty, memo0, depth) && b < |dag|
    requires |params| == |args| && AllBelow(args, b) && AllTyped(dag, args, ty)
    ensures child == EvalArgs(dag, fns, env, params, args, b, depth)
    ensures MemoSound(dag, fns, env, memo, depth)
    decreases MAX_CALL_DEPTH - depth, b, |args| + 2
  {
    hide Pow2, Eval, WfDag, CallsTyped, VarsTyped;
    memo := memo0;
    var bound: map<string, nat> := map[];
    for i := 0 to |args|
      invariant EvalArgs(dag, fns, env, params[..i], args[..i], b, depth) == Some(bound)
      invariant MemoSound(dag, fns, env, memo, depth)
    {
      assert args[..i + 1][..i] == args[..i] && params[..i + 1][..i] == params[..i];
      if dag[args[i]].width != params[i].1 {
        ArgsPrefixFails(dag, fns, env, params, args, b, depth, i + 1);
        return None, memo;
      }
      var v: Option<nat>;
      v, memo := EvalGo(dag, args[i], env, fns, memo, depth, ty);
      if v.None? {
        ArgsPrefixFails(dag, fns, env, params, args, b, depth, i + 1);
        return None, memo;
      }
      bound := bound[params[i].0 := v.value];
    }
    assert args[..|args|] == args && params[..|args|] == params;
    child := Some(bound);
  }

  /** One undecided argument leaves the whole call undecided. */
  lemma {:induction false} ArgsPrefixFails(dag: Dag, fns: seq<FpFn>, env: map<string, nat>, params: seq<(string, nat)>,
                                           args: seq<nat>, b: nat, depth: nat, i: nat)
    requires Acyclic(dag) && WfFns(dag, fns) && b < |dag| && depth <= MAX_CALL_DEPTH
    requires AllBelow(args, b) && |params| == |args| && i <= |args|
    requires EvalArgs(dag, fns, env, params[..i], args[..i], b, depth).None?
    ensures EvalArgs(dag, fns, env, params, args, b, depth).None?
    decreases |args|
  {
    hide Eval;
    if i == |args| {
      assert args[..i] == args && params[..i] == params;
    } else {
      var k := |args| - 1;
      assert args[..k][..i] == args[..i] && params[..k][..i] == params[..i];
      ArgsPrefixFails(dag, fns, env, params[..k], args[..k], b, depth, i);
    }
  }

  method EvalOperands(dag: Dag, ids: seq<nat>, b: nat, env: map<string, nat>, fns: seq<FpFn>, memo0: map<nat, nat>,
                      depth: nat, ghost ty: map<string, nat>)
    returns (vs: Option<seq<nat>>, memo: map<nat, nat>)
    requires Frame(dag, fns, env, ty, memo0, depth) && b < |dag|
    requires AllBelow(ids, b) && AllTyped(dag, ids, ty)
    ensures vs == EvalAll(dag, fns, env, ids, b, depth)
    ensures MemoSound(dag, fns, env, memo, depth)
    decreases MAX_CALL_DEPTH - depth, b, |ids| + 1
  {
    hide Pow2, Eval, WfDag, CallsTyped;
    memo := memo0;
    if ids == [] {
      return Some([]), memo;
    }
    var v: Option<nat>;
    v, memo := EvalGo(dag, ids[0], env, fns, memo, depth, ty);
    if v.None? {
      return None, memo;
    }
    vs, memo := EvalOperands(dag, ids[1..], b, env, fns, memo, depth, ty);
    if vs.Some? {
      vs := Some([v.value] + vs.value);
    }
  }

  // ---- What a value means ---------------------------------------------------------------------------------

  /** Some call to the node's first function of that name, within the 64 frames allowed, with as many arguments as it
      has parameters and each as wide as its parameter, gives r in an environment of the arguments' values. */
  ghost predicate CallHolds(dag: Dag, fns: seq<FpFn>, env: map<string, nat>, b: nat, depth: nat, r: nat)
    requires Acyclic(dag) && WfFns(dag, fns) && b < |dag| && depth <= MAX_CALL_DEPTH && dag[b].kind.Call?
  {
    depth < 64
    && exists i, child :: IsFirst(fns, i, dag[b].kind.name) && Binds(dag, fns, env, fns[i].params, dag[b].kind.args, depth, child)
                          && depth < MAX_CALL_DEPTH && Eval(dag, fns, child, fns[i].body, depth + 1) == Some(r)
  }

  predicate IsFirst(fns: seq<FpFn>, i: int, name: string) {
    0 <= i < |fns| && fns[i].name == name && forall j :: 0 <= j < i ==> fns[j].name != name
  }

  /** The child environment has the parameters, each with the value of the last argument bound to its name. */
  ghost predicate Binds(dag: Dag, fns: seq<FpFn>, env: map<string, nat>, params: seq<(string, nat)>, args: seq<nat>,
                        depth: nat, child: map<string, nat>)
    requires Acyclic(dag) && WfFns(dag, fns) && depth <= MAX_CALL_DEPTH
  {
    |params| == |args| && (forall k :: 0 <= k < |args| ==> args[k] < |dag| && dag[args[k]].width == params[k].1)
    && OnlyParams(params, child)
    && forall k :: 0 <= k < |args| ==>
                     Eval(dag, fns, env, args[k], depth).Some?
                     && (LastNamed(params, k, params[k].0) ==>
                           params[k].0 in child && Eval(dag, fns, env, args[k], depth) == Some(child[params[k].0]))
  }

  ghost predicate OnlyParams(params: seq<(string, nat)>, child: map<string, nat>) {
    forall n :: n in child ==> exists k :: LastNamed(params, k, n)
  }

  predicate LastNamed(params: seq<(string, nat)>, k: int, n: string) {
    0 <= k < |params| && params[k].0 == n && forall j :: k < j < |params| ==> params[j].0 != n
  }

  /** The operands have values, and r is what the operation should make of them. */
  ghost predicate OpHolds(dag: Dag, fns: seq<FpFn>, env: map<string, nat>, b: nat, depth: nat, r: nat)
    requires WfProgram(dag, fns) && b < |dag| && depth <= MAX_CALL_DEPTH && !dag[b].kind.IsLeaf() && !dag[b].kind.Call?
  {
    exists vs :: ValuesAre(dag, fns, env, dag[b].kind.Operands(), depth, vs) && OperationHolds(dag, dag[b], vs, r)
  }

  ghost predicate ValuesAre(dag: Dag, fns: seq<FpFn>, env: map<string, nat>, ids: seq<nat>, depth: nat, vs: seq<nat>)
    requires Acyclic(dag) && WfFns(dag, fns) && depth <= MAX_CALL_DEPTH
  {
    |vs| == |ids| && forall j :: 0 <= j < |ids| ==> ids[j] < |dag| && Eval(dag, fns, env, ids[j], depth) == Some(vs[j])
  }

  /** What the value r of node b is to the values of the nodes below it. */
  ghost predicate NodeHolds(dag: Dag, fns: seq<FpFn>, env: map<string, nat>, b: nat, depth: nat, r: nat)
    requires WfProgram(dag, fns) && b < |dag| && depth <= MAX_CALL_DEPTH
  {
    dag[b].width <= 128
    && match dag[b].kind
       case Var(name) => name in env && r == env[name]
       case Const(val) => r == Remainder(val, Pow2(dag[b].width))
       case Ite(c, t, e) =>
         Eval(dag, fns, env, c, depth).Some? && Eval(dag, fns, env, c, depth).value < 2
         && Eval(dag, fns, env, if Eval(dag, fns, env, c, depth).value == 1 then t else e, depth) == Some(r)
       case Call(_, _) => CallHolds(dag, fns, env, b, depth, r)
       case _ => OpHolds(dag, fns, env, b, depth, r)
  }

  lemma {:induction false} AllAre(dag: Dag, fns: seq<FpFn>, env: map<string, nat>, ids: seq<nat>, b: nat, depth: nat)
    requires Acyclic(dag) && WfFns(dag, fns) && b < |dag| && depth <= MAX_CALL_DEPTH && AllBelow(ids, b)
    requires EvalAll(dag, fns, env, ids, b, depth).Some?
    ensures ValuesAre(dag, fns, env, ids, depth, EvalAll(dag, fns, env, ids, b, depth).value)
    decreases |ids|
  {
    hide Eval;
    if ids != [] { AllAre(dag, fns, env, ids[1..], b, depth); }
  }

  lemma {:induction false} ArgsBind(dag: Dag, fns: seq<FpFn>, env: map<string, nat>, params: seq<(string, nat)>,
                                    args: seq<nat>, b: nat, depth: nat)
    requires Acyclic(dag) && WfFns(dag, fns) && b < |dag| && depth <= MAX_CALL_DEPTH && AllBelow(args, b)
    requires |params| == |args| && EvalArgs(dag, fns, env, params, args, b, depth).Some?
    ensures Binds(dag, fns, env, params, args, depth, EvalArgs(dag, fns, env, params, args, b, depth).value)
    decreases |args|
  {
    hide Eval, Binds;
    if args == [] {
      NothingBinds(dag, fns, env, params, depth);
    } else {
      var k := |args| - 1;
      ArgsBind(dag, fns, env, params[..k], args[..k], b, depth);
      var rest := EvalArgs(dag, fns, env, params[..k], args[..k], b, depth).value;
      BindsNext(dag, fns, env, params, args, depth, rest, Eval(dag, fns, env, args[k], depth).value);
    }
  }

  lemma NothingBinds(dag: Dag, fns: seq<FpFn>, env: map<string, nat>, params: seq<(string, nat)>, depth: nat)
    requires Acyclic(dag) && WfFns(dag, fns) && depth <= MAX_CALL_DEPTH && params == []
    ensures Binds(dag, fns, env, params, [], depth, map[])
  {
    hide Eval;
  }

  lemma BindsNext(dag: Dag, fns: seq<FpFn>, env: map<string, nat>, params: seq<(string, nat)>, args: seq<nat>, depth: nat,
                  rest: map<string, nat>, v: nat)
    requires Acyclic(dag) && WfFns(dag, fns) && depth <= MAX_CALL_DEPTH && |params| == |args| > 0
    requires var k := |args| - 1;
             Binds(dag, fns, env, params[..k], args[..k], depth, rest)
             && args[k] < |dag| && dag[args[k]].width == params[k].1 && Eval(dag, fns, env, args[k], depth) == Some(v)
    ensures Binds(dag, fns, env, params, args, depth, rest[params[|args| - 1].0 := v])
  {
    hide Eval, OnlyParams, LastNamed;
    var k := |args| - 1;
    var child := rest[params[k].0 := v];
    OnlyParamsNext(params, rest, v);
    forall i | 0 <= i < |args|
      ensures Eval(dag, fns, env, args[i], depth).Some?
      ensures LastNamed(params, i, params[i].0) ==>
                params[i].0 in child && Eval(dag, fns, env, args[i], depth) == Some(child[params[i].0])
    {
      if i < k {
        assert params[..k][i] == params[i] && args[..k][i] == args[i];
        if LastNamed(params, i, params[i].0) { LastInPrefix(params, k, i); }
      }
    }
  }

  lemma OnlyParamsNext(params: seq<(string, nat)>, rest: map<string, nat>, v: nat)
    requires params != [] && OnlyParams(params[..|params| - 1], rest)
    ensures OnlyParams(params, rest[params[|params| - 1].0 := v])
  {
    var k := |params| - 1;
    var child := rest[params[k].0 := v];
    forall n | n in child ensures exists i :: LastNamed(params, i, n) {
      if n == params[k].0 {
        assert LastNamed(params, k, n);
      } else {
        var i :| LastNamed(params[..k], i, n);
        assert LastNamed(params, i, n);
      }
    }
  }

  lemma LastInPrefix(params: seq<(string, nat)>, k: nat, i: nat)
    requires i < k < |params| && LastNamed(params, i, params[i].0)
    ensures params[i].0 != params[k].0 && LastNamed(params[..k], i, params[i].0)
  {
  }

  /** A node has the value it should have. */
  lemma ValueHolds(dag: Dag, fns: seq<FpFn>, env: map<string, nat>, ty: map<string, nat>, b: nat, depth: nat)
    requires WfProgram(dag, fns) && b < |dag| && depth <= MAX_CALL_DEPTH && VarsTyped(dag, b, ty) && EnvFits(env, ty)
    requires Eval(dag, fns, env, b, depth).Some?
    ensures NodeHolds(dag, fns, env, b, depth, Eval(dag, fns, env, b, depth).value)
  {
    hide Pow2, Meaning, EvalAll, EvalArgs, WfProgram, Low, Remainder, CallHolds, OpHolds, VarsTyped, EnvFits, AllTyped, AllBelow, WfFns;
    assert Acyclic(dag) && WfFns(dag, fns) by { ProgramParts(dag, fns); }
    if !dag[b].kind.IsLeaf() { OperandsTyped(dag, b, ty); }
    match dag[b].kind
    case Var(_) =>
    case Const(val) => Shifts(val, dag[b].width);
    case Ite(c, t, e) => ConditionFits(dag, fns, env, ty, b, depth);
    case Call(_, _) => CallValue(dag, fns, env, b, depth);
    case _ => OperandsHold(dag, fns, env, ty, b, depth);
  }

  lemma ProgramParts(dag: Dag, fns: seq<FpFn>)
    requires WfProgram(dag, fns)
    ensures Acyclic(dag) && WfFns(dag, fns)
  {
  }

  lemma ConditionFits(dag: Dag, fns: seq<FpFn>, env: map<string, nat>, ty: map<string, nat>, b: nat, depth: nat)
    requires WfProgram(dag, fns) && b < |dag| && depth <= MAX_CALL_DEPTH && VarsTyped(dag, b, ty) && EnvFits(env, ty)
    requires dag[b].kind.Ite? && dag[b].kind.c < |dag|
    ensures var v := Eval(dag, fns, env, dag[b].kind.c, depth); v.Some? ==> v.value < 2
  {
    hide Eval, Pow2;
    OperandsTyped(dag, b, ty);
    var ops := dag[b].kind.Operands();
    assert ops[0] == dag[b].kind.c;
    EvalFits(dag, fns, env, ty, dag[b].kind.c, depth);
    OneBitWide();
  }

  lemma CallValue(dag: Dag, fns: seq<FpFn>, env: map<string, nat>, b: nat, depth: nat)
    requires Acyclic(dag) && WfFns(dag, fns) && b < |dag| && depth <= MAX_CALL_DEPTH
    requires dag[b].kind.Call? && AllBelow(dag[b].kind.args, b) && Eval(dag, fns, env, b, depth).Some?
    ensures CallHolds(dag, fns, env, b, depth, Eval(dag, fns, env, b, depth).value)
  {
    hide EvalArgs, Binds, IsFirst;
    var name, args := dag[b].kind.name, dag[b].kind.args;
    var f := Find(fns, name).value;
    ArgsBind(dag, fns, env, f.params, args, b, depth);
    FindIsFirst(fns, name);
    hide Find;
  }

  /** The binding of the arguments is the only one of its kind. */
  lemma {:induction false} BindingDecided(dag: Dag, fns: seq<FpFn>, env: map<string, nat>, params: seq<(string, nat)>,
                                          args: seq<nat>, b: nat, depth: nat)
    requires Acyclic(dag) && WfFns(dag, fns) && b < |dag| && depth <= MAX_CALL_DEPTH && AllBelow(args, b) && |params| == |args|
    requires forall k :: 0 <= k < |args| ==> dag[args[k]].width == params[k].1 && Eval(dag, fns, env, args[k], depth).Some?
    ensures EvalArgs(dag, fns, env, params, args, b, depth).Some?
    decreases |args|
  {
    hide Eval;
    if args != [] { BindingDecided(dag, fns, env, params[..|args| - 1], args[..|args| - 1], b, depth); }
  }

  lemma BindingUnique(dag: Dag, fns: seq<FpFn>, env: map<string, nat>, params: seq<(string, nat)>, args: seq<nat>,
                      depth: nat, c: map<string, nat>, d: map<string, nat>)
    requires Acyclic(dag) && WfFns(dag, fns) && depth <= MAX_CALL_DEPTH
    requires Binds(dag, fns, env, params, args, depth, c) && Binds(dag, fns, env, params, args, depth, d)
    ensures c == d
  {
    hide Eval, LastNamed;
    forall n ensures (n in c <==> n in d) && (n in c && n in d ==> c[n] == d[n]) {
      if n in c {
        var k :| LastNamed(params, k, n);
        NamedAt(params, k, n);
      }
      if n in d {
        var k :| LastNamed(params, k, n);
        NamedAt(params, k, n);
      }
    }
  }

  lemma NamedAt(params: seq<(string, nat)>, k: int, n: string)
    requires LastNamed(params, k, n)
    ensures 0 <= k < |params| && params[k].0 == n
  {
  }

  /** A call is decided exactly when it is within the budget of 64, finds its function, and binds its arguments to an
      environment in which the function's body is decided; then it has the body's value. */
  lemma CallExactly(dag: Dag, fns: seq<FpFn>, env: map<string, nat>, b: nat, depth: nat, r: nat)
    requires Acyclic(dag) && WfFns(dag, fns) && b < |dag| && depth <= MAX_CALL_DEPTH
    requires dag[b].kind.Call? && AllBelow(dag[b].kind.args, b) && dag[b].width <= 128
    ensures depth < 64 ==> depth < MAX_CALL_DEPTH
    ensures Eval(dag, fns, env, b, depth) == Some(r) <==> CallHolds(dag, fns, env, b, depth, r)
  {
    hide EvalArgs, Binds;
    var name, args := dag[b].kind.name, dag[b].kind.args;
    if Eval(dag, fns, env, b, depth) == Some(r) { CallValue(dag, fns, env, b, depth); }
    if CallHolds(dag, fns, env, b, depth, r) {
      var i, child :| IsFirst(fns, i, name) && Binds(dag, fns, env, fns[i].params, args, depth, child)
                      && Eval(dag, fns, child, fns[i].body, depth + 1) == Some(r);
      FirstIsFound(fns, i, name);
      ArgsBound(dag, fns, env, fns[i].params, args, b, depth, child);
    }
  }

  lemma ArgsBound(dag: Dag, fns: seq<FpFn>, env: map<string, nat>, params: seq<(string, nat)>, args: seq<nat>, b: nat,
                  depth: nat, child: map<string, nat>)
    requires Acyclic(dag) && WfFns(dag, fns) && b < |dag| && depth <= MAX_CALL_DEPTH && AllBelow(args, b)
    requires Binds(dag, fns, env, params, args, depth, child)
    ensures |params| == |args| && EvalArgs(dag, fns, env, params, args, b, depth) == Some(child)
  {
    hide Eval, EvalArgs, OnlyParams;
    BindingDecided(dag, fns, env, params, args, b, depth);
    ArgsBind(dag, fns, env, params, args, b, depth);
    BindingUnique(dag, fns, env, params, args, depth, child, EvalArgs(dag, fns, env, params, args, b, depth).value);
  }

  lemma {:induction false} FirstIsFound(fns: seq<FpFn>, i: nat, name: string)
    requires IsFirst(fns, i, name)
    ensures 0 <= i < |fns| && Find(fns, name) == Some(fns[i])
    decreases i
  {
    if i > 0 {
      assert fns[0].name != name;
      assert IsFirst(fns[1..], i - 1, name);
      FirstIsFound(fns[1..], i - 1, name);
    }
  }

  lemma OperandsHold(dag: Dag, fns: seq<FpFn>, env: map<string, nat>, ty: map<string, nat>, b: nat, depth: nat)
    requires WfProgram(dag, fns) && b < |dag| && depth <= MAX_CALL_DEPTH && VarsTyped(dag, b, ty) && EnvFits(env, ty)
    requires Eval(dag, fns, env, b, depth).Some? && !dag[b].kind.IsLeaf() && !dag[b].kind.Call? && !dag[b].kind.Ite?
    requires AllBelow(dag[b].kind.Operands(), b) && AllTyped(dag, dag[b].kind.Operands(), ty)
    ensures OpHolds(dag, fns, env, b, depth, Eval(dag, fns, env, b, depth).value)
  {
    hide Pow2, Meaning, OperationHolds, EvalAll, CallsTyped, WfFn, Low;
    var ids := dag[b].kind.Operands();
    AllAre(dag, fns, env, ids, b, depth);
    EvalAllFits(dag, fns, env, ty, ids, b, depth);
    MeaningHolds(dag, dag[b], EvalAll(dag, fns, env, ids, b, depth).value);
  }

  lemma {:induction false} FindIsFirst(fns: seq<FpFn>, name: string)
    requires Find(fns, name).Some?
    ensures exists i :: IsFirst(fns, i, name) && fns[i] == Find(fns, name).value
  {
    if fns[0].name == name {
      assert IsFirst(fns, 0, name);
    } else {
      FindIsFirst(fns[1..], name);
      var i :| IsFirst(fns[1..], i, name) && fns[1..][i] == Find(fns[1..], name).value;
      assert IsFirst(fns, i + 1, name);
    }
  }

  /** Evaluates a node in a fresh top-level frame. */
  method EvalBv(dag: Dag, b: nat, env: map<string, nat>, fns: seq<FpFn>, ghost ty: map<string, nat>)
    returns (r: Option<nat>)
    requires WfProgram(dag, fns) && EnvFits(env, ty) && b < |dag| && VarsTyped(dag, b, ty)
    ensures r == Eval(dag, fns, env, b, 0)
    ensures r.Some? ==> r.value < Pow2(dag[b].width) && NodeHolds(dag, fns, env, b, 0, r.value)
  {
    hide NodeHolds, Eval, WfProgram;
    var memo: map<nat, nat>;
    r, memo := EvalGo(dag, b, env, fns, map[], 0, ty);
    EvalFits(dag, fns, env, ty, b, 0);
    if r.Some? { ValueHolds(dag, fns, env, ty, b, 0); }
  }
}
