/** What the operations of src/fp_ir.rs do to numbers: every one of them by its arithmetic, bit by bit or as an order,
    apart from the way the interpreter computes it. */
module FpOps {
  import opened BitVec
  import opened FpIr

  // ---- Bits ----------------------------------------------------------------------------------------------

  /** Bit k of x. */
  function BitAt(x: nat, k: nat): nat {
    hide Pow2;
    x / Pow2(k) % 2
  }

  lemma BitAtZero(x: nat)
    ensures BitAt(x, 0) == x % 2
  {
    LowZero(x);
  }

  lemma BitAtStep(x: nat, k: nat)
    requires k > 0
    ensures BitAt(x, k) == BitAt(x / 2, k - 1)
  {
    hide Pow2;
    var p := Pow2(k - 1);
    Pow2Step(k);
    var q, r := (x / 2) / p, (x / 2) % p;
    assert x / 2 == p * q + r;
    Regroup(q, p, r, x % 2);
    DivModUnique(x, 2 * p, q, 2 * r + x % 2);
  }

  /** The connectives, bit by bit. */
  lemma {:induction false} BitwiseBits(x: nat, y: nat, k: nat)
    ensures BitAt(Bitwise(AndBits, x, y), k) == BitAt(x, k) * BitAt(y, k)
    ensures BitAt(Bitwise(OrBits, x, y), k) == BitAt(x, k) + BitAt(y, k) - BitAt(x, k) * BitAt(y, k)
    ensures BitAt(Bitwise(XorBits, x, y), k) == (BitAt(x, k) + BitAt(y, k)) % 2
    decreases k
  {
    hide Bitwise, BitAt;
    BitwiseUnfold(AndBits, x, y);
    BitwiseUnfold(OrBits, x, y);
    BitwiseUnfold(XorBits, x, y);
    if k == 0 {
      BitAtZero(x);
      BitAtZero(y);
      BitAtZero(Bitwise(AndBits, x, y));
      BitAtZero(Bitwise(OrBits, x, y));
      BitAtZero(Bitwise(XorBits, x, y));
      LowBits(x % 2, y % 2);
    } else {
      BitAtStep(x, k);
      BitAtStep(y, k);
      BitAtStep(Bitwise(AndBits, x, y), k);
      BitAtStep(Bitwise(OrBits, x, y), k);
      BitAtStep(Bitwise(XorBits, x, y), k);
      BitwiseBits(x / 2, y / 2, k - 1);
    }
  }

  lemma LowBits(a: nat, b: nat)
    requires a < 2 && b < 2
    ensures OneBit(AndBits, a, b) == a * b && OneBit(OrBits, a, b) == a + b - a * b && OneBit(XorBits, a, b) == (a + b) % 2
  {
  }

  /** Carries and sums: two numbers add up to their or plus their and, and to their exclusive or plus twice their and. */
  lemma {:induction false} BitwiseSums(x: nat, y: nat)
    ensures x + y == Bitwise(OrBits, x, y) + Bitwise(AndBits, x, y)
    ensures x + y == Bitwise(XorBits, x, y) + 2 * Bitwise(AndBits, x, y)
    decreases x + y
  {
    hide Bitwise;
    BitwiseUnfold(AndBits, x, y);
    BitwiseUnfold(OrBits, x, y);
    BitwiseUnfold(XorBits, x, y);
    LowBits(x % 2, y % 2);
    if x + y > 0 {
      BitwiseSums(x / 2, y / 2);
    } else {
      NoBits();
    }
  }

  lemma NoBits()
    ensures Bitwise(AndBits, 0, 0) == 0 && Bitwise(OrBits, 0, 0) == 0 && Bitwise(XorBits, 0, 0) == 0
  {
  }

  // ---- Signed readings -----------------------------------------------------------------------------------

  /** s is the two's-complement reading of the w-bit value v. */
  predicate Reads(s: int, v: nat, w: nat)
    requires w > 0
  {
    (s == v || s == v - Pow2(w)) && -(Pow2(w - 1) as int) <= s < Pow2(w - 1)
  }

  lemma SignedReads(v: nat, w: nat, s: int)
    requires w > 0 && v < Pow2(w)
    ensures Reads(Signed(v, w), v, w) && (Reads(s, v, w) ==> s == Signed(v, w))
  {
    hide Pow2;
    Pow2Step(w);
  }

  // ---- The operations --------------------------------------------------------------------------------------

  predicate Compares(op: Cmp, x: int, y: int, sx: int, sy: int) {
    match op
    case Eq => x == y
    case Ne => x != y
    case Ult => x < y
    case Ule => x <= y
    case Ugt => x > y
    case Uge => x >= y
    case Slt => sx < sy
    case Sle => sx <= sy
    case Sgt => sx > sy
    case Sge => sx >= sy
  }

  /** What the w-bit result r of a binary operation is to its operands x and y. */
  ghost predicate BinHolds(op: Bin, w: nat, x: nat, y: nat, r: nat) {
    r < Pow2(w)
    && match op
       case Add => r == x + y || r == x + y - Pow2(w)
       case Sub => r + y == x || r + y == x + Pow2(w)
       case Mul => r == Remainder(x * y, Pow2(w))
       case And => forall k: nat :: BitAt(r, k) == BitAt(x, k) * BitAt(y, k)
       case Or => forall k: nat :: BitAt(r, k) == BitAt(x, k) + BitAt(y, k) - BitAt(x, k) * BitAt(y, k)
       case Xor => forall k: nat :: BitAt(r, k) == (BitAt(x, k) + BitAt(y, k)) % 2
       case Shl => r == Remainder(x * Pow2(y), Pow2(w))
       case Lshr => r == Quotient(x, Pow2(y))
  }

  function Quotient(x: nat, d: nat): nat
    requires d > 0
  {
    x / d
  }

  function Remainder(x: nat, d: nat): nat
    requires d > 0
  {
    x % d
  }

  /** What the result r of an operation node is to its operands' values. */
  ghost predicate OperationHolds(dag: Dag, n: Node, vs: seq<nat>, r: nat)
    requires !n.kind.IsLeaf() && !n.kind.Call? && n.kind.Below(|dag|) && WfNode(dag, n) && |vs| == |n.kind.Operands()|
    requires n.kind.CmpOp? ==> dag[n.kind.a].width > 0
  {
    match n.kind
    case Extract(_, hi, lo) =>
      r == Remainder(Quotient(vs[0], Pow2(lo)), Pow2(hi - lo + 1))
    case Concat(_, b) => r == vs[0] * Pow2(dag[b].width) + vs[1]
    case ZeroExt(_, _) => r == vs[0]
    case Not(_) => r + vs[0] == Pow2(n.width) - 1
    case BinOp(op, _, _) => BinHolds(op, n.width, vs[0], vs[1], r)
    case Ite(_, _, _) => r == if vs[0] == 1 then vs[1] else vs[2]
    case CmpOp(op, a, _) =>
      forall sx, sy :: Reads(sx, vs[0], dag[a].width) && Reads(sy, vs[1], dag[a].width) ==>
                         r == if Compares(op, vs[0], vs[1], sx, sy) then 1 else 0
  }

  /** Operand values fit their operands' widths. */
  ghost predicate Fits(dag: Dag, ids: seq<nat>, vs: seq<nat>)
    requires AllBelow(ids, |dag|)
  {
    |vs| == |ids| && forall j :: 0 <= j < |ids| ==> vs[j] < Pow2(dag[ids[j]].width)
  }

  lemma LowSplits(x: nat, w: nat) returns (k: nat)
    ensures x == k * Pow2(w) + Low(x, w)
  {
    hide Pow2;
    k := x / Pow2(w);
  }

  lemma Shifts(x: nat, k: nat)
    ensures Low(x, k) == Remainder(x, Pow2(k)) && Down(x, k) == Quotient(x, Pow2(k)) && Up(x, k) == x * Pow2(k)
  {
    hide Pow2;
  }

  lemma BinMeans(op: Bin, w: nat, x: nat, y: nat)
    requires x < Pow2(w) && y < Pow2(w)
    ensures BinHolds(op, w, x, y, BinMeaning(op, w, x, y))
  {
    hide Pow2, Low, Bitwise, BitAt, Up, Down, Quotient, Remainder;
    match op
    case Add => SumMeans(x, y, w);
    case Sub => DifferenceMeans(x, y, w);
    case Mul => Shifts(x * y, w);
    case And => BitResults(x, y, w);
    case Or => BitResults(x, y, w);
    case Xor => BitResults(x, y, w);
    case Shl =>
      Shifts(x, y);
      Shifts(Up(x, y), w);
    case Lshr =>
      Shifts(x, y);
      ShiftDown(x, y, w);
  }

  lemma SumMeans(x: nat, y: nat, w: nat)
    requires x < Pow2(w) && y < Pow2(w)
    ensures Low(x + y, w) == x + y || Low(x + y, w) == x + y - Pow2(w)
  {
    hide Pow2, Low;
    var k := LowSplits(x + y, w);
    SmallQuotient(x + y, k, w);
  }

  lemma DifferenceMeans(x: nat, y: nat, w: nat)
    requires x < Pow2(w) && y < Pow2(w)
    ensures Low(y, w) == y
    ensures var r := Low(x + Pow2(w) - y, w); r + y == x || r + y == x + Pow2(w)
  {
    hide Pow2, Low;
    LowOfSmall(y, w);
    var k := LowSplits(x + Pow2(w) - y, w);
    SmallQuotient(x + Pow2(w) - y, k, w);
  }

  lemma SmallQuotient(x: nat, k: nat, w: nat)
    requires x < 2 * Pow2(w) && x == k * Pow2(w) + Low(x, w)
    ensures Low(x, w) == x || Low(x, w) == x - Pow2(w)
  {
    hide Pow2, Low;
    if k >= 2 { MulMonotone(2, k, Pow2(w)); }
  }

  lemma BitResults(x: nat, y: nat, w: nat)
    requires x < Pow2(w) && y < Pow2(w)
    ensures Low(Bitwise(AndBits, x, y), w) == Bitwise(AndBits, x, y)
    ensures Low(Bitwise(OrBits, x, y), w) == Bitwise(OrBits, x, y)
    ensures Low(Bitwise(XorBits, x, y), w) == Bitwise(XorBits, x, y)
    ensures forall k: nat :: BitAt(Bitwise(AndBits, x, y), k) == BitAt(x, k) * BitAt(y, k)
    ensures forall k: nat :: BitAt(Bitwise(OrBits, x, y), k) == BitAt(x, k) + BitAt(y, k) - BitAt(x, k) * BitAt(y, k)
    ensures forall k: nat :: BitAt(Bitwise(XorBits, x, y), k) == (BitAt(x, k) + BitAt(y, k)) % 2
  {
    hide Pow2, Low, Bitwise, BitAt;
    BitwiseBound(AndBits, x, y, w);
    BitwiseBound(OrBits, x, y, w);
    BitwiseBound(XorBits, x, y, w);
    LowOfSmall(Bitwise(AndBits, x, y), w);
    LowOfSmall(Bitwise(OrBits, x, y), w);
    LowOfSmall(Bitwise(XorBits, x, y), w);
    forall k: nat
      ensures BitAt(Bitwise(AndBits, x, y), k) == BitAt(x, k) * BitAt(y, k)
      ensures BitAt(Bitwise(OrBits, x, y), k) == BitAt(x, k) + BitAt(y, k) - BitAt(x, k) * BitAt(y, k)
      ensures BitAt(Bitwise(XorBits, x, y), k) == (BitAt(x, k) + BitAt(y, k)) % 2
    {
      BitwiseBits(x, y, k);
    }
  }

  lemma ShiftDown(x: nat, y: nat, w: nat)
    requires x < Pow2(w)
    ensures Low(Down(x, y), w) == Down(x, y)
  {
    hide Pow2;
    MulMonotone(1, Pow2(y), x / Pow2(y));
    LowOfSmall(x / Pow2(y), w);
  }

  /** The meaning of every operation is what it should be to its operands' values. */
  lemma MeaningHolds(dag: Dag, n: Node, vs: seq<nat>)
    requires !n.kind.IsLeaf() && !n.kind.Call? && n.kind.Below(|dag|) && WfNode(dag, n)
    requires AllBelow(n.kind.Operands(), |dag|) && Fits(dag, n.kind.Operands(), vs)
    requires n.kind.CmpOp? ==> dag[n.kind.a].width > 0
    ensures OperationHolds(dag, n, vs, Meaning(dag, n, vs))
  {
    hide Pow2, Low, Up, Down, Bitwise, BinHolds, BinMeaning, Signed, Reads, Quotient, Remainder;
    var ops := n.kind.Operands();
    match n.kind
    case Extract(x, hi, lo) =>
      Shifts(vs[0], lo);
      Shifts(Down(vs[0], lo), hi - lo + 1);
    case Concat(a, b) => Shifts(vs[0], dag[b].width);
    case ZeroExt(_, _) =>
    case Not(x) =>
      assert ops[0] == x;
      LowOfSmall(vs[0], n.width);
    case BinOp(op, a, b) =>
      assert ops[0] == a && ops[1] == b;
      BinMeans(op, n.width, vs[0], vs[1]);
    case Ite(c, _, _) =>
      assert ops[0] == c;
      OneBitWide();
    case CmpOp(op, a, b) =>
      assert ops[0] == a && ops[1] == b;
      forall sx, sy | Reads(sx, vs[0], dag[a].width) && Reads(sy, vs[1], dag[a].width)
        ensures Holds(op, vs[0], vs[1], dag[a].width) <==> Compares(op, vs[0], vs[1], sx, sy)
      {
        SignedReads(vs[0], dag[a].width, sx);
        SignedReads(vs[1], dag[a].width, sy);
      }
  }

  lemma OneBitWide()
    ensures Pow2(1) == 2
  {
    Pow2Step(1);
  }

  /** Extracting either part of a concatenation gives back what was put there. */
  lemma ExtractUndoesConcat(a: nat, b: nat, wa: nat, wb: nat, v: nat, high: nat, low: nat)
    requires a < Pow2(wa) && b < Pow2(wb) && v == a * Pow2(wb) + b
    requires high == Remainder(Quotient(v, Pow2(wb)), Pow2(wa)) && low == Remainder(Quotient(v, Pow2(0)), Pow2(wb))
    ensures high == a && low == b
  {
    hide Pow2;
    LowZero(0);
    DivModUnique(v, Pow2(wb), a, b);
    DivModUnique(a, Pow2(wa), 0, a);
  }
}
