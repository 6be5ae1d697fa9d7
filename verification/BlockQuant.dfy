/** Block quantization end to end, as in src/fp_block.rs: the grid, both ladders and the emitted comparisons composed
    over a whole block with a UE4M3 scale. The target's multiplication is any function that is right when nothing has
    to be rounded; that nothing has to be is proved here. */
module BlockQuant {
  import opened BitVec
  import opened Grids
  import opened Ladder
  import opened LadderPolicy
  import FpRound
  import FpEncode

  /** The reserved codes leave at least two finite ones in the top binade. */
  predicate TopPair(f: Format) {
    f.expBits > 0 && f.mantBits > 0 && (f.hasNan && !f.hasInf ==> f.mantBits > 1)
  }

  /** An element format of the blocks. */
  ghost predicate Element(f: Format) {
    Narrow(f.expBits, f.mantBits) && TopPair(f)
  }

  lemma CodesFit(f: Format)
    requires TopPair(f)
    ensures 2 <= FiniteCodes(f) <= Up(Pow2(f.expBits), f.mantBits)
    ensures Down(FiniteCodes(f) - 2, f.mantBits) == Down(FiniteCodes(f) - 1, f.mantBits)
  {
    hide Pow2;
    var rows, p := Pow2(f.expBits) - (if f.hasInf then 2 else 1), Pow2(f.mantBits);
    Pow2Monotone(1, f.expBits);
    Pow2Monotone(if f.hasNan && !f.hasInf then 2 else 1, f.mantBits);
    SmallestPowers();
    RowNext(Pow2(f.expBits) - 1, f.mantBits);
    RowNext(rows, f.mantBits);
    var gone := if f.hasNan && !f.hasInf then 1 else 0;
    assert FiniteCodes(f) == rows * p + (p - gone);
    DivModUnique(FiniteCodes(f) - 1, p, rows, p - gone - 1);
    DivModUnique(FiniteCodes(f) - 2, p, rows, p - gone - 2);
  }

  lemma SmallestPowers()
    ensures Pow2(1) == 2 && Pow2(2) == 4
  {
    Pow2Step(1);
    Pow2Step(2);
  }

  /** The overflow boundary is the midpoint to the next code, which is a reserved one. */
  lemma BoundaryIsMid(f: Format)
    requires TopPair(f)
    ensures FiniteCodes(f) >= 2
    ensures var k := FiniteCodes(f) - 1;
            Boundary(ElemGrid(f)) == Midpoint(k, f.expBits, f.mantBits)
  {
    hide Pow2, Value, TwoTo, Weight, Down, Up, FiniteCodes;
    var E, m, k := f.expBits, f.mantBits, FiniteCodes(f) - 1;
    CodesFit(f);
    var s, w := ValueAt(k - 1, E, m);
    var t, z := ValueAt(k, E, m);
    var u := TwoTo(w);
    assert (s + 1) as real * u == s as real * u + u;
    assert (t + 1) as real * u == t as real * u + u;
  }

  // ---- The element formats -------------------------------------------------------------------------------

  const E2M1 := Format(2, 1, false, false)
  const E2M3 := Format(2, 3, false, false)
  const E3M2 := Format(3, 2, false, false)
  const E4M3 := Format(4, 3, false, true)
  const E5M2 := Format(5, 2, true, true)

  /** The tabled largest values are the tops of the grids. */
  lemma MaxFinites()
    ensures forall f :: f in {E2M1, E2M3, E3M2, E4M3, E5M2} ==> Element(f) && FiniteCodes(f) >= 2
    ensures ElemMax(E2M1) == 6.0 && ElemMax(E2M3) == 7.5 && ElemMax(E3M2) == 28.0
    ensures ElemMax(E4M3) == 448.0 && ElemMax(E5M2) == 57344.0
  {
    hide Value, TwoTo, Pow2;
    SmallConstants();
    TopIs(E2M1, 3, 1, 3, 1);
    TopIs(E2M3, 3, 7, 15, -1);
    TopIs(E3M2, 7, 3, 7, 2);
    TopIs(E4M3, 15, 6, 14, 5);
    TopIs(E5M2, 30, 3, 7, 13);
  }

  lemma TopIs(f: Format, ef: nat, mf: nat, s: nat, w: int)
    requires f.expBits > 0 && mf < Pow2(f.mantBits) && FiniteCodes(f) == Up(ef, f.mantBits) + mf + 1 >= 2
    requires Sig(ef, mf, f.mantBits) == s && Weight(ef, f.expBits, f.mantBits) == w
    ensures ElemMax(f) == s as real * TwoTo(w)
  {
    hide Value, TwoTo, Pow2, FiniteCodes, Weight, Sig;
    ValueOf(ef, mf, f.expBits, f.mantBits);
  }

  lemma SmallConstants()
    ensures Pow2(1) == 2 && Pow2(2) == 4 && Pow2(3) == 8 && Pow2(4) == 16 && Pow2(5) == 32
    ensures TwoTo(-1) == 0.5 && TwoTo(1) == 2.0 && TwoTo(2) == 4.0 && TwoTo(5) == 32.0 && TwoTo(13) == 8192.0
  {
    SmallestPowers();
    assert Pow2(5) == 32;
    assert Pow2(9) == 512;
  }

  /** The encoder's own table of E2M1, and the 7.0 from where on it gives nothing. */
  lemma E2m1Table()
    ensures FiniteCodes(E2M1) == 8 && ElemGrid(E2M1) == [0.0, 0.5, 1.0, 1.5, 2.0, 3.0, 4.0, 6.0]
    ensures Boundary(ElemGrid(E2M1)) == 7.0
  {
    hide Value, TwoTo, Pow2;
    SmallConstants();
    TwoToZero();
    ValueOf(0, 0, 2, 1);
    ValueOf(0, 1, 2, 1);
    ValueOf(1, 0, 2, 1);
    ValueOf(1, 1, 2, 1);
    ValueOf(2, 0, 2, 1);
    ValueOf(2, 1, 2, 1);
    ValueOf(3, 0, 2, 1);
    ValueOf(3, 1, 2, 1);
  }

  // ---- No product rounds ---------------------------------------------------------------------------------

  /** A correctly rounding multiplication returns every product FP32 can hold. */
  ghost predicate RightWhenExact(mul: (real, real) -> real) {
    forall a, b :: ProductFits(a, b) ==> mul(a, b) == a * b
  }

  /** Every product of a scale and an element threshold, the overflow boundary included, is an FP32 value. */
  lemma ProductFitsFp32(f: Format, scale: nat, k: nat)
    requires Element(f) && scale < 0x7F && k < FiniteCodes(f)
    ensures ProductFits(Value(scale, 4, 3), Midpoint(k, f.expBits, f.mantBits))
  {
    hide Value, TwoTo, Midpoint, FiniteCodes, Weight, ProductFits;
    CodesFit(f);
    ScaleConstants();
    var t, z := ValueAt(scale, 4, 3);
    NarrowWeights(scale, 4, 3);
    var s, w := MidAt(k, f.expBits, f.mantBits);
    ProductFitsBy(Value(scale, 4, 3), Midpoint(k, f.expBits, f.mantBits), t, z, s, w);
  }

  lemma ElemProductsExact(mul: (real, real) -> real, f: Format, scale: nat, rungs: seq<Rung>)
    requires RightWhenExact(mul) && Element(f) && scale < 0x7F && FiniteCodes(f) >= 2
    requires IsMidLadder(ElemGrid(f), 0, 1.0, rungs)
    ensures ProductsExact(mul, Value(scale, 4, 3), rungs)
  {
    hide Value, ProductFits, FiniteCodes;
    forall i | 0 <= i < |rungs| ensures mul(Value(scale, 4, 3), rungs[i].thr) == Value(scale, 4, 3) * rungs[i].thr {
      ProductFitsFp32(f, scale, i);
      assert rungs[i].thr == Midpoint(i, f.expBits, f.mantBits);
    }
  }

  /** Every threshold of the scale ladder is an FP32 constant: a product of the element format's largest value with a
      midpoint, or a value, of the scale grid. */
  lemma ScaleThresholdsFit(f: Format, policy: Policy, p: seq<nat>, base: nat, rungs: seq<Rung>, i: nat)
    requires Element(f) && FiniteCodes(f) >= 2 && i < |rungs|
    requires IsScaleLadder(Scales(), ElemMax(f), policy, p, base, rungs)
    ensures Fp32(rungs[i].thr)
  {
    hide Value, TwoTo, FiniteCodes, Weight, ProductFits, Fp32, Mid;
    match policy
    case Exact =>
      assert rungs[i] == MidRung(Scales(), 1 + i, ElemMax(f));
      MidIsMidpoint(1 + i);
      ScaleMidFits(f, 1 + i, rungs[i].thr);
    case FloorPow2 =>
      assert rungs[i] == Rung(Reach(Scales(), ElemMax(f), p[i]), false, p[i]);
      ScaleValueFits(f, p[i], rungs[i].thr);
    case CeilPow2 =>
      assert rungs[i] == Rung(Reach(Scales(), ElemMax(f), p[i]), true, p[i + 1]);
      ScaleValueFits(f, p[i], rungs[i].thr);
  }

  lemma MidIsMidpoint(k: nat)
    requires k + 1 < 0x7F
    ensures Mid(Scales(), k) == Midpoint(k, 4, 3)
  {
    hide Value;
  }

  lemma ScaleMidFits(f: Format, k: nat, thr: real)
    requires Element(f) && FiniteCodes(f) >= 2 && k < 0x7F && thr == ElemMax(f) * Midpoint(k, 4, 3)
    ensures Fp32(thr)
  {
    hide Value, TwoTo, FiniteCodes, Weight, Midpoint, Fp32;
    CodesFit(f);
    var top := FiniteCodes(f) - 1;
    var t, z := ValueAt(top, f.expBits, f.mantBits);
    NarrowWeights(top, f.expBits, f.mantBits);
    ScaleConstants();
    var s, w := MidAt(k, 4, 3);
    ProductFitsBy(ElemMax(f), Midpoint(k, 4, 3), t, z, s, w);
  }

  lemma ScaleValueFits(f: Format, k: nat, thr: real)
    requires Element(f) && FiniteCodes(f) >= 2 && k < 0x7F && thr == ElemMax(f) * Value(k, 4, 3)
    ensures Fp32(thr)
  {
    hide Value, TwoTo, FiniteCodes, Weight, Fp32;
    CodesFit(f);
    var top := FiniteCodes(f) - 1;
    var t, z := ValueAt(top, f.expBits, f.mantBits);
    NarrowWeights(top, f.expBits, f.mantBits);
    ScaleConstants();
    var s, w := ValueAt(k, 4, 3);
    NarrowWeights(k, 4, 3);
    ProductFitsBy(ElemMax(f), Value(k, 4, 3), t, z, s, w);
  }

  // ---- A block ---------------------------------------------------------------------------------------------

  /** An FP32 input of the block: sign and magnitude, or an infinity or NaN. */
  datatype Sample = Finite(neg: bool, mag: real) | NonFinite

  /** An element of the block: sign and code, or the format's own answer to an overflowing value. */
  datatype Elem = Code(neg: bool, code: nat) | Overflow(neg: bool)

  datatype Block = Block(scale: nat, elems: seq<Elem>)

  const NAN_SCALE := 0x7F

  ghost predicate Sound(v: seq<Sample>) {
    forall i :: 0 <= i < |v| && v[i].Finite? ==> v[i].mag >= 0.0
  }

  ghost predicate AllFinite(v: seq<Sample>) {
    forall i :: 0 <= i < |v| ==> v[i].Finite?
  }

  ghost predicate Largest(v: seq<Sample>, amax: real) {
    amax >= 0.0 && AllFinite(v) && (forall i :: 0 <= i < |v| ==> v[i].mag <= amax)
    && (amax > 0.0 ==> exists i :: 0 <= i < |v| && v[i].mag == amax)
  }

  /** The largest value of the element format. */
  function ElemMax(f: Format): real
    requires f.expBits > 0 && FiniteCodes(f) >= 2
  {
    ElemGrid(f)[FiniteCodes(f) - 1]
  }

  /** What an element owes its input: the sign, and the code nearest to the quotient by the scale, ties to even, unless
      the format has somewhere to overflow to and the quotient reaches the boundary. */
  ghost predicate Quantized(f: Format, x: real, s: Sample, e: Elem)
    requires f.expBits > 0 && FiniteCodes(f) >= 2 && x > 0.0
  {
    s.Finite? && e.neg == s.neg
    && var g, y := ElemGrid(f), s.mag / x;
       (e.Overflow? <==> (f.hasInf || f.hasNan) && (y > Boundary(g) || (y == Boundary(g) && |g| % 2 == 0)))
       && (e.Code? ==> Nearest(g, 0, y, e.code))
  }

  method ElementOf(mul: (real, real) -> real, f: Format, scale: nat, rungs: seq<Rung>, ovf: bool, s: Sample) returns (e: Elem)
    requires RightWhenExact(mul) && Element(f) && 0 < scale < 0x7F && FiniteCodes(f) >= 2 && s.Finite?
    requires var g := ElemGrid(f);
             ovf == (f.hasInf || f.hasNan) && |rungs| == |g| - 1 + (if ovf then 1 else 0)
             && IsMidLadder(g, 0, 1.0, rungs[..|g| - 1])
             && (ovf ==> rungs[|g| - 1] == Rung(Boundary(g), (|g| - 1) % 2 == 0, 0))
    ensures Value(scale, 4, 3) > 0.0 && Quantized(f, Value(scale, 4, 3), s, e)
  {
    hide Value, FiniteCodes, RightWhenExact, Nearest, Ascending, Boundary, IsMidLadder, ProductsExact, Answers;
    var x, a := Value(scale, 4, 3), s.mag;
    ghost var g := ElemGrid(f);
    ValueOrder(scale, scale, 4, 3);
    var cmp := if ovf then rungs[..|rungs| - 1] else rungs;
    assert cmp == rungs[..|g| - 1];
    ElemProductsExact(mul, f, scale, cmp);
    var m := Climb(mul, cmp, 0, x, a);
    GridAscending(f.expBits, f.mantBits, |g|);
    assert a == (x * 1.0) * (a / x);
    LadderIsNearest(g, 0, 1.0, x, a, a / x, cmp, m);
    e := Code(s.neg, m);
    if ovf {
      var top := rungs[|rungs| - 1];
      var limit := mul(x, top.thr);
      BoundaryProduct(mul, f, scale, a);
      if if top.strict then a > limit else a >= limit {
        e := Overflow(s.neg);
      }
    }
  }

  lemma BoundaryProduct(mul: (real, real) -> real, f: Format, scale: nat, a: real)
    requires RightWhenExact(mul) && Element(f) && 0 < scale < 0x7F && FiniteCodes(f) >= 2
    ensures var x, b := Value(scale, 4, 3), Boundary(ElemGrid(f));
            x > 0.0 && mul(x, b) == x * b && (a > x * b <==> a / x > b) && (a >= x * b <==> a / x >= b)
  {
    hide Value, FiniteCodes, Boundary, Midpoint, ProductFits;
    BoundaryIsMid(f);
    ProductFitsFp32(f, scale, FiniteCodes(f) - 1);
    ValueOrder(scale, scale, 4, 3);
    var x, b := Value(scale, 4, 3), Boundary(ElemGrid(f));
    RealOrder(b, a / x, x);
    assert (a / x) * x == a && b * x == x * b;
  }

  /** The whole conversion. A block with an infinity or NaN gets the NaN scale and zero elements, an all-zero block the
      zero scale; otherwise the policy chooses the scale for the largest magnitude and every element is rounded once. */
  method Quantize(mul: (real, real) -> real, f: Format, policy: Policy, v: seq<Sample>) returns (b: Block, ghost amax: real)
    requires RightWhenExact(mul) && Element(f) && Sound(v)
    ensures FiniteCodes(f) >= 2 && ElemMax(f) > 0.0 && |b.elems| == |v|
    ensures !AllFinite(v) ==> b.scale == |Scales()| == FiniteCodes(Format(4, 3, false, true)) && forall i :: 0 <= i < |v| ==> b.elems[i] == Code(false, 0)
    ensures AllFinite(v) ==> Largest(v, amax)
    ensures AllFinite(v) && amax == 0.0 ==> Value(b.scale, 4, 3) == 0.0 && b.scale < |Scales()| && forall i :: 0 <= i < |v| ==> b.elems[i] == Code(false, 0)
    ensures AllFinite(v) && amax > 0.0 ==>
              0 < b.scale < 0x7F && Chosen(Scales(), ElemMax(f), policy, amax, b.scale) && Value(b.scale, 4, 3) > 0.0
              && forall i :: 0 <= i < |v| ==> Quantized(f, Value(b.scale, 4, 3), v[i], b.elems[i])
  {
    hide Value, FiniteCodes, RightWhenExact, Nearest, Ascending, Boundary, IsMidLadder, Answers, IsScaleLadder, Chosen, Quantized,
         Narrow, Pow2Codes, Scales;
    CodesFit(f);
    TopPositive(f);
    NoFiniteScale();
    var most, finite := 0.0, true;
    for i := 0 to |v|
      invariant finite <==> AllFinite(v[..i])
      invariant finite ==> Largest(v[..i], most)
    {
      LargestNext(v, i, most);
      if v[i].NonFinite? { finite := false; } else if v[i].mag > most { most := v[i].mag; }
    }
    assert v[..|v|] == v;
    amax := most;
    var zeros := seq(|v|, i => Code(false, 0));
    if !finite {
      return Block(NAN_SCALE, zeros), amax;
    }
    if most == 0.0 {
      return Block(0, zeros), amax;
    }
    var elemMax := ElemMax(f);
    var base, scaleRungs, p := ScaleLadder(elemMax, policy);
    var scale := Climb((a, b) => a * b, scaleRungs, base, 1.0, most);
    ScaleChosen(f, policy, p, base, scaleRungs, most, scale);
    var rungs, ovf := ElemLadder(f);
    var elems := [];
    for i := 0 to |v|
      invariant |elems| == i && forall k :: 0 <= k < i ==> Quantized(f, Value(scale, 4, 3), v[k], elems[k])
    {
      var e := ElementOf(mul, f, scale, rungs, ovf, v[i]);
      elems := elems + [e];
    }
    b := Block(scale, elems);
  }

  /** The NaN code is no finite scale: it is the one after the last. The zero block's scale is zero. */
  lemma NoFiniteScale()
    ensures NAN_SCALE == |Scales()| == FiniteCodes(Format(4, 3, false, true)) && Value(0, 4, 3) == 0.0
  {
    hide Value;
    ScaleConstants();
    ValueOrder(0, 0, 4, 3);
  }

  lemma LargestNext(v: seq<Sample>, i: nat, most: real)
    requires i < |v| && Sound(v)
    ensures AllFinite(v[..i + 1]) <==> AllFinite(v[..i]) && v[i].Finite?
    ensures AllFinite(v[..i + 1]) && Largest(v[..i], most) ==> Largest(v[..i + 1], if v[i].mag > most then v[i].mag else most)
  {
    var w, u := v[..i + 1], v[..i];
    assert w[i] == v[i];
    assert forall k :: 0 <= k < i ==> w[k] == u[k];
    if AllFinite(w) && Largest(u, most) && most > 0.0 {
      var k :| 0 <= k < |u| && u[k].mag == most;
      assert w[k].mag == most;
    }
  }

  lemma TopPositive(f: Format)
    requires f.expBits > 0 && FiniteCodes(f) >= 2
    ensures ElemMax(f) > 0.0
  {
    hide Value;
    ValueOrder(FiniteCodes(f) - 1, 0, f.expBits, f.mantBits);
  }

  lemma ScaleChosen(f: Format, policy: Policy, p: seq<nat>, base: nat, rungs: seq<Rung>, amax: real, scale: nat)
    requires Element(f) && FiniteCodes(f) >= 2 && ElemMax(f) > 0.0 && Pow2Codes(Scales(), p, |Scales()|)
    requires IsScaleLadder(Scales(), ElemMax(f), policy, p, base, rungs) && Answers(rungs, base, 1.0, amax, scale)
    ensures 0 < scale < 0x7F && Chosen(Scales(), ElemMax(f), policy, amax, scale)
    ensures Value(scale, 4, 3) > 0.0
  {
    hide Value, FiniteCodes, Answers, IsScaleLadder, Pow2Codes, Ascending, IsPow2, Reach;
    GridAscending(4, 3, 0x7F);
    ScaleIsChosen(Scales(), ElemMax(f), policy, p, base, rungs, amax, scale);
    ValueOrder(scale, scale, 4, 3);
  }

  // ---- Agreement with the encoders -----------------------------------------------------------------------

  /** At scale one the ladder is the encoder of an all-finite format: the same code below the encoder's boundary, and
      the largest one from there on, where the encoder gives nothing. */
  lemma LadderIsEncoder(f: Format, x: nat, neg: bool, e: Elem, best: nat)
    requires f.expBits > 0 && FiniteCodes(f) >= 2 && !f.hasInf && !f.hasNan
    requires Quantized(f, 1.0, Sample.Finite(neg, RealAbs(x)), e) && Nearest(ElemGrid(f), 0, RealAbs(x), best)
    ensures e == Code(neg, best)
  {
    hide Value, FiniteCodes, Nearest, Ascending, RealAbs;
    GridAscending(f.expBits, f.mantBits, FiniteCodes(f));
    NearestUnique(ElemGrid(f), 0, RealAbs(x), e.code, best);
  }

  lemma RealAbsIs(x: nat, E: nat, m: nat)
    requires E > 0
    ensures RealAbs(x) == FpRound.Magnitude(x, FpRound.Units(E, m)) as real * TwoTo(0 - FpRound.Units(E, m))
  {
    hide Pow2, TwoTo, FpRound.Significand, FpRound.Exponent, FpRound.Units;
    var u := FpRound.Units(E, m);
    UnitShift(FpRound.Significand(x), FpRound.Exponent(x) + u, E, m);
  }

  /** Distances between codes and a double, in units and as reals. */
  lemma GapIsDist(x: nat, c: nat, E: nat, m: nat)
    requires E > 0
    ensures Gap(RealAbs(x), Value(c, E, m))
         == FpRound.Dist(FpRound.Magnitude(x, FpRound.Units(E, m)), FpRound.Mag(c, m)) as real * TwoTo(0 - FpRound.Units(E, m))
  {
    hide RealAbs, FpRound.Magnitude, FpRound.Mag, TwoTo, FpRound.Units;
    RealAbsIs(x, E, m);
    var a, b, u := FpRound.Magnitude(x, FpRound.Units(E, m)), FpRound.Mag(c, m), TwoTo(0 - FpRound.Units(E, m));
    RealOrder(a as real, b as real, u);
    RealOrder(b as real, a as real, u);
    assert (b as real - a as real) * u == b as real * u - a as real * u;
    assert (a as real - b as real) * u == a as real * u - b as real * u;
  }

  /** At scale one the ladder of a format with an infinity is the generic rounder: its overflow rung fires exactly when
      the rounder answers infinity, and otherwise both give the same code. */
  lemma LadderIsRounder(f: Format, x: nat, neg: bool, e: Elem, r: nat)
    requires FpRound.Format(f.expBits, f.mantBits) && f.mantBits > 0 && f.hasInf && FpRound.Finite(x) && FiniteCodes(f) >= 2
    requires Quantized(f, 1.0, Sample.Finite(neg, RealAbs(x)), e)
    requires FpRound.NearestEven(FpRound.Magnitude(x, FpRound.Units(f.expBits, f.mantBits)), r,
                                 FpRound.InfCode(f.expBits, f.mantBits), f.mantBits)
    ensures e.Overflow? <==> r == FpRound.InfCode(f.expBits, f.mantBits)
    ensures e.Code? ==> e.code == r
  {
    hide Value, Nearest, Ascending, RealAbs, FpRound.Magnitude, FpRound.NearestEven, FpRound.Units, Boundary, TwoTo, Quantized,
         FpRound.Mag, FpRound.Step, FiniteCodes, FpRound.InfCode;
    var E, m := f.expBits, f.mantBits;
    var top := FpRound.InfCode(E, m);
    assert FiniteCodes(f) == top by { InfIsCount(f); }
    FpEncode.InfinityFrom(x, E, m, r);
    assert RealAbs(x) >= Boundary(ElemGrid(f)) <==> r == top by { OverflowTest(f, x); }
    InfinityEven(E, m);
    AtOne(f, RealAbs(x), neg, e);
    WithinTop(FpRound.Magnitude(x, FpRound.Units(E, m)), r, top, m);
    if r < top {
      RestrictNearest(f, x, r);
      GridAscending(E, m, top);
      NearestUnique(ElemGrid(f), 0, RealAbs(x), e.code, r);
    }
  }

  lemma WithinTop(v: nat, r: nat, top: nat, m: nat)
    requires FpRound.NearestEven(v, r, top, m)
    ensures r <= top
  {
  }

  lemma AtOne(f: Format, a: real, neg: bool, e: Elem)
    requires f.expBits > 0 && FiniteCodes(f) >= 2 && FiniteCodes(f) % 2 == 0 && f.hasInf
    requires Quantized(f, 1.0, Sample.Finite(neg, a), e)
    ensures e.Overflow? <==> a >= Boundary(ElemGrid(f))
    ensures e.Code? ==> Nearest(ElemGrid(f), 0, a, e.code)
  {
    hide Boundary, Nearest, Value, FiniteCodes;
    assert a / 1.0 == a;
  }

  lemma InfIsCount(f: Format)
    requires f.hasInf
    ensures FiniteCodes(f) == FpRound.InfCode(f.expBits, f.mantBits)
  {
  }

  lemma InfinityEven(E: nat, m: nat)
    requires FpRound.Format(E, m) && m > 0
    ensures FpRound.InfCode(E, m) % 2 == 0
  {
    hide Pow2;
    FpEncode.InfinityFavoured(E, m);
  }

  lemma OverflowTest(f: Format, x: nat)
    requires FpRound.Format(f.expBits, f.mantBits) && f.mantBits > 0 && f.hasInf && FiniteCodes(f) >= 2
    ensures var E, m, top := f.expBits, f.mantBits, FpRound.InfCode(f.expBits, f.mantBits);
            top > 0 && (RealAbs(x) >= Boundary(ElemGrid(f)) <==>
              2 * FpRound.Magnitude(x, FpRound.Units(E, m)) >= 2 * FpRound.Mag(top - 1, m) + FpRound.Step(top - 1, m))
  {
    hide Boundary, RealAbs, FpRound.Magnitude, FpRound.Mag, FpRound.Step, TwoTo, FpRound.Units, FiniteCodes, FpRound.InfCode;
    var E, m, top := f.expBits, f.mantBits, FpRound.InfCode(f.expBits, f.mantBits);
    InfIsCount(f);
    BoundaryIsMid(f);
    FpRound.MagStep(top - 1, m);
    RealAbsIs(x, E, m);
    var a, b, c, u := FpRound.Magnitude(x, FpRound.Units(E, m)), FpRound.Mag(top - 1, m), FpRound.Mag(top, m),
                      TwoTo(0 - FpRound.Units(E, m));
    RealOrder((2 * a) as real, (b + c) as real, u);
    assert (2 * a) as real * u == 2.0 * (a as real * u);
    assert (b + c) as real * u == b as real * u + c as real * u;
  }

  lemma RestrictNearest(f: Format, x: nat, r: nat)
    requires f.expBits > 0 && f.mantBits > 0 && f.hasInf && FiniteCodes(f) >= 2
    requires FpRound.NearestEven(FpRound.Magnitude(x, FpRound.Units(f.expBits, f.mantBits)), r,
                                 FpRound.InfCode(f.expBits, f.mantBits), f.mantBits)
    requires r < FiniteCodes(f)
    ensures Nearest(ElemGrid(f), 0, RealAbs(x), r)
  {
    hide Value, RealAbs, FpRound.Magnitude, FpRound.Mag, FpRound.Units, FpRound.Dist, TwoTo, Gap, FiniteCodes, FpRound.InfCode;
    var E, m, g, a := f.expBits, f.mantBits, ElemGrid(f), RealAbs(x);
    InfIsCount(f);
    forall j | 0 <= j < |g| ensures Gap(a, g[r]) <= Gap(a, g[j]) && (j != r && Gap(a, g[r]) == Gap(a, g[j]) ==> r % 2 == 0) {
      var v := FpRound.Magnitude(x, FpRound.Units(E, m));
      assert FpRound.Beats(v, r, j, m);
      GapIsDist(x, r, E, m);
      GapIsDist(x, j, E, m);
      RealOrder(FpRound.Dist(v, FpRound.Mag(r, m)) as real, FpRound.Dist(v, FpRound.Mag(j, m)) as real, TwoTo(0 - FpRound.Units(E, m)));
      RealOrder(FpRound.Dist(v, FpRound.Mag(j, m)) as real, FpRound.Dist(v, FpRound.Mag(r, m)) as real, TwoTo(0 - FpRound.Units(E, m)));
    }
  }
}
