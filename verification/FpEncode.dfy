/** The encoders of src/fp_lit.rs: the generic narrow rounder and the E4M3 encoder built around it. */
module FpEncode {
  import opened BitVec
  import opened Wrappers
  import opened FpRound
  import FpDouble

  predicate IsNan(x: nat) { ExpOf(x) == 0x7FF && MantOf(x) != 0 }

  predicate IsInfinite(x: nat) { ExpOf(x) == 0x7FF && MantOf(x) == 0 }

  /** The sign bit of x at the place it has in the target format. */
  function SignField(x: nat, expBits: nat, mantBits: nat): nat { if FpDouble.Negative(x) then Pow2(expBits + mantBits) else 0 }

  lemma SignFieldIs(x: nat, expBits: nat, mantBits: nat)
    ensures SignField(x, expBits, mantBits) == Up(SignOf(x), expBits + mantBits)
    ensures SignOf(x) == if FpDouble.Negative(x) then 1 else 0
  {
    hide Pow2, SignOf;
    FpDouble.SignIs(x);
  }

  // ---- The generic rounder -----------------------------------------------------------------------------

  /** Where the rounder meets its promise. With 52 mantissa bits nothing is dropped, and the source returns before
      its overflow test: a value above 2^(bias+1) then gets an exponent field past all-ones. */
  predicate Rounds(x: nat, expBits: nat, mantBits: nat)
    requires expBits > 0
  {
    mantBits <= 51 || Magnitude(x, Units(expBits, mantBits)) <= Mag(InfCode(expBits, mantBits), mantBits)
  }

  /** The one value the rounder gets right although it does not meet that: -2^(3 * 2^(expBits-1)). Its exponent field
      runs into the sign bit that is set anyway, and what is left of it is all ones, infinity's. */
  predicate Absorbed(x: nat, expBits: nat)
    requires expBits > 0
  {
    FpDouble.Negative(x) && MantOf(x) == 0 && ExpOf(x) == 1023 + 3 * Pow2(expBits - 1)
  }

  /** r is the sign of x followed by the code nearest to |x|. */
  ghost predicate IsRounded(r: nat, x: nat, expBits: nat, mantBits: nat)
    requires expBits > 0
  {
    r >= SignField(x, expBits, mantBits)
    && NearestEven(Magnitude(x, Units(expBits, mantBits)), r - SignField(x, expBits, mantBits),
                   InfCode(expBits, mantBits), mantBits)
  }

  /** The quiet bit of the packed NaN; without mantissa bits the mask removes it and a NaN packs as infinity. */
  function QuietBit(mantBits: nat): nat { if mantBits > 0 then Pow2(mantBits - 1) else 0 }

  method RoundF64ToNarrow(x: nat, expBits: nat, mantBits: nat) returns (r: nat)
    requires Format(expBits, mantBits)
    ensures IsNan(x) ==> r == SignField(x, expBits, mantBits) + InfCode(expBits, mantBits) + QuietBit(mantBits)
    ensures IsInfinite(x) ==> r == SignField(x, expBits, mantBits) + InfCode(expBits, mantBits)
    ensures Finite(x) ==> (IsRounded(r, x, expBits, mantBits) <==>
                             Rounds(x, expBits, mantBits) || (mantBits == 52 && Absorbed(x, expBits)))
    ensures Finite(x) && !FpDouble.Negative(x) && !Rounds(x, expBits, mantBits) ==> r > InfCode(expBits, mantBits)
  {
    hide Pow2, Pack, Low, Down, Up, NearestEven, Mag, RoundsUp, Aligned, MaxExp, Bias, Msb, Below, InfCode, SignOf,
         ExpOf, Units, Absorbed, SignField;
    SignFieldIs(x, expBits, mantBits);
    var sign, mant64 := SignOf(x), MantOf(x);
    var exp64: int := ExpOf(x);
    var bias, maxExp := Bias(expBits), MaxExp(expBits);
    MaxExpPositive(expBits);
    if exp64 == 0x7FF && mant64 != 0 {
      var nanMant := if mantBits > 0 then Pow2(mantBits - 1) else 1;
      PackNan(sign, expBits, mantBits);
      return Pack(sign, maxExp, nanMant, expBits, mantBits);
    }
    if exp64 == 0x7FF {
      PackCode(sign, maxExp, 0, expBits, mantBits);
      return Pack(sign, maxExp, 0, expBits, mantBits);
    }
    if exp64 == 0 && mant64 == 0 {
      PackCode(sign, 0, 0, expBits, mantBits);
      ZeroIsNearest(x, expBits, mantBits);
      return Pack(sign, 0, 0, expBits, mantBits);
    }
    var sig := if exp64 == 0 then mant64 else Pow2(52) + mant64;
    var e: int := if exp64 == 0 then 1 - 1023 - 52 else exp64 - 1023 - 52;
    var k := Msb(sig);
    var trueExp := e + k;
    var minNormal := 1 - bias;
    var frac, exp0 := k - mantBits, trueExp + bias;
    if trueExp < minNormal {
      frac, exp0 := k - mantBits + (minNormal - trueExp), 0;
    }
    assert Aligned(sig, e, expBits, mantBits, frac, exp0) by { AlignedIs(sig, e, k, expBits, mantBits, frac, exp0); }
    SignificandFits(x);
    if frac <= 0 {
      LosslessIsNearest(sig, e, expBits, mantBits, frac, exp0);
      LosslessPacked(x, exp0, Up(sig, -frac), frac, expBits, mantBits);
      if !Rounds(x, expBits, mantBits) {
        WideIsAbsorbed(x, exp0, frac, expBits);
      }
      return Pack(sign, exp0, Up(sig, -frac), expBits, mantBits);
    }
    WideDropsSubnormal(sig, e, expBits, mantBits, frac, exp0);
    RoundedIsNearest(sig, e, expBits, mantBits, frac, exp0);
    if frac >= 64 {
      TinyIsZero(sig, e, expBits, mantBits, frac, exp0);
      PackCode(sign, 0, 0, expBits, mantBits);
      return Pack(sign, 0, 0, expBits, mantBits);
    }
    var kept, exp := Down(sig, frac), exp0;
    ghost var kept0 := kept;
    KeptRange(sig, e, expBits, mantBits, frac, exp0);
    if RoundsUp(sig, frac) {
      kept := kept + 1;
      CarryTest(kept, exp0, mantBits);
      if BitSet(kept, if exp0 > 0 then mantBits + 1 else mantBits) {
        exp := exp + 1;
      }
    }
    Repack(kept0, exp0, kept, exp, expBits, mantBits);
    if exp >= maxExp {
      PackCode(sign, maxExp, 0, expBits, mantBits);
      return Pack(sign, maxExp, 0, expBits, mantBits);
    }
    PackCode(sign, exp, kept, expBits, mantBits);
    return Pack(sign, exp, kept, expBits, mantBits);
  }

  lemma PackCode(sign: nat, exp: nat, mant: nat, E: nat, m: nat)
    requires sign < 2 && exp <= MaxExp(E) && E + m <= 63
    ensures Pack(sign, exp, mant, E, m) == Up(sign, E + m) + Up(exp, m) + Low(mant, m)
    ensures mant == 0 ==> Low(mant, m) == 0
    ensures Up(MaxExp(E), m) == InfCode(E, m) && Up(0, m) == 0
  {
    hide Pow2, Pack;
    PackIs(sign, exp, mant, E, m);
    LowOfSmall(0, m);
  }

  /** Without dropped bits the packed fields spell the value's own code, in the sign-free part at least. */
  lemma LosslessPacked(x: nat, exp0: nat, mant: nat, frac: int, E: nat, m: nat)
    requires Format(E, m) && Finite(x) && frac <= 0 && Aligned(Significand(x), Exponent(x), E, m, frac, exp0)
    requires var c := Up(exp0, m) + Low(mant, m);
             c <= InfCode(E, m) <==> Magnitude(x, Units(E, m)) <= Mag(InfCode(E, m), m)
    ensures Rounds(x, E, m) || SignOf(x) == 0 ==>
              Pack(SignOf(x), exp0, mant, E, m) == SignField(x, E, m) + (Up(exp0, m) + Low(mant, m))
    ensures Rounds(x, E, m) <==> Up(exp0, m) + Low(mant, m) <= InfCode(E, m)
  {
    hide Pow2, Pack, Low, Mag, Up, Aligned, Magnitude, Units, SignField;
    SignFieldIs(x, E, m);
    SignificandFits(x);
    LosslessSmall(Significand(x), Exponent(x), E, m, frac, exp0);
    CodeOrder(exp0, Low(mant, m), E, m);
    if exp0 <= MaxExp(E) {
      PackCode(SignOf(x), exp0, mant, E, m);
    } else if SignOf(x) == 0 {
      PackPositive(exp0, mant, E, m);
    }
  }

  lemma CodeOrder(exp: nat, low: nat, E: nat, m: nat)
    requires low < Pow2(m)
    ensures exp < MaxExp(E) ==> Up(exp, m) + low <= InfCode(E, m)
    ensures exp > MaxExp(E) ==> Up(exp, m) + low > InfCode(E, m)
  {
    hide Pow2;
    ScaleOrder(exp, MaxExp(E), Pow2(m));
    ScaleOrder(exp + 1, MaxExp(E), Pow2(m));
    assert (exp + 1) * Pow2(m) == exp * Pow2(m) + Pow2(m);
  }

  lemma PackPositive(exp: nat, mant: nat, E: nat, m: nat)
    requires exp < 4096 && m <= 52
    ensures Pack(0, exp, mant, E, m) == Up(0, E + m) + (Up(exp, m) + Low(mant, m))
  {
    hide Pow2, Bitwise, Low, Up;
    assert Pow2(12) == 4096 by { TenBits(); Pow2Step(11); Pow2Step(12); }
    UpBelow(exp, 12, m);
    Pow2Monotone(12 + m, 64);
    LowOfSmall(Up(exp, m), 64);
    LowOfSmall(0, 64);
    assert Up(0, E + m) == 0 && Up(0, 64) == 0 by { UpZero(E + m); UpZero(64); }
    OrShifted(0, Up(exp, m), 64);
    OrShifted(exp, Low(mant, m), m);
  }

  lemma UpZero(k: nat)
    ensures Up(0, k) == 0
  {
  }

  lemma PackNan(sign: nat, E: nat, m: nat)
    requires sign < 2 && Format(E, m)
    ensures Pack(sign, MaxExp(E), if m > 0 then Pow2(m - 1) else 1, E, m) == Up(sign, E + m) + InfCode(E, m) + QuietBit(m)
  {
    hide Pow2, Pack;
    PackCode(sign, MaxExp(E), if m > 0 then Pow2(m - 1) else 1, E, m);
    if m > 0 {
      Pow2Step(m);
      LowOfSmall(Pow2(m - 1), m);
    } else {
      LowZero(1);
    }
  }

  // ---- Formats as wide as a double -----------------------------------------------------------------------

  /** Or-ing a value shifted up by k bits leaves the low k bits alone. */
  lemma {:induction false} OrHigh(a: nat, x: nat, k: nat)
    ensures Bitwise(OrBits, Up(a, k), x) == Up(Bitwise(OrBits, a, Down(x, k)), k) + Low(x, k)
    decreases k
  {
    if k == 0 {
      LowZero(x);
      assert Up(a, 0) == a && Down(x, 0) == x;
    } else {
      hide Bitwise, Low, Pow2;
      OrHigh(a, x / 2, k - 1);
      UpDouble(a, k - 1);
      var s := Up(a, k - 1);
      BitwiseUnfold(OrBits, 2 * s, x);
      assert (2 * s) / 2 == s && (2 * s) % 2 == 0;
      LowStep(x, k);
      DownStep(x, k);
      UpDouble(Bitwise(OrBits, a, Down(x, k)), k - 1);
    }
  }

  lemma DownStep(x: nat, k: nat)
    requires k > 0
    ensures Down(x, k) == Down(x / 2, k - 1)
  {
    hide Pow2;
    var p := Pow2(k - 1);
    Pow2Step(k);
    var q, r := (x / 2) / p, (x / 2) % p;
    Regroup(q, p, r, x % 2);
    DivModUnique(x, 2 * p, q, 2 * r + x % 2);
  }

  /** Or-ing 2^E into an exponent field gives 2^E and all ones below exactly for these two fields. */
  lemma OrAllOnes(exp: nat, E: nat)
    ensures Bitwise(OrBits, Pow2(E), exp) == 2 * Pow2(E) - 1 <==> exp == Pow2(E) - 1 || exp == 2 * Pow2(E) - 1
  {
    hide Pow2, Bitwise;
    var hi, lo := Down(exp, E), Low(exp, E);
    assert Up(1, E) == Pow2(E);
    OrHigh(1, exp, E);
    DownSplit(exp, E);
    BitwiseUnfold(OrBits, 1, hi);
    OrZero(hi / 2);
    BitwiseSymmetric(OrBits, 0, hi / 2);
    var or := Bitwise(OrBits, 1, hi);
    assert or == 1 + 2 * (hi / 2);
    if hi / 2 == 0 {
      assert or == 1 && Up(or, E) == Pow2(E) && (hi == 0 || hi == 1);
      assert Up(hi, E) == if hi == 0 then 0 else Pow2(E);
    } else {
      MulMonotone(3, or, Pow2(E));
      MulMonotone(2, hi, Pow2(E));
    }
  }

  /** The wide result word: sign and exponent fields or-ed, the mantissa below them. */
  lemma PackWide(sign: nat, exp: nat, mant: nat, E: nat)
    requires sign < 2 && exp < 4096 && 2 <= E && E + 52 <= 63
    ensures Pack(sign, exp, mant, E, 52) == Up(Bitwise(OrBits, Up(sign, E), exp), 52) + Low(mant, 52)
  {
    hide Pow2, Bitwise, Low, Up, Down;
    assert Pow2(12) == 4096 by { TenBits(); Pow2Step(11); Pow2Step(12); }
    UpBelow(exp, 12, 52);
    LowOfSmall(Up(exp, 52), 64);
    PackFits(sign, 0, E, 52) by { assert 0 <= MaxExp(E); }
    UpUp(sign, E, 52);
    OrHigh(Up(sign, E), Up(exp, 52), 52);
    DownOfUp(exp, 52);
    OrShifted(Bitwise(OrBits, Up(sign, E), exp), Low(mant, 52), 52);
  }

  lemma UpUp(a: nat, j: nat, k: nat)
    ensures Up(a, j + k) == Up(Up(a, j), k)
  {
    hide Pow2;
    Pow2Add(j, k);
    assert a * (Pow2(j) * Pow2(k)) == (a * Pow2(j)) * Pow2(k);
  }

  lemma DownOfUp(x: nat, k: nat)
    ensures Down(Up(x, k), k) == x && Low(Up(x, k), k) == 0
  {
    hide Pow2;
    DivModUnique(Up(x, k), Pow2(k), x, 0);
  }

  /** An out-of-range value of the widest mantissa keeps its own fields, with the exponent field rebiased. */
  lemma WideFields(x: nat, exp0: nat, frac: int, E: nat)
    requires Format(E, 52) && Finite(x) && frac <= 0 && Aligned(Significand(x), Exponent(x), E, 52, frac, exp0)
    requires exp0 >= MaxExp(E)
    ensures exp0 == ExpOf(x) - 1023 + Bias(E) && frac == 0 && Low(Significand(x), 52) == MantOf(x)
  {
    hide Pow2, Low, ExpOf, Down;
    MaxExpPositive(E);
    SignificandFits(x);
    var sig := Significand(x);
    MsbBelow(sig, 53);
    Pow2Monotone(E - 1, 10);
    TenBits();
    if ExpOf(x) == 0 {
      MsbBelow(sig, 52);
      assert false;
    }
    if Msb(sig) < 52 { Pow2Monotone(Msb(sig) + 1, 52); }
    LowUnique(sig, 1, MantOf(x), 52);
  }

  /** Past the reach of `Rounds` the packed word is the nearest code, infinity, for the absorbed value alone. */
  lemma WideIsAbsorbed(x: nat, exp0: nat, frac: int, E: nat)
    requires Format(E, 52) && Finite(x) && frac <= 0 && Aligned(Significand(x), Exponent(x), E, 52, frac, exp0)
    requires !Rounds(x, E, 52) && Up(exp0, 52) + Low(Up(Significand(x), -frac), 52) > InfCode(E, 52)
    ensures IsRounded(Pack(SignOf(x), exp0, Up(Significand(x), -frac), E, 52), x, E, 52) <==> Absorbed(x, E)
  {
    hide Pow2, Pack, Low, Mag, Up, Aligned, Magnitude, Units, NearestEven, ExpOf, SignOf, MantOf, Significand, Exponent, Bitwise;
    var mant := Up(Significand(x), -frac);
    var r := Pack(SignOf(x), exp0, mant, E, 52);
    SignificandFits(x);
    LosslessSmall(Significand(x), Exponent(x), E, 52, frac, exp0);
    CodeOrder(exp0, Low(mant, 52), E, 52);
    WideFields(x, exp0, frac, E);
    assert Up(Significand(x), 0) == Significand(x) by { UpByZero(Significand(x)); }
    PackWide(SignOf(x), exp0, mant, E);
    SignFieldIs(x, E, 52);
    OnlyInfinity(x, r, E);
    AbsorbedFields(x, exp0, E);
    WideWord(SignOf(x), exp0, MantOf(x), E);
  }

  /** A value above the infinity code's magnitude is nearest to infinity and to nothing else. */
  lemma OnlyInfinity(x: nat, r: nat, E: nat)
    requires Format(E, 52) && !Rounds(x, E, 52)
    ensures IsRounded(r, x, E, 52) <==> r == SignField(x, E, 52) + InfCode(E, 52)
  {
    hide Mag, NearestEven, Units, InfCode, SignField, Magnitude;
    var v, top := Magnitude(x, Units(E, 52)), InfCode(E, 52);
    NearestTop(v, top, 52);
    if IsRounded(r, x, E, 52) {
      NearestUnique(v, top, r - SignField(x, E, 52), top, 52);
    }
  }

  /** The absorbed value by its magnitude, and the formats in which a double reaches it. */
  lemma AbsorbedIs(x: nat, expBits: nat, u: nat)
    requires 2 <= expBits && u >= 1074 && Finite(x)
    ensures Absorbed(x, expBits) ==> FpDouble.Negative(x) && Magnitude(x, u) == Pow2(3 * Pow2(expBits - 1) + u) && expBits <= 9
  {
    hide Pow2, SignOf, Low, Down;
    if Absorbed(x, expBits) {
      Pow2Add(52, 3 * Pow2(expBits - 1) - 52 + u);
      TenBits();
      Pow2Step(11);
      Pow2Step(10);
      if expBits >= 10 { Pow2Monotone(9, expBits - 1); }
    }
  }

  lemma AbsorbedFields(x: nat, exp0: nat, E: nat)
    requires E > 0 && exp0 == ExpOf(x) - 1023 + Bias(E)
    ensures Absorbed(x, E) <==> SignOf(x) == 1 && MantOf(x) == 0 && exp0 == 2 * Pow2(E) - 1
  {
    hide SignOf, MantOf, ExpOf, Pow2;
    FpDouble.SignIs(x);
    Pow2Step(E);
  }

  lemma WideWord(sign: nat, exp: nat, mant: nat, E: nat)
    requires sign < 2 && mant < Pow2(52) && E > 0 && Up(exp, 52) + mant > InfCode(E, 52)
    ensures Up(Bitwise(OrBits, Up(sign, E), exp), 52) + mant == Up(sign, E + 52) + InfCode(E, 52)
            <==> sign == 1 && mant == 0 && exp == 2 * Pow2(E) - 1
  {
    hide Pow2, Bitwise, Up, InfCode;
    var word := Bitwise(OrBits, Up(sign, E), exp);
    UpUp(sign, E, 52);
    var inf := Up(sign, E) + MaxExp(E);
    assert Up(sign, E + 52) + InfCode(E, 52) == Up(inf, 52) by { UpAdd(Up(sign, E), MaxExp(E), 52); InfIsUp(E); }
    SameWord(word, mant, inf, 52);
    assert Up(word, 52) + mant == Up(inf, 52) <==> word == inf && mant == 0;
    assert Up(0, E) == 0 && Up(1, E) == Pow2(E) by { UpZero(E); UpAdd(0, 1, E); }
    OrZero(exp);
    BitwiseSymmetric(OrBits, 0, exp);
    OrAllOnes(exp, E);
    InfIsUp(E);
  }

  lemma InfIsUp(E: nat)
    ensures InfCode(E, 52) == Up(MaxExp(E), 52)
  {
  }

  lemma SameWord(a: nat, low: nat, b: nat, k: nat)
    requires low < Pow2(k)
    ensures Up(a, k) + low == Up(b, k) <==> a == b && low == 0
  {
    hide Pow2;
    DivModUnique(Up(a, k) + low, Pow2(k), a, low);
    DivModUnique(Up(b, k), Pow2(k), b, 0);
  }

  lemma ZeroIsNearest(x: nat, E: nat, m: nat)
    requires Format(E, m) && ExpOf(x) == 0 && MantOf(x) == 0
    ensures NearestEven(Magnitude(x, Units(E, m)), 0, InfCode(E, m), m) && Rounds(x, E, m)
  {
    hide Pow2, Mag, NearestEven;
    assert Significand(x) == 0;
    LowOfSmall(0, m);
    MagOf(0, 0, m);
    MagMonotone(0, 1, m);
    MaxExpPositive(E);
    MulMonotone(1, MaxExp(E), Pow2(m));
    NearestDown(0, 0, InfCode(E, m), m);
  }

  lemma AlignedIs(sig: nat, e: int, k: nat, E: nat, m: nat, frac: int, exp0: nat)
    requires E > 0 && sig > 0 && e >= -1074 && k == Msb(sig)
    requires if e + k >= 1 - Bias(E) then frac == k - m && exp0 == e + k + Bias(E)
             else frac == k - m + (1 - Bias(E) - (e + k)) && exp0 == 0
    ensures Aligned(sig, e, E, m, frac, exp0)
  {
  }

  lemma SignificandFits(x: nat)
    ensures Significand(x) < Pow2(53)
    ensures Significand(x) >= Pow2(52) || Exponent(x) == -1074
    ensures Finite(x) ==> Exponent(x) <= 2046 - 1023 - 52
  {
    hide Pow2, Low, Down;
    Pow2Step(53);
    TenBits();
    Pow2Step(11);
  }

  /** The bit the source tests after incrementing is set exactly when the kept part left its binade. */
  lemma CarryTest(kept: nat, exp0: nat, m: nat)
    requires if exp0 > 0 then Pow2(m) < kept <= 2 * Pow2(m) else 0 < kept <= Pow2(m)
    ensures BitSet(kept, if exp0 > 0 then m + 1 else m) <==> kept == if exp0 > 0 then 2 * Pow2(m) else Pow2(m)
  {
    hide Pow2;
    Pow2Step(m + 1);
    Pow2Step(1);
    LowZero(0);
    var p := Pow2(if exp0 > 0 then m + 1 else m);
    if kept == p { DivModUnique(kept, p, 1, 0); } else { DivModUnique(kept, p, 0, kept); }
  }

  /** The final exponent and mantissa fields spell the code reached. */
  lemma Repack(kept0: nat, exp0: nat, kept: nat, exp: nat, E: nat, m: nat)
    requires if exp0 > 0 then Pow2(m) <= kept0 < 2 * Pow2(m) else kept0 < Pow2(m)
    requires kept0 <= kept <= kept0 + 1
    requires exp == exp0 + if kept == (if exp0 > 0 then 2 * Pow2(m) else Pow2(m)) then 1 else 0
    ensures Up(exp, m) + Low(kept, m) == Below(kept0, exp0, m) + (kept - kept0)
    ensures exp > exp0 ==> Low(kept, m) == 0
    ensures Up(MaxExp(E), m) == InfCode(E, m)
  {
    hide Pow2, Low;
    var top := if exp0 > 0 then 2 * Pow2(m) else Pow2(m);
    if kept == top {
      LowUnique(kept, if exp0 > 0 then 2 else 1, 0, m);
      UpAdd(exp0, 1, m);
    } else {
      LowUnique(kept, if exp0 > 0 then 1 else 0, if exp0 > 0 then kept - Pow2(m) else kept, m);
    }
  }

  /** The rounder answers infinity exactly from half a unit in the last place above the largest finite value. */
  lemma InfinityFrom(x: nat, expBits: nat, mantBits: nat, code: nat)
    requires Format(expBits, mantBits) && Finite(x)
    requires NearestEven(Magnitude(x, Units(expBits, mantBits)), code, InfCode(expBits, mantBits), mantBits)
    ensures InfCode(expBits, mantBits) > 0
    ensures code == InfCode(expBits, mantBits) <==>
            2 * Magnitude(x, Units(expBits, mantBits))
            >= 2 * Mag(InfCode(expBits, mantBits) - 1, mantBits) + Step(InfCode(expBits, mantBits) - 1, mantBits)
  {
    hide Pow2, Mag, Step, NearestEven, Units, Magnitude;
    var top := InfCode(expBits, mantBits);
    MaxExpPositive(expBits);
    MulMonotone(1, MaxExp(expBits), Pow2(mantBits));
    InfinityFavoured(expBits, mantBits);
    MagStep(top - 1, mantBits);
    TopFrom(Magnitude(x, Units(expBits, mantBits)), code, top, mantBits);
  }

  /** On a tie with the largest finite code infinity is favoured. */
  lemma InfinityFavoured(E: nat, m: nat)
    requires Format(E, m)
    ensures InfCode(E, m) > 0 && Favoured(InfCode(E, m), InfCode(E, m) - 1, m)
  {
    hide Pow2;
    MaxExpPositive(E);
    MulMonotone(1, MaxExp(E), Pow2(m));
    if m > 0 {
      Pow2Step(m);
      MulTwo(MaxExp(E), Pow2(m - 1));
      EvenShift(0, MaxExp(E) * Pow2(m - 1), 0);
    } else {
      LowZero(0);
      Pow2Monotone(2, E);
      Pow2Step(2);
      Pow2Step(1);
    }
  }

  // ---- E4M3 --------------------------------------------------------------------------------------------

  /** The steps of the top E4M3 binade: 32, in units of 2^-Units(4, 3). */
  const TOP_STEP := 1089

  method F64ToE4m3Bits(x: nat) returns (r: Option<nat>)
    ensures !Finite(x) ==> r == None
    ensures Finite(x) ==> (r == None <==> Magnitude(x, Units(4, 3)) > Up(464, Units(4, 3)))
    ensures Finite(x) && r.Some? ==>
              r.value >= SignField(x, 4, 3)
              && NearestEven(Magnitude(x, Units(4, 3)), r.value - SignField(x, 4, 3), 126, 3)
  {
    hide Pow2, Low, Down, NearestEven, Mag, ExpOf, SignOf, MantOf, Significand, Exponent, Magnitude, Bitwise, SignField;
    SignFieldIs(x, 4, 3);
    if !Finite(x) {
      return None;
    }
    SmallPowers();
    var a := Magnitude(x, Units(4, 3));
    if a >= Up(8, TOP_STEP) {
      var f := Down(a, TOP_STEP);
      var rest := Low(a, TOP_STEP);
      var m := if 2 * rest > Pow2(TOP_STEP) then f + 1 else if 2 * rest < Pow2(TOP_STEP) then f
               else if f % 2 == 0 then f else f + 1;
      TopBinade(a, m);
      if m >= 15 {
        return None;
      }
      OrFields(SignOf(x), m - 8);
      return Some(Bitwise(OrBits, Bitwise(OrBits, Up(SignOf(x), 7), 0x78), m - 8));
    }
    var b := RoundF64ToNarrow(x, 4, 3);
    SmallResult(a, SignOf(x), b);
    return Some(Low(b, 8));
  }

  lemma SmallPowers()
    ensures Pow2(3) == 8 && Pow2(4) == 16 && Pow2(5) == 32 && Pow2(7) == 128 && Pow2(8) == 256
    ensures Units(4, 3) == 1084 && InfCode(4, 3) == 120
    ensures Up(464, Units(4, 3)) * 2 == 29 * Pow2(TOP_STEP)
  {
    Pow2At3();
    Pow2Add(5, 1084);
    UpValue();
  }

  lemma Pow2At3()
    ensures Pow2(3) == 8 && Pow2(4) == 16 && Pow2(5) == 32 && Pow2(7) == 128 && Pow2(8) == 256
  {
    assert Pow2(2) == 4;
    assert Pow2(6) == 2 * Pow2(5);
  }

  lemma UpValue()
    requires Pow2(5) == 32 && Pow2(5 + 1084) == Pow2(5) * Pow2(1084)
    ensures Up(464, 1084) * 2 == 29 * Pow2(TOP_STEP)
  {
    hide Pow2;
  }

  lemma TopCode(f: nat)
    requires 8 <= f < 15
    ensures Mag(112 + f, 3) == f * Pow2(TOP_STEP) && Mag(113 + f, 3) == (f + 1) * Pow2(TOP_STEP)
  {
    hide Pow2, Mag, Step;
    SmallPowers();
    MagOf(15, f - 8, 3);
    MagStep(112 + f, 3);
  }

  /** The nearest whole number to a / 2^TOP_STEP, ties to even. */
  predicate NearestStep(a: nat, m: nat) {
    var f, rest := Down(a, TOP_STEP), Low(a, TOP_STEP);
    m == if 2 * rest > Pow2(TOP_STEP) then f + 1 else if 2 * rest < Pow2(TOP_STEP) then f
         else if f % 2 == 0 then f else f + 1
  }

  /** In the top binade the nearest multiple of 32, ties to even, is the nearest code; code 127 is the NaN slot. */
  lemma TopBinade(a: nat, m: nat)
    requires a >= Up(8, TOP_STEP) && NearestStep(a, m)
    ensures m >= 8 && (m >= 15 <==> a > Up(464, Units(4, 3)))
    ensures m < 15 ==> NearestEven(a, 112 + m, 126, 3)
  {
    hide Pow2, Low, Down, NearestEven, Mag, NearestStep;
    SmallPowers();
    var f := Down(a, TOP_STEP);
    DownSplit(a, TOP_STEP);
    StepIs(a, m);
    ScaleOrder(f + 1, 8, Pow2(TOP_STEP));
    if f >= 15 {
      MulMonotone(15, f, Pow2(TOP_STEP));
    } else {
      TopNearest(a, m);
      TopMidpoint(a, 112 + m);
      if m < 15 { Shrink(a, 112 + m); }
    }
  }

  lemma StepIs(a: nat, m: nat)
    requires NearestStep(a, m)
    ensures Down(a, TOP_STEP) <= m <= Down(a, TOP_STEP) + 1
  {
    hide Pow2, Low, Down;
  }

  lemma TopNearest(a: nat, m: nat)
    requires NearestStep(a, m) && 8 <= Down(a, TOP_STEP) < 15
    ensures NearestEven(a, 112 + m, 127, 3)
  {
    hide Pow2, Low, Down, NearestEven, Mag;
    var f := Down(a, TOP_STEP);
    DownSplit(a, TOP_STEP);
    TopCode(f);
    if m == f { NearestDown(a, 112 + f, 127, 3); } else { NearestUp(a, 112 + f, 127, 3); }
  }

  lemma TopMidpoint(a: nat, c: nat)
    requires NearestEven(a, c, 127, 3)
    ensures c == 127 <==> a > Up(464, Units(4, 3))
  {
    hide Pow2, NearestEven, Mag;
    SmallPowers();
    TopCode(14);
    TopFrom(a, c, 127, 3);
  }

  lemma Shrink(a: nat, c: nat)
    requires NearestEven(a, c, 127, 3) && c <= 126
    ensures NearestEven(a, c, 126, 3)
  {
    hide Mag;
  }

  /** Below 256 the two grids agree, and code 120 stands for 256 in one and infinity in the other. */
  lemma SmallResult(a: nat, sign: nat, b: nat)
    requires a < Up(8, TOP_STEP) && sign < 2 && b >= Up(sign, 7) && NearestEven(a, b - Up(sign, 7), InfCode(4, 3), 3)
    ensures Low(b, 8) == b && a <= Up(464, Units(4, 3)) && NearestEven(a, b - Up(sign, 7), 126, 3)
  {
    hide Pow2, Mag;
    SmallPowers();
    LowOfSmall(b, 8);
    var r := b - Up(sign, 7);
    TopCode(8);
    forall c: nat | c <= 126 ensures Beats(a, r, c, 3) {
      assert Beats(a, r, 120, 3);
      if c > 120 { MagMonotone(120, c, 3); }
    }
  }

  lemma OrFields(sign: nat, low: nat)
    requires sign < 2 && low < 8
    ensures Bitwise(OrBits, Bitwise(OrBits, Up(sign, 7), 0x78), low) == Up(sign, 7) + 120 + low
  {
    hide Pow2, Bitwise;
    SmallPowers();
    OrShifted(sign, 0x78, 7);
    OrShifted(sign * 16 + 15, low, 3);
  }
}
