/** Rounding a double to a narrow IEEE-754 style format, as in src/fp_lit.rs.

    A double is its 64-bit pattern. Magnitudes are exact: a magnitude is a natural number of units of
    2^-u, with u large enough that every double and every code of the target format is a whole number
    of units. A target magnitude code is the exponent field followed by the mantissa field; the code
    with an all-ones exponent and a zero mantissa stands for infinity, and `Mag` continues the grid to it,
    so the overflow threshold of section 4.3.1 of IEEE 754-2019 is the midpoint below that code. */
module FpRound {
  import opened BitVec

  // ---- Doubles -----------------------------------------------------------------------------------------

  function SignOf(x: nat): (s: nat)
    ensures s < 2
  {
    Low(Down(x, 63), 1)
  }

  function ExpOf(x: nat): nat { Low(Down(x, 52), 11) }

  function MantOf(x: nat): (f: nat)
    ensures f < Pow2(52)
  {
    hide Pow2;
    Low(x, 52)
  }

  predicate Finite(x: nat) { ExpOf(x) != 0x7FF }

  function Significand(x: nat): nat { if ExpOf(x) == 0 then MantOf(x) else Pow2(52) + MantOf(x) }

  function Exponent(x: nat): (e: int)
    ensures e >= -1074
  {
    if ExpOf(x) == 0 then 1 - 1023 - 52 else ExpOf(x) - 1023 - 52
  }

  /** |x| in units of 2^-u. */
  function Magnitude(x: nat, u: nat): nat
    requires u >= 1074
  {
    Significand(x) * Pow2(Exponent(x) + u)
  }

  // ---- Target formats ----------------------------------------------------------------------------------

  predicate Format(expBits: nat, mantBits: nat) {
    2 <= expBits <= 16 && mantBits <= 52 && expBits + mantBits <= 63
  }

  function Bias(expBits: nat): nat
    requires expBits > 0
  {
    Pow2(expBits - 1) - 1
  }

  function MaxExp(expBits: nat): nat { Pow2(expBits) - 1 }

  /** The magnitude code of infinity. */
  function InfCode(expBits: nat, mantBits: nat): nat { Up(MaxExp(expBits), mantBits) }

  /** The units in which `Mag` measures the codes of a format: one unit is 2^-Units. */
  function Units(expBits: nat, mantBits: nat): (u: nat)
    requires expBits > 0
    ensures u >= 1074
  {
    1074 + Bias(expBits) + mantBits
  }

  /** The magnitude a code stands for: subnormal below the first binade, with an implicit leading one above. */
  function Mag(code: nat, mantBits: nat): nat {
    if Down(code, mantBits) == 0 then Up(Low(code, mantBits), 1075)
    else Up(Pow2(mantBits) + Low(code, mantBits), Down(code, mantBits) + 1074)
  }

  function Dist(a: int, b: int): nat { if a <= b then b - a else a - b }

  /** What decides between two codes equally near, as section 4.3.1 of IEEE 754-2019 has it: an even significand, and
      where both are odd, which happens only without mantissa bits, the larger magnitude. */
  predicate Favoured(r: nat, c: nat, mantBits: nat) {
    if mantBits > 0 then r % 2 == 0 else r == 0 || (c != 0 && r > c)
  }

  /** Code r is at least as near to v as code c, and the favoured one if it is only as near. */
  predicate Beats(v: nat, r: nat, c: nat, mantBits: nat) {
    Dist(v, Mag(r, mantBits)) <= Dist(v, Mag(c, mantBits))
    && (c != r && Dist(v, Mag(r, mantBits)) == Dist(v, Mag(c, mantBits)) ==> Favoured(r, c, mantBits))
  }

  /** r is the code nearest to v among 0..top, ties going to the favoured code. */
  ghost predicate NearestEven(v: nat, r: nat, top: nat, mantBits: nat) {
    r <= top && forall c: nat :: c <= top ==> Beats(v, r, c, mantBits)
  }

  // ---- The grid ----------------------------------------------------------------------------------------

  /** The distance from a code to the next. */
  function Step(code: nat, mantBits: nat): (g: nat)
    ensures g > 0
  {
    var ef := Down(code, mantBits);
    Pow2((if ef == 0 then 1 else ef) + 1074)
  }

  lemma MagOf(ef: nat, mf: nat, m: nat)
    requires mf < Pow2(m)
    ensures Mag(Up(ef, m) + mf, m) == if ef == 0 then Up(mf, 1075) else Up(Pow2(m) + mf, ef + 1074)
    ensures Step(Up(ef, m) + mf, m) == Pow2((if ef == 0 then 1 else ef) + 1074)
  {
    hide Pow2;
    DivModUnique(Up(ef, m) + mf, Pow2(m), ef, mf);
  }

  lemma Fields(code: nat, m: nat)
    ensures code == Up(Down(code, m), m) + Low(code, m)
  {
    hide Pow2;
  }

  lemma MagStep(code: nat, m: nat)
    ensures Mag(code + 1, m) == Mag(code, m) + Step(code, m)
  {
    hide Pow2, Mag, Step, Down, Low;
    var ef, mf := Down(code, m), Low(code, m);
    Fields(code, m);
    MagOf(ef, mf, m);
    if mf + 1 < Pow2(m) {
      MagOf(ef, mf + 1, m);
      UpAdd(mf, 1, 1075);
      UpAdd(Pow2(m) + mf, 1, ef + 1074);
    } else {
      assert code + 1 == Up(ef + 1, m) + 0;
      MagOf(ef + 1, 0, m);
      UpAdd(mf, 1, 1075);
      UpAdd(Pow2(m) + mf, 1, ef + 1074);
      UpTwice(Pow2(m), ef + 1074);
    }
  }

  lemma UpAdd(a: nat, b: nat, k: nat)
    ensures Up(a + b, k) == Up(a, k) + Up(b, k) && Up(1, k) == Pow2(k)
  {
  }

  lemma UpTwice(a: nat, k: nat)
    ensures Up(2 * a, k) == Up(a, k + 1)
  {
  }

  lemma {:induction false} MagMonotone(c: nat, d: nat, m: nat)
    requires c <= d
    ensures c < d ==> Mag(c, m) < Mag(d, m)
    ensures Mag(c, m) <= Mag(d, m)
    decreases d - c
  {
    hide Mag, Step;
    if c < d {
      MagMonotone(c, d - 1, m);
      MagStep(d - 1, m);
    }
  }

  // ---- Nearest codes -----------------------------------------------------------------------------------

  lemma NearestDown(v: nat, c: nat, top: nat, m: nat)
    requires c < top && Mag(c, m) <= v && 2 * v <= Mag(c, m) + Mag(c + 1, m)
    requires 2 * v == Mag(c, m) + Mag(c + 1, m) ==> Favoured(c, c + 1, m)
    ensures NearestEven(v, c, top, m)
  {
    hide Mag;
    forall d: nat | d <= top ensures Beats(v, c, d, m) {
      if d <= c { MagMonotone(d, c, m); } else { MagMonotone(c + 1, d, m); }
    }
  }

  lemma NearestUp(v: nat, c: nat, top: nat, m: nat)
    requires c < top && v <= Mag(c + 1, m) && 2 * v >= Mag(c, m) + Mag(c + 1, m)
    requires 2 * v == Mag(c, m) + Mag(c + 1, m) ==> Favoured(c + 1, c, m)
    ensures NearestEven(v, c + 1, top, m)
  {
    hide Mag;
    var up := c + 1;
    forall d: nat | d <= top ensures Beats(v, up, d, m) {
      if d <= c { MagMonotone(d, c, m); } else { MagMonotone(up, d, m); }
    }
  }

  lemma NearestTop(v: nat, top: nat, m: nat)
    requires v >= Mag(top, m)
    ensures NearestEven(v, top, top, m)
  {
    hide Mag;
    forall d: nat | d <= top ensures Beats(v, top, d, m) {
      MagMonotone(d, top, m);
    }
  }

  /** At most one code is nearest under the tie rule. */
  lemma NearestUnique(v: nat, r: nat, s: nat, top: nat, m: nat)
    requires NearestEven(v, r, top, m) && NearestEven(v, s, top, m)
    ensures r == s
  {
    hide Mag;
    assert Beats(v, r, s, m) && Beats(v, s, r, m);
    if m > 0 {
      NotBoth(v, r, s, top, m);
      NotBoth(v, s, r, top, m);
    }
  }

  lemma NotBoth(v: nat, lo: nat, hi: nat, top: nat, m: nat)
    requires m > 0 && NearestEven(v, lo, top, m) && hi <= top
    ensures !(lo < hi && Dist(v, Mag(lo, m)) == Dist(v, Mag(hi, m)) && hi % 2 == 0)
  {
    hide Mag;
    if lo < hi {
      MagMonotone(lo, hi, m);
      MagMonotone(lo, lo + 1, m);
      MagMonotone(lo + 1, hi, m);
      assert Beats(v, lo, lo + 1, m) && Beats(v, lo, hi, m);
    }
  }

  /** The top code is chosen exactly from its lower midpoint on (the midpoint itself goes to the favoured code). */
  lemma TopFrom(v: nat, r: nat, top: nat, m: nat)
    requires NearestEven(v, r, top, m) && top > 0
    ensures r == top <==> 2 * v > Mag(top - 1, m) + Mag(top, m)
                          || (2 * v == Mag(top - 1, m) + Mag(top, m) && Favoured(top, top - 1, m))
  {
    hide Mag;
    assert Beats(v, r, top, m) && Beats(v, r, top - 1, m);
    MagMonotone(top - 1, top, m);
    MagMonotone(r, top, m);
    if r < top { MagMonotone(r, top - 1, m); }
  }

  // ---- Bits --------------------------------------------------------------------------------------------

  /** The index of the highest set bit. */
  function Msb(x: nat): (k: nat)
    requires x > 0
    ensures Pow2(k) <= x < Pow2(k + 1)
  {
    if x == 1 then 0 else Msb(x / 2) + 1
  }

  lemma MsbBelow(x: nat, n: nat)
    requires 0 < x < Pow2(n)
    ensures Msb(x) < n
  {
    hide Pow2;
    if Msb(x) >= n {
      Pow2Monotone(n, Msb(x));
    }
  }

  /** sign, exponent and mantissa fields or-ed together. */
  function Pack(sign: nat, exp: nat, mant: nat, expBits: nat, mantBits: nat): nat {
    Bitwise(OrBits, Bitwise(OrBits, Low(Up(sign, expBits + mantBits), 64), Low(Up(exp, mantBits), 64)), Low(mant, mantBits))
  }

  lemma UpBelow(a: nat, b: nat, k: nat)
    requires a < Pow2(b)
    ensures Up(a, k) + Pow2(k) <= Pow2(b + k)
  {
    hide Pow2;
    Pow2Add(b, k);
    MulMonotone(a + 1, Pow2(b), Pow2(k));
    assert (a + 1) * Pow2(k) == a * Pow2(k) + Pow2(k);
  }

  lemma PackIs(sign: nat, exp: nat, mant: nat, expBits: nat, mantBits: nat)
    requires sign < 2 && exp <= MaxExp(expBits) && expBits + mantBits <= 63
    ensures Pack(sign, exp, mant, expBits, mantBits) == Up(sign, expBits + mantBits) + (Up(exp, mantBits) + Low(mant, mantBits))
    ensures Up(exp, mantBits) + Low(mant, mantBits) < Pow2(expBits + mantBits)
  {
    hide Pow2, Bitwise, Low, Up;
    var E, M := expBits, mantBits;
    PackFits(sign, exp, E, M);
    OrShifted(sign, Up(exp, M), E + M);
    SumShifted(sign, exp, E, M);
    OrShifted(sign * Pow2(E) + exp, Low(mant, M), M);
  }

  lemma PackFits(sign: nat, exp: nat, E: nat, M: nat)
    requires sign < 2 && exp <= MaxExp(E) && E + M <= 63
    ensures Low(Up(sign, E + M), 64) == Up(sign, E + M) && Low(Up(exp, M), 64) == Up(exp, M)
    ensures Up(exp, M) + Pow2(M) <= Pow2(E + M)
  {
    hide Pow2, Low, Up;
    Pow2Step(1);
    LowZero(0);
    UpBelow(exp, E, M);
    UpBelow(sign, 1, E + M);
    Pow2Monotone(E + M, 64);
    Pow2Monotone(1 + (E + M), 64);
    LowOfSmall(Up(sign, E + M), 64);
    LowOfSmall(Up(exp, M), 64);
  }

  lemma SumShifted(sign: nat, exp: nat, E: nat, M: nat)
    ensures Up(sign, E + M) + Up(exp, M) == Up(sign * Pow2(E) + exp, M)
  {
    hide Pow2;
    Pow2Add(E, M);
    MulDistribute(sign * Pow2(E), exp, Pow2(M));
    assert (sign * Pow2(E)) * Pow2(M) == sign * (Pow2(E) * Pow2(M));
  }

  /** The bits below position f: the bit at f-1, then the rest. */
  lemma LowTop(x: nat, f: nat)
    requires f > 0
    ensures Low(x, f) == Low(Down(x, f - 1), 1) * Pow2(f - 1) + Low(x, f - 1)
  {
    hide Pow2;
    var p := Pow2(f - 1);
    Pow2Step(f);
    Pow2Step(1) by { LowZero(0); }
    LowZero(0);
    var q, r := x / p, x % p;
    assert x == (q / 2) * (2 * p) + ((q % 2) * p + r) by { assert q == 2 * (q / 2) + q % 2; MulDistribute(2 * (q / 2), q % 2, p); }
    MulMonotone(q % 2, 1, p);
    DivModUnique(x, 2 * p, q / 2, (q % 2) * p + r);
  }

  // ---- Rounding a significand --------------------------------------------------------------------------

  predicate BitSet(x: nat, pos: nat) { Low(Down(x, pos), 1) == 1 }

  /** The rounding decision: the first dropped bit, and either a later dropped bit or an odd kept part. */
  predicate RoundsUp(sig: nat, frac: nat)
    requires frac > 0
  {
    BitSet(sig, frac - 1) && ((frac >= 2 && Low(sig, frac - 1) != 0) || Down(sig, frac) % 2 == 1)
  }

  lemma DownSplit(sig: nat, f: nat)
    ensures sig == Up(Down(sig, f), f) + Low(sig, f)
  {
    hide Pow2;
  }

  /** A dropped part is compared with one half by its top bit and the rest. */
  lemma HalfTest(sig: nat, f: nat)
    requires f > 0
    ensures BitSet(sig, f - 1) && f >= 2 && Low(sig, f - 1) != 0 ==> 2 * Low(sig, f) > Pow2(f)
    ensures BitSet(sig, f - 1) && !(f >= 2 && Low(sig, f - 1) != 0) ==> 2 * Low(sig, f) == Pow2(f)
    ensures !BitSet(sig, f - 1) ==> 2 * Low(sig, f) < Pow2(f)
  {
    hide Pow2, Low, Down;
    LowTop(sig, f);
    Pow2Step(f);
    LowZero(sig);
    Pow2Step(1);
    LowZero(0);
  }

  /** Scaling by P = 2^p: the kept part counts steps of G = 2^(p+f), and the decision compares the exact
      value with the midpoint of its step. */
  lemma Decision(sig: nat, f: nat, p: nat)
    requires f > 0
    ensures var v, kept, g := sig * Pow2(p), Down(sig, f), Pow2(p + f);
            kept * g <= v < kept * g + g
            && (RoundsUp(sig, f) ==> 2 * v >= 2 * (kept * g) + g && (2 * v == 2 * (kept * g) + g ==> kept % 2 == 1))
            && (!RoundsUp(sig, f) ==> 2 * v <= 2 * (kept * g) + g && (2 * v == 2 * (kept * g) + g ==> kept % 2 == 0))
  {
    hide Pow2, Low, Down, BitSet;
    var v, kept, g, rem := sig * Pow2(p), Down(sig, f), Pow2(p + f), Low(sig, f);
    DownSplit(sig, f);
    Pow2Add(f, p);
    HalfTest(sig, f);
    ScaleSplit(sig, kept, rem, Pow2(f), Pow2(p));
    ScaleOrder(2 * rem, Pow2(f), Pow2(p));
    ScaleOrder(rem, Pow2(f), Pow2(p));
    assert (2 * rem) * Pow2(p) == 2 * (rem * Pow2(p));
  }

  lemma ScaleSplit(sig: nat, kept: nat, rem: nat, f: nat, p: nat)
    requires sig == kept * f + rem
    ensures sig * p == kept * (f * p) + rem * p
  {
  }

  lemma ScaleOrder(a: nat, b: nat, p: nat)
    requires p > 0
    ensures a < b ==> a * p < b * p
    ensures a == b ==> a * p == b * p
    ensures a > b ==> a * p > b * p
  {
    if a < b { MulMonotone(a + 1, b, p); } else if a > b { MulMonotone(b + 1, a, p); }
  }

  /** The number of dropped bits and the exponent field the source derives for sig * 2^e. */
  predicate Aligned(sig: nat, e: int, expBits: nat, mantBits: nat, frac: int, exp0: nat)
    requires expBits > 0
  {
    sig > 0 && e >= -1074
    && var k, minNormal := Msb(sig), 1 - Bias(expBits);
       if e + k >= minNormal then frac == k - mantBits && exp0 == e + k + Bias(expBits)
       else frac == k - mantBits + (minNormal - (e + k)) && exp0 == 0
  }

  lemma AlignedUnits(sig: nat, e: int, E: nat, m: nat, frac: int, exp0: nat)
    requires E > 0 && Aligned(sig, e, E, m, frac, exp0)
    ensures e + Units(E, m) + frac == (if exp0 == 0 then 1 else exp0) + 1074
  {
    hide Msb, Bias;
  }

  lemma DownRange(x: nat, a: nat, f: nat)
    ensures x < Pow2(a + f) ==> Down(x, f) < Pow2(a)
    ensures x >= Pow2(a + f) ==> Down(x, f) >= Pow2(a)
  {
    hide Pow2, Low, Down;
    DownSplit(x, f);
    Pow2Add(a, f);
    if Down(x, f) >= Pow2(a) { MulMonotone(Pow2(a), Down(x, f), Pow2(f)); }
    else { MulMonotone(Down(x, f) + 1, Pow2(a), Pow2(f)); assert (Down(x, f) + 1) * Pow2(f) == Up(Down(x, f), f) + Pow2(f); }
  }

  lemma KeptRange(sig: nat, e: int, E: nat, m: nat, frac: int, exp0: nat)
    requires E > 0 && Aligned(sig, e, E, m, frac, exp0) && frac > 0
    ensures exp0 > 0 ==> Pow2(m) <= Down(sig, frac) < 2 * Pow2(m)
    ensures exp0 == 0 ==> Down(sig, frac) < Pow2(m)
  {
    hide Pow2, Down, Bias;
    var k := Msb(sig);
    Pow2Step(m + 1);
    DownRange(sig, m, frac);
    DownRange(sig, m + 1, frac);
    if exp0 > 0 {
      assert m + 1 + frac == k + 1;
    } else {
      Pow2Monotone(k + 1, m + frac);
    }
  }

  /** The code whose step holds the value: the exponent field, then the kept part without its implicit one. */
  function Below(kept: nat, exp0: nat, m: nat): nat
    requires exp0 > 0 ==> kept >= Pow2(m)
  {
    hide Pow2;
    Up(exp0, m) + (if exp0 > 0 then kept - Pow2(m) else kept)
  }

  lemma BelowMag(kept: nat, exp0: nat, m: nat)
    requires if exp0 > 0 then Pow2(m) <= kept < 2 * Pow2(m) else kept < Pow2(m)
    ensures var g := Pow2((if exp0 == 0 then 1 else exp0) + 1074); var c := Below(kept, exp0, m);
            Mag(c, m) == kept * g && Mag(c + 1, m) == kept * g + g
  {
    hide Pow2, Mag, Step;
    var c := Below(kept, exp0, m);
    MagOf(exp0, if exp0 > 0 then kept - Pow2(m) else kept, m);
    MagStep(c, m);
  }

  /** On a tie an odd kept part makes the next code the favoured one, and an even kept part this code. */
  lemma BelowFavours(kept: nat, exp0: nat, m: nat)
    requires if exp0 > 0 then Pow2(m) <= kept < 2 * Pow2(m) else kept < Pow2(m)
    ensures var c := Below(kept, exp0, m); if kept % 2 == 1 then Favoured(c + 1, c, m) else Favoured(c, c + 1, m)
  {
    hide Pow2, Below, Up;
    BelowIs(kept, exp0, m);
    if m == 0 {
      LowZero(0);
      UpByZero(exp0);
    } else {
      Pow2Step(m);
      UpDouble(exp0, m - 1);
      EvenShift(kept, Up(exp0, m - 1), Pow2(m - 1));
    }
  }

  lemma UpByZero(a: nat)
    ensures Up(a, 0) == a
  {
  }

  lemma MulTwo(a: nat, b: nat)
    ensures a * (2 * b) == 2 * (a * b)
  {
  }

  lemma EvenShift(x: int, a: int, b: int)
    ensures (2 * a + x) % 2 == x % 2 && (2 * a + (x - 2 * b)) % 2 == x % 2
  {
  }

  lemma UpDouble(a: nat, k: nat)
    ensures Up(a, k + 1) == 2 * Up(a, k)
  {
  }

  lemma MaxExpPositive(E: nat)
    requires E > 0
    ensures MaxExp(E) > 0
  {
    hide Pow2;
    Pow2Monotone(1, E);
    Pow2Step(1);
    LowZero(0);
  }

  /** Rounding the kept part up by one moves to the next code; past the largest finite code lies infinity. */
  lemma RoundedIsNearest(sig: nat, e: int, E: nat, m: nat, frac: int, exp0: nat)
    requires Format(E, m) && Aligned(sig, e, E, m, frac, exp0) && frac > 0
    ensures exp0 > 0 ==> Down(sig, frac) >= Pow2(m)
    ensures e + Units(E, m) >= 0
    ensures var v, c, top := sig * Pow2(e + Units(E, m)), Below(Down(sig, frac), exp0, m), InfCode(E, m);
            if exp0 >= MaxExp(E) then NearestEven(v, top, top, m)
            else c < top && NearestEven(v, if RoundsUp(sig, frac) then c + 1 else c, top, m) && v <= Mag(top, m)
  {
    hide Pow2, Mag, Low, Down, RoundsUp, Units, Below, Aligned, NearestEven, Msb;
    UnitsLarge(e, E, m, sig, frac, exp0);
    var kept, p := Down(sig, frac), e + Units(E, m);
    var g := Pow2((if exp0 == 0 then 1 else exp0) + 1074);
    AlignedUnits(sig, e, E, m, frac, exp0);
    KeptRange(sig, e, E, m, frac, exp0);
    Decision(sig, frac, p);
    BelowMag(kept, exp0, m);
    BelowFavours(kept, exp0, m);
    var v, c, top := sig * Pow2(p), Below(kept, exp0, m), InfCode(E, m);
    MaxExpPositive(E);
    if exp0 >= MaxExp(E) {
      BelowAbove(kept, exp0, E, m);
      MagMonotone(top, c, m);
      NearestTop(v, top, m);
    } else {
      BelowFinite(kept, exp0, E, m);
      MagMonotone(c + 1, top, m);
      if RoundsUp(sig, frac) {
        NearestUp(v, c, top, m);
      } else {
        NearestDown(v, c, top, m);
      }
    }
  }

  lemma UnitsLarge(e: int, E: nat, m: nat, sig: nat, frac: int, exp0: nat)
    requires E > 0 && Aligned(sig, e, E, m, frac, exp0)
    ensures e + Units(E, m) >= 0
  {
  }

  lemma BelowAbove(kept: nat, exp0: nat, E: nat, m: nat)
    requires Pow2(m) <= kept && exp0 >= MaxExp(E) && exp0 > 0
    ensures Below(kept, exp0, m) >= InfCode(E, m)
  {
    hide Pow2;
    MulMonotone(MaxExp(E), exp0, Pow2(m));
  }

  lemma BelowFinite(kept: nat, exp0: nat, E: nat, m: nat)
    requires exp0 < MaxExp(E) && (if exp0 > 0 then Pow2(m) <= kept < 2 * Pow2(m) else kept < Pow2(m))
    ensures Below(kept, exp0, m) < InfCode(E, m)
  {
    hide Pow2;
    MulMonotone(exp0 + 1, MaxExp(E), Pow2(m));
    assert (exp0 + 1) * Pow2(m) == exp0 * Pow2(m) + Pow2(m);
  }

  /** When no bit is dropped the value is a code's own; it is finite unless the format is as wide as a double. */
  lemma LosslessIsNearest(sig: nat, e: int, E: nat, m: nat, frac: int, exp0: nat)
    requires Format(E, m) && Aligned(sig, e, E, m, frac, exp0) && frac <= 0
    ensures e + Units(E, m) >= 0
    ensures var v, c, top := sig * Pow2(e + Units(E, m)), Up(exp0, m) + Low(Up(sig, -frac), m), InfCode(E, m);
            v == Mag(c, m) && (c <= top ==> NearestEven(v, c, top, m)) && (c <= top <==> v <= Mag(top, m))
  {
    hide Pow2, Mag, Low, Down, Below, NearestEven, Msb, Up;
    UnitsLarge(e, E, m, sig, frac, exp0);
    AlignedUnits(sig, e, E, m, frac, exp0);
    var kept := Up(sig, -frac);
    LosslessRange(sig, e, E, m, frac, exp0);
    BelowMag(kept, exp0, m);
    LosslessValue(sig, -frac, (if exp0 == 0 then 1 else exp0) + 1074);
    LowUnique(kept, if exp0 > 0 then 1 else 0, if exp0 > 0 then kept - Pow2(m) else kept, m);
    BelowIs(kept, exp0, m);
    OwnCode(Up(exp0, m) + Low(kept, m), InfCode(E, m), m);
  }

  lemma OwnCode(c: nat, top: nat, m: nat)
    ensures c <= top ==> NearestEven(Mag(c, m), c, top, m)
    ensures c <= top <==> Mag(c, m) <= Mag(top, m)
  {
    hide Mag, NearestEven;
    MagMonotone(c, c + 1, m);
    if c < top {
      MagMonotone(c, top, m);
      NearestDown(Mag(c, m), c, top, m);
    } else {
      MagMonotone(top, c, m);
      if c == top { NearestTop(Mag(c, m), top, m); }
    }
  }

  lemma BelowIs(kept: nat, exp0: nat, m: nat)
    requires exp0 > 0 ==> kept >= Pow2(m)
    ensures Below(kept, exp0, m) == Up(exp0, m) + (if exp0 > 0 then kept - Pow2(m) else kept)
  {
    hide Pow2, Up;
  }

  lemma LosslessSmall(sig: nat, e: int, E: nat, m: nat, frac: int, exp0: nat)
    requires Format(E, m) && Aligned(sig, e, E, m, frac, exp0) && frac <= 0
    requires sig < Pow2(53) && (sig >= Pow2(52) || e == -1074) && e <= 2046 - 1023 - 52
    ensures m <= 51 ==> exp0 < MaxExp(E)
    ensures exp0 < 4096 || m <= 51
  {
    hide Pow2;
    MsbBelow(sig, 53);
    if exp0 > 0 && sig >= Pow2(52) {
      if Msb(sig) < 52 { Pow2Monotone(Msb(sig) + 1, 52); }
    }
    Pow2Step(E);
    Pow2Monotone(1, E - 1);
    Pow2Step(1);
    LowZero(0);
    if m == 52 {
      Pow2Monotone(E - 1, 10);
      assert Pow2(10) == 1024 by { TenBits(); }
    }
  }

  lemma TenBits()
    ensures Pow2(10) == 1024
  {
    assert Pow2(5) == 32;
    Pow2Add(5, 5);
  }

  /** Only subnormal results drop bits when the target is as wide as a double. */
  lemma WideDropsSubnormal(sig: nat, e: int, E: nat, m: nat, frac: int, exp0: nat)
    requires Format(E, m) && Aligned(sig, e, E, m, frac, exp0) && frac > 0 && sig < Pow2(53)
    ensures MaxExp(E) > 0 && (m == 52 ==> exp0 == 0)
  {
    hide Pow2;
    MsbBelow(sig, 53);
    MaxExpPositive(E);
  }

  lemma LosslessRange(sig: nat, e: int, E: nat, m: nat, frac: int, exp0: nat)
    requires Format(E, m) && Aligned(sig, e, E, m, frac, exp0) && frac <= 0
    ensures var kept := Up(sig, -frac); if exp0 > 0 then Pow2(m) <= kept < 2 * Pow2(m) else kept < Pow2(m)
  {
    hide Pow2, Bias;
    var k, shift := Msb(sig), -frac;
    Pow2Add(k, shift);
    Pow2Add(k + 1, shift);
    ScaleOrder(sig, Pow2(k + 1), Pow2(shift));
    MulMonotone(Pow2(k), sig, Pow2(shift));
    Pow2Step(m + 1);
    if exp0 == 0 { Pow2Monotone(k + 1 + shift, m); }
  }

  lemma LosslessValue(sig: nat, shift: nat, q: nat)
    requires q >= shift
    ensures Up(sig, shift) * Pow2(q) == sig * Pow2(q + shift)
  {
    hide Pow2;
    Pow2Add(q, shift);
    assert (sig * Pow2(shift)) * Pow2(q) == sig * (Pow2(q) * Pow2(shift));
  }

  /** A significand far below the smallest subnormal is nearest to zero. */
  lemma TinyIsZero(sig: nat, e: int, E: nat, m: nat, frac: int, exp0: nat)
    requires Format(E, m) && Aligned(sig, e, E, m, frac, exp0) && frac >= 64 && sig < Pow2(53)
    ensures e + Units(E, m) >= 0
    ensures NearestEven(sig * Pow2(e + Units(E, m)), 0, InfCode(E, m), m)
  {
    hide Pow2, Mag, Low, Down, RoundsUp, Units, Below, Aligned, NearestEven, Msb;
    RoundedIsNearest(sig, e, E, m, frac, exp0);
    KeptRange(sig, e, E, m, frac, exp0);
    TinyBits(sig, frac);
    BelowIs(0, exp0, m);
    MaxExpPositive(E);
    assert Up(0, m) == 0;
  }

  lemma TinyBits(sig: nat, frac: nat)
    requires frac >= 64 && sig < Pow2(53)
    ensures Down(sig, frac) == 0 && !RoundsUp(sig, frac)
  {
    hide Pow2;
    Pow2Monotone(53, frac);
    Pow2Monotone(53, frac - 1);
    DivModUnique(sig, Pow2(frac), 0, sig);
    DivModUnique(sig, Pow2(frac - 1), 0, sig);
    LowOfSmall(0, 1);
  }
}
