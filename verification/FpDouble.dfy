/** What the bit pattern of a double stands for: the sign, the exponent field and the mantissa field side by side, and the
    value they spell. */
module FpDouble {
  import opened BitVec
  import FpRound

  /** The weights of the sign bit and of the lowest exponent bit. */
  const SIGN := 0x8000_0000_0000_0000
  const IMPLICIT := 0x10_0000_0000_0000

  lemma Weights()
    ensures Pow2(63) == SIGN && Pow2(52) == IMPLICIT && Pow2(11) == 2048
  {
    hide Pow2;
    FpRound.TenBits();
    Pow2Step(11);
    Pow2Step(1);
    Pow2Step(2);
    LowZero(0);
    Pow2Add(10, 10);
    Pow2Add(20, 20);
    Pow2Add(40, 10);
    Pow2Add(50, 2);
    Pow2Add(52, 11);
  }

  function Pattern(sign: nat, exp: nat, mant: nat): nat { sign * SIGN + exp * IMPLICIT + mant }

  // ---- The fields ------------------------------------------------------------------------------------------

  /** Any sign, exponent and mantissa fields are read back from the pattern they make. */
  lemma FieldsOf(s: nat, e: nat, f: nat)
    requires s < 2 && e < 2048 && f < IMPLICIT
    ensures var x := Pattern(s, e, f); FpRound.SignOf(x) == s && FpRound.ExpOf(x) == e && FpRound.MantOf(x) == f
  {
    hide Pow2;
    Weights();
    var x := Pattern(s, e, f);
    Pow2Step(1);
    LowZero(0);
    DivModUnique(x, SIGN, s, e * IMPLICIT + f);
    LowOfSmall(s, 1);
    DivModUnique(x, IMPLICIT, s * 2048 + e, f);
    LowUnique(s * 2048 + e, s, e, 11);
  }

  /** Every 64-bit pattern is its sign, its exponent field and its mantissa field side by side, and the sign is set exactly
      in the upper half. */
  lemma Decoded(x: nat)
    requires x < 2 * SIGN
    ensures x == Pattern(FpRound.SignOf(x), FpRound.ExpOf(x), FpRound.MantOf(x))
    ensures FpRound.SignOf(x) == (if x >= SIGN then 1 else 0) && FpRound.ExpOf(x) < 2048 && FpRound.MantOf(x) < IMPLICIT
  {
    hide FpRound.SignOf, FpRound.ExpOf, FpRound.MantOf;
    var s := if x >= SIGN then 1 else 0;
    var rest := x - s * SIGN;
    FieldsOf(s, rest / IMPLICIT, rest % IMPLICIT);
  }

  /** The upper half of the 64-bit patterns is negative. */
  predicate Negative(x: nat) { x % 0x1_0000_0000_0000_0000 >= SIGN }

  /** The sign the encoders take is that of the pattern. */
  lemma SignIs(x: nat)
    ensures FpRound.SignOf(x) == if Negative(x) then 1 else 0
  {
    hide Pow2;
    Weights();
    Pow2Step(1);
    LowZero(0);
    var k, y := x / (2 * SIGN), x % (2 * SIGN);
    var s := if y >= SIGN then 1 else 0;
    DivModUnique(x, SIGN, 2 * k + s, y - s * SIGN);
    LowUnique(2 * k + s, k, s, 1);
  }

  // ---- The value -------------------------------------------------------------------------------------------

  /** In units of 2^-u: without an exponent field the mantissa counts 2^-1074; with one, the mantissa below a leading one
      counts 2^(exp-1075). All exponents but the last are finite. */
  lemma ValueOf(s: nat, e: nat, f: nat, u: nat)
    requires s < 2 && e < 2048 && f < IMPLICIT && u >= 1074
    ensures var x := Pattern(s, e, f);
            FpRound.Magnitude(x, u) == (if e == 0 then f * Pow2(u - 1074) else (IMPLICIT + f) * Pow2(e + u - 1075))
            && (FpRound.Finite(x) <==> e != 2047)
  {
    hide Pow2, FpRound.SignOf, FpRound.ExpOf, FpRound.MantOf, Pattern;
    FieldsOf(s, e, f);
    Weights();
  }

  /** The pattern of 2^k, and of the smallest double. */
  lemma PowerPattern(k: int, u: nat)
    requires -1022 <= k <= 1023 && u >= 1074
    ensures FpRound.Magnitude(Pattern(0, k + 1023, 0), u) == Pow2(k + u)
    ensures FpRound.Magnitude(Pattern(0, 0, 1), u) == Pow2(u - 1074)
  {
    hide Pow2, FpRound.Magnitude, Pattern;
    ValueOf(0, k + 1023, 0, u);
    ValueOf(0, 0, 1, u);
    Weights();
    Pow2Add(52, k + u - 52);
  }

  /** Patterns without the sign order as what they stand for. */
  lemma PatternsOrder(x: nat, y: nat, u: nat)
    requires x < y < SIGN && u >= 1074
    ensures FpRound.Magnitude(x, u) < FpRound.Magnitude(y, u)
  {
    hide Pow2, FpRound.Magnitude, FpRound.Mag;
    IsCode(x, u);
    IsCode(y, u);
    FpRound.MagMonotone(x, y, 52);
    CrossOrder(FpRound.Magnitude(x, u), FpRound.Magnitude(y, u), FpRound.Mag(x, 52), FpRound.Mag(y, 52), Pow2(1075), Pow2(u - 1074));
  }

  /** Such a pattern is the code of a format of eleven exponent and fifty-two mantissa bits. */
  lemma IsCode(x: nat, u: nat)
    requires x < SIGN && u >= 1074
    ensures FpRound.Magnitude(x, u) * Pow2(1075) == FpRound.Mag(x, 52) * Pow2(u - 1074)
  {
    hide Pow2, FpRound.Magnitude, FpRound.Mag, FpRound.SignOf, FpRound.ExpOf, FpRound.MantOf;
    Decoded(x);
    var e, f := FpRound.ExpOf(x), FpRound.MantOf(x);
    ValueOf(0, e, f, u);
    Weights();
    FpRound.MagOf(e, f, 52);
    SameProduct(if e == 0 then f else IMPLICIT + f, if e == 0 then 1 else e, u);
  }

  lemma SameProduct(sig: nat, e: nat, u: nat)
    requires e > 0 && u >= 1074
    ensures (sig * Pow2(e + u - 1075)) * Pow2(1075) == (sig * Pow2(e + 1074)) * Pow2(u - 1074)
  {
    hide Pow2;
    Pow2Add(e + u - 1075, 1075);
    Pow2Add(e + 1074, u - 1074);
    Regroup3(sig, Pow2(e + u - 1075), Pow2(1075));
    Regroup3(sig, Pow2(e + 1074), Pow2(u - 1074));
  }

  lemma Regroup3(a: nat, b: nat, c: nat)
    ensures (a * b) * c == a * (b * c)
  {
  }

  lemma CrossOrder(a: nat, b: nat, c: nat, d: nat, p: nat, q: nat)
    requires p > 0 && q > 0 && a * p == c * q && b * p == d * q && c < d
    ensures a < b
  {
    FpRound.ScaleOrder(c, d, q);
    if a >= b { MulMonotone(b, a, p); }
  }
}
