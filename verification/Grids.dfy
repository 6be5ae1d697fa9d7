/** The value grids of the narrow formats, as the reals src/fp_block.rs and src/fp_lit.rs list them. The units of
    `FpRound.Mag` tie the three enumerations, each with its own arithmetic, to the codes of one format. */
module Grids {
  import opened BitVec
  import FpRound

  // ---- Powers of two -----------------------------------------------------------------------------------

  /** 2^e. */
  function TwoTo(e: int): (p: real)
    ensures p > 0.0
  {
    if e >= 0 then Pow2(e) as real else 1.0 / (Pow2(-e) as real)
  }

  lemma TwoToStep(e: int)
    ensures TwoTo(e + 1) == 2.0 * TwoTo(e)
  {
    hide Pow2;
    if e >= 0 {
      Pow2Step(e + 1);
    } else {
      Pow2Step(-e);
      LowZero(0);
      var p := Pow2(-e - 1) as real;
      assert Pow2(-e) as real == 2.0 * p;
      Reciprocal(p);
    }
  }

  lemma Reciprocal(p: real)
    requires p > 0.0
    ensures 1.0 / p == 2.0 * (1.0 / (2.0 * p))
  {
    assert (1.0 / (2.0 * p)) * (2.0 * p) == 1.0;
    assert (2.0 * (1.0 / (2.0 * p))) * p == (1.0 / (2.0 * p)) * (2.0 * p);
    SameQuotient(1.0, p, 2.0 * (1.0 / (2.0 * p)));
  }

  lemma SameQuotient(a: real, p: real, q: real)
    requires p > 0.0 && q * p == a
    ensures a / p == q
  {
    assert (a / p) * p == a;
    assert (a / p - q) * p == 0.0;
  }

  lemma {:induction false} TwoToAdd(a: int, b: int)
    ensures TwoTo(a + b) == TwoTo(a) * TwoTo(b)
    decreases if b < 0 then -b else b
  {
    hide TwoTo;
    if b == 0 {
      assert TwoTo(0) == 1.0 by { TwoToZero(); }
    } else if b > 0 {
      TwoToAdd(a, b - 1);
      TwoToStep(a + b - 1);
      TwoToStep(b - 1);
      assert TwoTo(a) * (2.0 * TwoTo(b - 1)) == 2.0 * (TwoTo(a) * TwoTo(b - 1));
    } else {
      TwoToAdd(a, b + 1);
      TwoToStep(a + b);
      TwoToStep(b);
      assert TwoTo(a) * (2.0 * TwoTo(b)) == 2.0 * (TwoTo(a) * TwoTo(b));
    }
  }

  lemma TwoToZero()
    ensures TwoTo(0) == 1.0 && TwoTo(1) == 2.0
  {
    LowZero(0);
    Pow2Step(1);
  }

  lemma {:induction false} TwoToMonotone(a: int, b: int)
    requires a < b
    ensures TwoTo(a) < TwoTo(b)
    decreases b - a
  {
    hide TwoTo;
    TwoToStep(b - 1);
    if a < b - 1 { TwoToMonotone(a, b - 1); }
  }

  // ---- The values of the codes ---------------------------------------------------------------------------

  /** The magnitude a code stands for. */
  function Value(c: nat, expBits: nat, mantBits: nat): real
    requires expBits > 0
  {
    hide Pow2;
    FpRound.Mag(c, mantBits) as real * TwoTo(0 - FpRound.Units(expBits, mantBits))
  }

  /** The first n codes of a format. */
  function GridOf(expBits: nat, mantBits: nat, n: nat): (g: seq<real>)
    requires expBits > 0
    ensures |g| == n && forall c :: 0 <= c < n ==> g[c] == Value(c, expBits, mantBits)
  {
    hide Value;
    seq(n, c requires 0 <= c < n => Value(c, expBits, mantBits))
  }

  /** The power of two one unit of the significand weighs. */
  function Weight(expField: nat, expBits: nat, mantBits: nat): int
    requires expBits > 0
  {
    (if expField == 0 then 1 else expField) - FpRound.Bias(expBits) - mantBits
  }

  function Sig(expField: nat, mantField: nat, mantBits: nat): (s: nat) {
    if expField == 0 then mantField else Pow2(mantBits) + mantField
  }

  lemma ValueOf(ef: nat, mf: nat, E: nat, m: nat)
    requires E > 0 && mf < Pow2(m)
    ensures Value(Up(ef, m) + mf, E, m) == Sig(ef, mf, m) as real * TwoTo(Weight(ef, E, m))
  {
    hide Pow2, FpRound.Mag, TwoTo, Sig, FpRound.Bias;
    var k, s := (if ef == 0 then 1 else ef) + 1074, Sig(ef, mf, m);
    MagIs(ef, mf, m);
    UnitShift(s, k, E, m);
    assert k - FpRound.Units(E, m) == Weight(ef, E, m);
  }

  lemma MagIs(ef: nat, mf: nat, m: nat)
    requires mf < Pow2(m)
    ensures FpRound.Mag(Up(ef, m) + mf, m) == Sig(ef, mf, m) * Pow2((if ef == 0 then 1 else ef) + 1074)
  {
    hide Pow2, FpRound.Mag;
    FpRound.MagOf(ef, mf, m);
  }

  lemma UnitShift(s: nat, k: nat, E: nat, m: nat)
    requires E > 0
    ensures (s * Pow2(k)) as real * TwoTo(0 - FpRound.Units(E, m)) == s as real * TwoTo(k - FpRound.Units(E, m))
  {
    hide Pow2, TwoTo, FpRound.Units;
    PowIsTwoTo(k);
    TwoToAdd(k, 0 - FpRound.Units(E, m));
    assert (s * Pow2(k)) as real == s as real * TwoTo(k);
    Regrouped(s as real, TwoTo(k), TwoTo(0 - FpRound.Units(E, m)));
  }

  lemma PowIsTwoTo(k: nat)
    ensures TwoTo(k) == Pow2(k) as real
  {
  }

  lemma Regrouped(a: real, b: real, c: real)
    ensures (a * b) * c == a * (b * c)
  {
  }

  /** A code's significand and weight, shared with the next code. */
  lemma ValueAt(c: nat, E: nat, m: nat) returns (s: nat, w: int)
    requires E > 0
    ensures Value(c, E, m) == s as real * TwoTo(w) && Value(c + 1, E, m) == (s + 1) as real * TwoTo(w)
    ensures s < 2 * Pow2(m) && w == Weight(Down(c, m), E, m)
  {
    hide Pow2, TwoTo, FpRound.Mag, FpRound.Step, Low, Down, FpRound.Bias;
    var ef, mf := Down(c, m), Low(c, m);
    var k := (if ef == 0 then 1 else ef) + 1074;
    s, w := Sig(ef, mf, m), Weight(ef, E, m);
    FpRound.Fields(c, m);
    FpRound.MagStep(c, m);
    FpRound.MagOf(ef, mf, m);
    MagIs(ef, mf, m);
    MulDistribute(s, 1, Pow2(k));
    UnitShift(s, k, E, m);
    UnitShift(s + 1, k, E, m);
  }

  ghost predicate Ascending(g: seq<real>) {
    forall i, j :: 0 <= i < j < |g| ==> g[i] < g[j]
  }

  lemma RealOrder(a: real, b: real, u: real)
    requires u > 0.0
    ensures a < b <==> a * u < b * u
    ensures a == b <==> a * u == b * u
  {
    assert (b - a) * u == b * u - a * u;
  }

  lemma ValueOrder(c: nat, d: nat, E: nat, m: nat)
    requires E > 0
    ensures c < d ==> Value(c, E, m) < Value(d, E, m)
    ensures Value(0, E, m) == 0.0 && (c > 0 ==> Value(c, E, m) > 0.0)
  {
    hide FpRound.Mag, TwoTo, Pow2;
    var u := TwoTo(0 - FpRound.Units(E, m));
    if c < d {
      FpRound.MagMonotone(c, d, m);
      RealOrder(FpRound.Mag(c, m) as real, FpRound.Mag(d, m) as real, u);
    }
    assert FpRound.Mag(0, m) == 0 by { ZeroMag(m); }
    if c > 0 {
      FpRound.MagMonotone(0, c, m);
      RealOrder(0.0, FpRound.Mag(c, m) as real, u);
    }
  }

  lemma ZeroMag(m: nat)
    ensures FpRound.Mag(0, m) == 0
  {
    hide Pow2;
    LowOfSmall(0, m);
    FpRound.MagOf(0, 0, m);
  }

  /** Every format's grid is strictly ascending. */
  lemma GridAscending(E: nat, m: nat, n: nat)
    requires E > 0
    ensures Ascending(GridOf(E, m, n))
  {
    hide Value;
    forall i, j | 0 <= i < j < n ensures GridOf(E, m, n)[i] < GridOf(E, m, n)[j] {
      ValueOrder(i, j, E, m);
    }
  }

  // ---- The enumerations ----------------------------------------------------------------------------------

  datatype Format = Format(expBits: nat, mantBits: nat, hasInf: bool, hasNan: bool)

  /** How many codes of a format are finite. */
  function FiniteCodes(f: Format): (c: nat) {
    hide Pow2;
    if f.hasInf then Up(Pow2(f.expBits) - 1, f.mantBits)
    else if f.hasNan then Up(Pow2(f.expBits), f.mantBits) - 1
    else Up(Pow2(f.expBits), f.mantBits)
  }

  lemma RowZero(m: nat)
    ensures Up(0, m) == 0
  {
  }

  lemma RowNext(e: nat, m: nat)
    ensures Up(e + 1, m) == Up(e, m) + Pow2(m)
  {
  }

  lemma RowCount(f: Format)
    ensures FiniteCodes(f)
         == if f.hasInf then Up(Pow2(f.expBits) - 1, f.mantBits)
            else if f.hasNan then Up(Pow2(f.expBits) - 1, f.mantBits) + Pow2(f.mantBits) - 1
            else Up(Pow2(f.expBits) - 1, f.mantBits) + Pow2(f.mantBits)
  {
    hide Pow2;
    RowNext(Pow2(f.expBits) - 1, f.mantBits);
  }

  /** Enumerating exponent and mantissa fields in order, and leaving out the codes reserved for Inf and NaN, lists the
      magnitudes of the codes 0, 1, 2, ... without a gap: the index is the code. */
  method FormatGrid(f: Format) returns (out: seq<real>)
    requires f.expBits > 0
    ensures out == GridOf(f.expBits, f.mantBits, FiniteCodes(f))
  {
    hide Pow2, TwoTo, Up, Value;
    var eb, mb := f.expBits, f.mantBits;
    var bias: int := FpRound.Bias(eb);
    var eTop, mTop := Pow2(eb) - 1, Pow2(mb) - 1;
    out := [];
    RowZero(mb);
    for e := 0 to Pow2(eb)
      invariant |out| == if e <= eTop then Up(e, mb) else FiniteCodes(f)
      invariant forall c :: 0 <= c < |out| ==> out[c] == Value(c, eb, mb)
    {
      RowNext(e, mb);
      RowCount(f);
      for m := 0 to Pow2(mb)
        invariant |out| == if f.hasInf && e == eTop then Up(e, mb)
                           else if f.hasNan && e == eTop && m > mTop then Up(e, mb) + m - 1 else Up(e, mb) + m
        invariant forall c :: 0 <= c < |out| ==> out[c] == Value(c, eb, mb)
      {
        if f.hasInf && e == eTop {
          continue;
        }
        if !f.hasInf && f.hasNan && e == eTop && m == mTop {
          continue;
        }
        var v := if e == 0 then m as real * TwoTo(1 - bias - mb) else (Pow2(mb) + m) as real * TwoTo(e - bias - mb);
        ValueOf(e, m, eb, mb);
        out := out + [v];
      }
    }
  }

  /** The encoder's own enumeration, by fractions of the leading power of two, lists the same magnitudes. */
  method AllFiniteMagnitudes(expBits: nat, mantBits: nat) returns (out: seq<real>)
    requires expBits > 0
    ensures out == GridOf(expBits, mantBits, FiniteCodes(Format(expBits, mantBits, false, false)))
  {
    hide Pow2, TwoTo, Up, Value;
    var bias: int := FpRound.Bias(expBits);
    var mantN := Pow2(mantBits);
    out := [];
    RowZero(mantBits);
    for e := 0 to Pow2(expBits)
      invariant |out| == Up(e, mantBits)
      invariant forall c :: 0 <= c < |out| ==> out[c] == Value(c, expBits, mantBits)
    {
      RowNext(e, mantBits);
      for m := 0 to mantN
        invariant |out| == Up(e, mantBits) + m
        invariant forall c :: 0 <= c < |out| ==> out[c] == Value(c, expBits, mantBits)
      {
        var v := if e == 0 then TwoTo(1 - bias) * (m as real / mantN as real)
                 else TwoTo(e - bias) * (1.0 + m as real / mantN as real);
        ValueOf(e, m, expBits, mantBits);
        Fraction(m, mantBits, (if e == 0 then 1 else e) - bias);
        out := out + [v];
      }
    }
  }

  lemma Fraction(m: nat, mb: nat, w: int)
    ensures TwoTo(w) * (m as real / Pow2(mb) as real) == m as real * TwoTo(w - mb)
    ensures TwoTo(w) * (1.0 + m as real / Pow2(mb) as real) == (Pow2(mb) + m) as real * TwoTo(w - mb)
  {
    hide Pow2, TwoTo;
    var n, t := Pow2(mb) as real, TwoTo(w - mb);
    PowIsTwoTo(mb);
    TwoToAdd(w - mb, mb);
    assert TwoTo(w) == t * n;
    assert n * (m as real / n) == m as real;
    assert (t * n) * (m as real / n) == t * (n * (m as real / n)) by { Regrouped(t, n, m as real / n); }
    assert (t * n) * (1.0 + m as real / n) == t * n + (t * n) * (m as real / n);
    assert (Pow2(mb) + m) as real * t == n * t + m as real * t;
  }

  /** The UE4M3 scale grid, spelled out with its constants. */
  method ScaleGrid() returns (out: seq<real>)
    ensures out == GridOf(4, 3, 0x7F) && FiniteCodes(Format(4, 3, false, true)) == 0x7F
  {
    hide TwoTo, Value, Pow2, Up;
    out := [];
    ScaleConstants();
    for c := 0 to 0x7F
      invariant |out| == c && forall k :: 0 <= k < c ==> out[k] == Value(k, 4, 3)
    {
      var e: int, m := Low(Down(c, 3), 4), Low(c, 3);
      var v := if e == 0 then m as real * TwoTo(-9) else (8 + m) as real * TwoTo(e - 10);
      ScaleFields(c);
      ValueOf(e, m, 4, 3);
      out := out + [v];
    }
  }

  lemma ScaleConstants()
    ensures Pow2(3) == 8 && Pow2(4) == 16 && FpRound.Bias(4) == 7 && FiniteCodes(Format(4, 3, false, true)) == 0x7F
  {
    assert Pow2(2) == 4;
  }

  lemma ScaleFields(c: nat)
    requires c < 0x7F && Pow2(3) == 8 && Pow2(4) == 16
    ensures Low(Down(c, 3), 4) < 16 && c == Up(Low(Down(c, 3), 4), 3) + Low(c, 3)
  {
    hide Pow2;
    FpRound.Fields(c, 3);
    LowOfSmall(Down(c, 3), 4);
  }

  // ---- FP32 ------------------------------------------------------------------------------------------------

  /** A magnitude FP32 holds without rounding: at most 24 significant bits, within the exponent range. */
  ghost predicate Fp32(v: real) {
    exists s: nat, w: int :: s < 0x100_0000 && -149 <= w <= 104 && v == Scaled(s, w)
  }

  function Scaled(s: nat, w: int): real { s as real * TwoTo(w) }

  /** The largest exponents and mantissas for which everything the ladders compute is exact: every element format
      (and the scale format) is far within it. */
  ghost predicate Narrow(E: nat, m: nat) {
    0 < E <= 6 && m <= 9
  }

  lemma NarrowWeights(c: nat, E: nat, m: nat)
    requires Narrow(E, m) && c < Up(Pow2(E), m)
    ensures -40 <= Weight(Down(c, m), E, m) <= 32 && Pow2(m) <= 512
  {
    hide Pow2, Down, Low;
    FpRound.DownSplit(c, m);
    if Down(c, m) >= Pow2(E) { MulMonotone(Pow2(E), Down(c, m), Pow2(m)); }
    Pow2Monotone(E - 1, 5);
    Pow2Monotone(m, 9);
    Pow2Step(E);
    SmallPowers();
  }

  lemma SmallPowers()
    ensures Pow2(5) == 32 && Pow2(9) == 512
  {
    assert Pow2(2) == 4;
    assert Pow2(7) == 4 * Pow2(5);
  }

  function Midpoint(c: nat, expBits: nat, mantBits: nat): real
    requires expBits > 0
  {
    (Value(c, expBits, mantBits) + Value(c + 1, expBits, mantBits)) / 2.0
  }

  /** A midpoint of neighbouring codes as a significand and a weight. */
  lemma MidAt(c: nat, E: nat, m: nat) returns (s: nat, w: int)
    requires Narrow(E, m) && c < Up(Pow2(E), m)
    ensures Midpoint(c, E, m) == s as real * TwoTo(w)
    ensures s < 2048 && -41 <= w <= 31
  {
    hide Pow2, TwoTo, Value, Weight, Down;
    var k, q := ValueAt(c, E, m);
    NarrowWeights(c, E, m);
    s, w := 2 * k + 1, q - 1;
    TwoToStep(q - 1);
    assert (k as real * TwoTo(q) + (k + 1) as real * TwoTo(q)) / 2.0 == (2 * k + 1) as real * TwoTo(q - 1);
  }

  /** A product FP32 holds. */
  ghost predicate ProductFits(a: real, b: real) { Fp32(a * b) }

  lemma ProductFitsBy(a: real, b: real, s: nat, w: int, t: nat, z: int)
    requires a == s as real * TwoTo(w) && b == t as real * TwoTo(z) && s < 4096 && t < 4096 && -149 <= w + z <= 104
    ensures ProductFits(a, b)
  {
    hide TwoTo;
    TwoToAdd(w, z);
    FourWay(s as real, TwoTo(w), t as real, TwoTo(z));
    RealProduct(s, t);
    assert a * b == Scaled(s * t, w + z);
  }

  lemma RealProduct(s: nat, t: nat)
    requires s < 4096 && t < 4096
    ensures (s * t) as real == s as real * t as real && s * t < 0x100_0000
  {
    MulMonotone(s, 4095, t);
    MulMonotone(t, 4095, 4095);
  }

  lemma FourWay(a: real, b: real, c: real, d: real)
    ensures (a * b) * (c * d) == (a * c) * (b * d)
  {
    Regrouped(a, b, c * d);
    Regrouped(b, c, d);
    Regrouped(c, b, d);
    Regrouped(a, c, b * d);
    assert b * c == c * b;
  }
}
