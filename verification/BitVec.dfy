/** Natural-number bit vectors: powers of two, the bitwise connectives, and the facts that tie the
    host's 128-bit machine arithmetic (masks, shifts, complements) to arithmetic modulo 2^w. */
module BitVec {

  function Pow2(n: nat): (p: nat)
    ensures p >= 1
  {
    if n == 0 then 1 else 2 * Pow2(n - 1)
  }

  lemma {:induction false} Pow2Add(a: nat, b: nat)
    ensures Pow2(a + b) == Pow2(a) * Pow2(b)
  {
    if a == 0 {
    } else {
      Pow2Add(a - 1, b);
      assert 2 * (Pow2(a - 1) * Pow2(b)) == (2 * Pow2(a - 1)) * Pow2(b);
    }
  }

  lemma Pow2Step(n: nat)
    requires n > 0
    ensures Pow2(n) == 2 * Pow2(n - 1)
  {
  }

  lemma {:induction false} Pow2Monotone(a: nat, b: nat)
    requires a <= b
    ensures Pow2(a) <= Pow2(b)
    decreases b - a
  {
    if a < b {
      Pow2Monotone(a, b - 1);
    }
  }

  /** Division with remainder is unique. */
  lemma DivModUnique(x: int, d: int, q: int, r: int)
    requires d > 0 && x == q * d + r && 0 <= r < d
    ensures x / d == q && x % d == r
  {
    DivModStep(x / d - q, d, r - x % d) by {
      assert x == d * (x / d) + x % d;
      assert (x / d - q) * d == d * (x / d) - q * d by { MulDistribute(x / d, -q, d); }
    }
  }

  /** A multiple of `d` strictly between -d and d is zero. */
  lemma DivModStep(k: int, d: int, m: int)
    requires d > 0 && k * d == m && -d < m < d
    ensures k == 0 && m == 0
  {
    MulAtLeast(k, d);
  }

  lemma MulAtLeast(k: int, d: int)
    requires d > 0
    ensures k >= 1 ==> k * d >= d
    ensures k <= -1 ==> k * d <= -d
  {
    if k >= 1 {
      MulMonotone(1, k, d);
    } else if k <= -1 {
      MulMonotone(1, -k, d);
      assert (-k) * d == -(k * d);
    }
  }

  /** Reducing modulo a multiple of `d` first does not change the residue modulo `d`. */
  lemma ModOfMod(x: nat, d: nat, k: nat)
    requires d > 0 && k > 0
    ensures k * d > 0 && (x % (k * d)) % d == x % d
  {
    assert k * d > 0 by { assert k * d >= 1 * d by { MulMonotone(1, k, d); } }
    var q, r := x / (k * d), x % (k * d);
    var q2, r2 := r / d, r % d;
    assert x == (k * d) * q + r;
    assert (k * d) * q == (q * k) * d by { MulShuffle(k, d, q); }
    assert r == q2 * d + r2;
    assert x == (q * k + q2) * d + r2 by { MulDistribute(q * k, q2, d); }
    DivModUnique(x, d, q * k + q2, r2);
  }

  lemma MulMonotone(a: nat, b: nat, c: nat)
    requires a <= b
    ensures a * c <= b * c
  {
    assert b * c == a * c + (b - a) * c;
  }

  lemma MulShuffle(k: int, d: int, q: int)
    ensures (k * d) * q == (q * k) * d
  {
    assert (k * d) * q == k * (d * q);
  }

  lemma MulDistribute(a: int, b: int, c: int)
    ensures (a + b) * c == a * c + b * c
  {
  }

  /** The low w bits of x. */
  function Low(x: nat, w: nat): (r: nat)
    ensures r < Pow2(w)
  {
    hide Pow2;
    x % Pow2(w)
  }

  /** x shifted up by k bits. */
  function Up(x: nat, k: nat): nat { x * Pow2(k) }

  /** x shifted down by k bits. */
  function Down(x: nat, k: nat): nat {
    hide Pow2;
    x / Pow2(k)
  }

  lemma LowOfLow(x: nat, w: nat, h: nat)
    requires w <= h
    ensures Low(Low(x, h), w) == Low(x, w)
  {
    hide Pow2;
    Pow2Add(h - w, w);
    ModOfMod(x, Pow2(w), Pow2(h - w));
  }

  lemma LowOfSmall(x: nat, w: nat)
    requires x < Pow2(w)
    ensures Low(x, w) == x
  {
    hide Pow2;
    DivModUnique(x, Pow2(w), 0, x);
  }

  /** The value k * 2^w + r has low bits r when r is a w-bit value. */
  lemma LowUnique(x: nat, k: int, r: nat, w: nat)
    requires x == k * Pow2(w) + r && r < Pow2(w)
    ensures Low(x, w) == r
  {
    hide Pow2;
    DivModUnique(x, Pow2(w), k, r);
  }

  lemma LowStep(x: nat, w: nat)
    requires w > 0
    ensures Low(x, w) == x % 2 + 2 * Low(x / 2, w - 1)
  {
    hide Pow2;
    var p := Pow2(w - 1);
    Pow2Step(w);
    var q, r := (x / 2) / p, (x / 2) % p;
    assert x / 2 == p * q + r;
    Regroup(q, p, r, x % 2);
    DivModUnique(x, 2 * p, q, 2 * r + x % 2);
  }

  lemma Regroup(q: int, p: int, r: int, b: int)
    ensures 2 * (p * q + r) + b == q * (2 * p) + (2 * r + b)
  {
  }

  datatype BitOp = AndBits | OrBits | XorBits

  function OneBit(op: BitOp, a: nat, b: nat): (r: nat)
    requires a < 2 && b < 2
    ensures r < 2
  {
    match op
    case AndBits => if a == 1 && b == 1 then 1 else 0
    case OrBits => if a == 1 || b == 1 then 1 else 0
    case XorBits => if a != b then 1 else 0
  }

  /** Bit-by-bit combination of two naturals. */
  function Bitwise(op: BitOp, x: nat, y: nat): (r: nat)
    decreases x + y
  {
    if x == 0 && y == 0 then 0
    else OneBit(op, x % 2, y % 2) + 2 * Bitwise(op, x / 2, y / 2)
  }

  lemma BitwiseUnfold(op: BitOp, x: nat, y: nat)
    ensures Bitwise(op, x, y) == OneBit(op, x % 2, y % 2) + 2 * Bitwise(op, x / 2, y / 2)
  {
    if x == 0 && y == 0 {
      assert Bitwise(op, x / 2, y / 2) == 0;
    }
  }

  /** A bitwise connective of two w-bit values is a w-bit value. */
  lemma {:induction false} BitwiseBound(op: BitOp, x: nat, y: nat, w: nat)
    requires x < Pow2(w) && y < Pow2(w)
    ensures Bitwise(op, x, y) < Pow2(w)
    decreases w
  {
    if w == 0 {
    } else {
      BitwiseBound(op, x / 2, y / 2, w - 1);
      BitwiseUnfold(op, x, y);
    }
  }

  lemma {:induction false} BitwiseSymmetric(op: BitOp, x: nat, y: nat)
    ensures Bitwise(op, x, y) == Bitwise(op, y, x)
    decreases x + y
  {
    if x == 0 && y == 0 {
    } else {
      BitwiseSymmetric(op, x / 2, y / 2);
    }
  }

  lemma AndOddMask(x: nat, p: nat)
    requires p > 0
    ensures Bitwise(AndBits, x, 2 * p - 1) == x % 2 + 2 * Bitwise(AndBits, x / 2, p - 1)
  {
    hide Bitwise;
    BitwiseUnfold(AndBits, x, 2 * p - 1);
    assert (2 * p - 1) / 2 == p - 1 && (2 * p - 1) % 2 == 1;
  }

  /** Masking with 2^w - 1 keeps the low w bits. */
  lemma {:induction false} AndMask(x: nat, w: nat)
    ensures Bitwise(AndBits, x, Pow2(w) - 1) == Low(x, w)
    decreases w
  {
    hide Pow2, Bitwise, Low;
    if w == 0 {
      AndZero(x);
      LowZero(x);
    } else {
      AndMask(x / 2, w - 1);
      AndMaskStep(x, w);
    }
  }

  lemma AndMaskStep(x: nat, w: nat)
    requires w > 0
    requires Bitwise(AndBits, x / 2, Pow2(w - 1) - 1) == Low(x / 2, w - 1)
    ensures Bitwise(AndBits, x, Pow2(w) - 1) == Low(x, w)
  {
    hide Pow2, Bitwise, Low;
    Pow2Step(w);
    AndOddMask(x, Pow2(w - 1));
    LowStep(x, w);
  }

  lemma LowZero(x: nat)
    ensures Pow2(0) == 1 && Low(x, 0) == 0
  {
  }

  lemma {:induction false} AndZero(x: nat)
    ensures Bitwise(AndBits, x, 0) == 0
    decreases x
  {
    if x != 0 {
      AndZero(x / 2);
    }
  }

  lemma {:induction false} OrZero(x: nat)
    ensures Bitwise(OrBits, x, 0) == x
    decreases x
  {
    if x != 0 {
      OrZero(x / 2);
    }
  }

  /** Or-ing a k-bit value below a value shifted up by k bits is addition. */
  lemma {:induction false} OrShifted(a: nat, c: nat, k: nat)
    requires c < Pow2(k)
    ensures Bitwise(OrBits, Up(a, k), c) == Up(a, k) + c
    decreases k
  {
    if k == 0 {
      OrZero(a);
    } else {
      var s := a * Pow2(k - 1);
      assert a * Pow2(k) == 2 * s;
      OrShifted(a, c / 2, k - 1);
      BitwiseUnfold(OrBits, 2 * s, c);
      assert (2 * s) / 2 == s && (2 * s) % 2 == 0;
    }
  }

  /** The number of halvings, rounding up, that bring n down to one. */
  function Clog2(n: nat): nat
    requires n > 0
  {
    if n == 1 then 0 else 1 + Clog2((n + 1) / 2)
  }

  /** Clog2 is the ceiling of the base-two logarithm. */
  lemma {:induction false} Clog2IsCeiling(n: nat)
    requires n > 0
    ensures n <= Pow2(Clog2(n)) && (n > 1 ==> Clog2(n) > 0 && Pow2(Clog2(n) - 1) < n)
  {
    if n > 1 {
      Clog2IsCeiling((n + 1) / 2);
    }
  }

  function Min(a: nat, b: nat): nat { if a < b then a else b }

  function Max(a: nat, b: nat): nat { if a < b then b else a }
}
