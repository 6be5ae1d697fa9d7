/** The scale ladder's policies in src/fp_block.rs, and the exhaustive encoder of src/fp_lit.rs the element ladder
    agrees with. */
module LadderPolicy {
  import opened BitVec
  import opened Grids
  import opened Ladder
  import opened Wrappers
  import FpRound
  import FpDouble

  // ---- Nearest-value search ----------------------------------------------------------------------------

  /** The search over all magnitudes; the first error is compared with infinity. */
  method SearchNearest(mags: Grid, a: real) returns (best: nat)
    requires Ascending(mags) && mags != []
    ensures Nearest(mags, 0, a, best)
  {
    best := 0;
    var bestErr := 0.0;
    for i := 0 to |mags|
      invariant i > 0 ==> best < i && bestErr == Gap(a, mags[best]) && Nearest(mags[..i], 0, a, best)
    {
      var err := Gap(a, mags[i]);
      if i == 0 || err < bestErr || (err == bestErr && i % 2 == 0) {
        if i > 0 { TakeNext(mags, a, i, best); }
        best := i;
        bestErr := err;
      } else {
        KeepBest(mags, a, i, best);
      }
    }
    assert mags[..|mags|] == mags;
  }

  lemma TakeNext(mags: Grid, a: real, i: nat, best: nat)
    requires Ascending(mags) && 0 < i < |mags| && best < i && Nearest(mags[..i], 0, a, best)
    requires Gap(a, mags[i]) < Gap(a, mags[best]) || (Gap(a, mags[i]) == Gap(a, mags[best]) && i % 2 == 0)
    ensures Nearest(mags[..i + 1], 0, a, i)
  {
    var g := mags[..i + 1];
    forall j | 0 <= j < |g| ensures Gap(a, g[i]) <= Gap(a, g[j]) && (j != i && Gap(a, g[i]) == Gap(a, g[j]) ==> i % 2 == 0) {
      if j < i { assert mags[..i][j] == g[j]; }
    }
  }

  lemma KeepBest(mags: Grid, a: real, i: nat, best: nat)
    requires Ascending(mags) && 0 < i < |mags| && best < i && Nearest(mags[..i], 0, a, best)
    requires Gap(a, mags[i]) > Gap(a, mags[best]) || (Gap(a, mags[i]) == Gap(a, mags[best]) && i % 2 == 1)
    ensures Nearest(mags[..i + 1], 0, a, best)
  {
    var g := mags[..i + 1];
    forall j | 0 <= j < |g|
      ensures Gap(a, g[best]) <= Gap(a, g[j]) && (j != best && Gap(a, g[best]) == Gap(a, g[j]) ==> best % 2 == 0)
    {
      if j < i {
        assert mags[..i][j] == g[j] && mags[..i][best] == g[best];
      } else {
        TieIsNext(mags, a, i, best);
      }
    }
  }

  /** A tie with a later value can only be with the next one. */
  lemma TieIsNext(mags: Grid, a: real, i: nat, best: nat)
    requires Ascending(mags) && i < |mags| && best < i && Nearest(mags[..i], 0, a, best)
    ensures Gap(a, mags[i]) == Gap(a, mags[best]) ==> best == i - 1
  {
    if best < i - 1 {
      assert mags[..i][best + 1] == mags[best + 1] && mags[..i][best] == mags[best];
      assert Gap(a, mags[best]) <= Gap(a, mags[best + 1]);
      BetweenIsNearer(mags, a, best, best + 1, i);
    }
  }

  /** |x| of a double. */
  function RealAbs(x: nat): real {
    FpRound.Significand(x) as real * TwoTo(FpRound.Exponent(x))
  }

  /** The encoder of an all-finite format, on the bit pattern of a double: nothing for a value that is not finite or
      from half a step above the top on, otherwise the sign bit and the nearest magnitude's code. */
  method AllFiniteBits(x: nat, expBits: nat, mantBits: nat) returns (bits: Option<nat>)
    requires expBits > 0 && expBits + mantBits <= 7
    ensures var f := Format(expBits, mantBits, false, false);
            FiniteCodes(f) >= 2
            && (bits == None <==> !FpRound.Finite(x) || RealAbs(x) >= Boundary(ElemGrid(f)))
            && (bits.Some? ==> var sign := if FpDouble.Negative(x) then Pow2(expBits + mantBits) else 0;
                               bits.value >= sign && Nearest(ElemGrid(f), 0, RealAbs(x), bits.value - sign))
  {
    hide Value, RealAbs, FpRound.ExpOf, FpRound.SignOf, Nearest, Ascending, Bitwise, FpRound.Finite;
    GridSize(expBits, mantBits);
    FpDouble.SignIs(x);
    if !FpRound.Finite(x) {
      return None;
    }
    var mags := AllFiniteMagnitudes(expBits, mantBits);
    GridAscending(expBits, mantBits, |mags|);
    var maxFinite := mags[|mags| - 1];
    var topUlp := maxFinite - mags[|mags| - 2];
    var overflowAt := maxFinite + topUlp / 2.0;
    var a := RealAbs(x);
    if a >= overflowAt {
      return None;
    }
    var best := SearchNearest(mags, a);
    assert best < |mags| by { NearestInside(mags, a, best); }
    OrShifted(FpRound.SignOf(x), best, expBits + mantBits);
    return Some(Bitwise(OrBits, Up(FpRound.SignOf(x), expBits + mantBits), best));
  }

  lemma NearestInside(g: Grid, a: real, k: nat)
    requires Nearest(g, 0, a, k)
    ensures k < |g|
  {
  }

  lemma GridSize(E: nat, m: nat)
    requires E > 0
    ensures FiniteCodes(Format(E, m, false, false)) == Pow2(E + m) >= 2
  {
    hide Pow2;
    Pow2Add(E, m);
    Pow2Monotone(1, E + m);
    Pow2Step(1);
    LowZero(0);
  }

  // ---- Scale policies ----------------------------------------------------------------------------------

  datatype Policy = Exact | FloorPow2 | CeilPow2

  ghost predicate IsPow2(v: real) {
    exists q: int :: v == TwoTo(q)
  }

  predicate Halves(n: nat) {
    n == 1 || (n > 0 && n % 2 == 0 && Halves(n / 2))
  }

  /** Whether a value is a whole power of two, tested in units of 2^-u. */
  predicate WholePower(v: real, u: nat) {
    var n: int := (v * TwoTo(u)).Floor;
    n > 0 && n as real == v * TwoTo(u) && Halves(n)
  }

  lemma {:induction false} HalvesToPower(n: nat) returns (k: nat)
    requires Halves(n)
    ensures n == Pow2(k)
  {
    k := 0;
    if n != 1 {
      k := HalvesToPower(n / 2);
      k := k + 1;
    }
  }

  lemma {:induction false} PowerHalves(k: nat)
    ensures Halves(Pow2(k))
  {
    if k > 0 { PowerHalves(k - 1); }
  }

  lemma WholeTest(v: real, u: nat, n: nat)
    requires v * TwoTo(u) == n as real
    ensures WholePower(v, u) <==> n > 0 && Halves(n)
  {
    hide TwoTo;
  }

  /** The test is exact: on the grid value of a code it finds precisely the powers of two. */
  lemma PowerTestExact(c: nat, E: nat, m: nat)
    requires E > 0
    ensures WholePower(Value(c, E, m), FpRound.Units(E, m)) <==> IsPow2(Value(c, E, m))
  {
    hide Pow2, TwoTo, FpRound.Mag, FpRound.Units;
    var v, n := Value(c, E, m), FpRound.Mag(c, m);
    var u: int := FpRound.Units(E, m);
    TwoToAdd(0 - u, u);
    TwoToZero();
    Regrouped(n as real, TwoTo(0 - u), TwoTo(u));
    assert v * TwoTo(u) == n as real;
    WholeTest(v, u, n);
    if WholePower(v, u) {
      var k := HalvesToPower(n);
      PowIsTwoTo(k);
      TwoToAdd(k, 0 - u);
      assert v == TwoTo(k - u);
    }
    if IsPow2(v) {
      var q :| v == TwoTo(q);
      TwoToAdd(q, u);
      if q + u < 0 { TwoToMonotone(q + u, 0); }
      PowIsTwoTo(q + u);
      assert n == Pow2(q + u);
      PowerHalves(q + u);
    }
  }

  /** A nonzero code whose value is a power of two. */
  ghost predicate PowerCode(g: Grid, c: int) {
    1 <= c < |g| && IsPow2(g[c])
  }

  /** The codes of the nonzero powers of two of the grid, in order. */
  ghost predicate Pow2Codes(g: Grid, p: seq<nat>, upTo: nat) {
    (forall i :: 0 <= i < |p| ==> p[i] < upTo && PowerCode(g, p[i]))
    && (forall i, j :: 0 <= i < j < |p| ==> p[i] < p[j])
    && forall k :: k < upTo && PowerCode(g, k) ==> k in p
  }

  /** The block maximum at which code c fills the element format exactly. */
  function Reach(g: Grid, elemMax: real, c: nat): real
    requires c < |g|
  {
    elemMax * g[c]
  }

  lemma ReachOrder(g: Grid, elemMax: real, c: nat, d: nat)
    requires Ascending(g) && elemMax > 0.0 && c <= d < |g|
    ensures Reach(g, elemMax, c) <= Reach(g, elemMax, d)
  {
    if c < d { RealOrder(g[c], g[d], elemMax); }
  }

  /** Floor thresholds admit a code as soon as it is reached; ceil thresholds leave it as soon as it is exceeded. */
  ghost predicate IsScaleLadder(g: Grid, elemMax: real, policy: Policy, p: seq<nat>, base: nat, rungs: seq<Rung>) {
    (forall i :: 0 <= i < |p| ==> p[i] < |g|)
    && match policy
       case Exact => base == 1 && IsMidLadder(g, 1, elemMax, rungs)
       case FloorPow2 =>
         p != [] && base == p[0] && |rungs| == |p|
         && forall i :: 0 <= i < |p| ==> rungs[i] == Rung(Reach(g, elemMax, p[i]), false, p[i])
       case CeilPow2 =>
         p != [] && base == p[0] && |rungs| == |p| - 1
         && forall i :: 0 <= i < |p| - 1 ==> rungs[i] == Rung(Reach(g, elemMax, p[i]), true, p[i + 1])
  }

  /** The UE4M3 scales. */
  function Scales(): Grid { GridOf(4, 3, 0x7F) }

  /** The scale codes start at one: code zero would erase the block. */
  method ScaleLadder(elemMax: real, policy: Policy) returns (base: nat, rungs: seq<Rung>, ghost p: seq<nat>)
    ensures Pow2Codes(Scales(), p, |Scales()|) && IsScaleLadder(Scales(), elemMax, policy, p, base, rungs)
  {
    hide Reach, MidRung, Value, WholePower, IsPow2, FpRound.Units;
    var g := ScaleGrid();
    var codes: seq<nat> := [];
    for k := 1 to |g|
      invariant Pow2Codes(g, codes, k)
    {
      PowerTestExact(k, 4, 3);
      if WholePower(g[k], FpRound.Units(4, 3)) {
        codes := codes + [k];
      }
    }
    p := codes;
    assert 1 in codes by { FirstIsPower(g); }
    rungs := [];
    match policy {
      case Exact =>
        base := 1;
        rungs := ExactRungs(g, elemMax);
      case FloorPow2 =>
        base := codes[0];
        for i := 0 to |codes|
          invariant |rungs| == i && forall j :: 0 <= j < i ==> rungs[j] == Rung(Reach(g, elemMax, codes[j]), false, codes[j])
        {
          rungs := rungs + [Rung(Reach(g, elemMax, codes[i]), false, codes[i])];
        }
      case CeilPow2 =>
        base := codes[0];
        for i := 0 to |codes| - 1
          invariant |rungs| == i && forall j :: 0 <= j < i ==> rungs[j] == Rung(Reach(g, elemMax, codes[j]), true, codes[j + 1])
        {
          rungs := rungs + [Rung(Reach(g, elemMax, codes[i]), true, codes[i + 1])];
        }
    }
  }

  /** The smallest nonzero scale is a power of two. */
  lemma FirstIsPower(g: Grid)
    requires |g| >= 2 && g[1] == Value(1, 4, 3)
    ensures PowerCode(g, 1)
  {
    hide TwoTo, Value;
    ScaleConstants();
    ValueOf(0, 1, 4, 3);
    assert g[1] == TwoTo(-9);
  }

  method ExactRungs(g: Grid, elemMax: real) returns (rungs: seq<Rung>)
    requires |g| >= 2
    ensures IsMidLadder(g, 1, elemMax, rungs)
  {
    rungs := [];
    for k := 1 to |g| - 1
      invariant |rungs| == k - 1 && forall i :: 0 <= i < k - 1 ==> rungs[i] == MidRung(g, 1 + i, elemMax)
    {
      Halved(elemMax, g[k] + g[k + 1]);
      rungs := rungs + [Rung(elemMax * (g[k] + g[k + 1]) / 2.0, k % 2 == 0, k + 1)];
    }
  }

  lemma Halved(a: real, b: real)
    ensures a * b / 2.0 == a * (b / 2.0)
  {
  }

  /** Absolute thresholds: the scale ladder is climbed at scale one. */
  lemma FiresUnit(r: Rung, a: real)
    ensures Fires(r, 1.0, a) <==> if r.strict then a > r.thr else a >= r.thr
  {
  }

  /** What each policy promises for a block maximum. Exact: the scale code nearest to amax / elemMax among the nonzero
      ones, ties to even. Floor: the largest power of two whose elemMax-multiple does not exceed amax, or the smallest
      one of all. Ceil: the smallest power of two whose elemMax-multiple reaches amax, or the largest one of all. */
  ghost predicate Chosen(g: Grid, elemMax: real, policy: Policy, amax: real, code: nat)
    requires elemMax > 0.0
  {
    match policy
    case Exact => Nearest(g, 1, amax / elemMax, code)
    case FloorPow2 =>
      PowerCode(g, code)
      && (forall c :: PowerCode(g, c) && Reach(g, elemMax, c) <= amax ==> c <= code)
      && (Reach(g, elemMax, code) <= amax || forall c :: PowerCode(g, c) ==> Reach(g, elemMax, c) > amax && code <= c)
    case CeilPow2 =>
      PowerCode(g, code)
      && (forall c :: PowerCode(g, c) && c < code ==> Reach(g, elemMax, c) < amax)
      && (Reach(g, elemMax, code) >= amax || forall c :: PowerCode(g, c) ==> c <= code)
  }

  lemma ScaleIsChosen(g: Grid, elemMax: real, policy: Policy, p: seq<nat>, base: nat, rungs: seq<Rung>, amax: real, code: nat)
    requires Ascending(g) && elemMax > 0.0 && Pow2Codes(g, p, |g|)
    requires IsScaleLadder(g, elemMax, policy, p, base, rungs) && Answers(rungs, base, 1.0, amax, code)
    ensures Chosen(g, elemMax, policy, amax, code)
  {
    hide Fires, Nearest, Reach, IsPow2, Answers, Ascending;
    match policy
    case Exact =>
      assert amax == (1.0 * elemMax) * (amax / elemMax);
      LadderIsNearest(g, 1, elemMax, 1.0, amax, amax / elemMax, rungs, code);
    case FloorPow2 => FloorIsLargest(g, elemMax, p, base, rungs, amax, code);
    case CeilPow2 => CeilIsSmallest(g, elemMax, p, base, rungs, amax, code);
  }

  lemma FloorIsLargest(g: Grid, elemMax: real, p: seq<nat>, base: nat, rungs: seq<Rung>, amax: real, code: nat)
    requires elemMax > 0.0 && Pow2Codes(g, p, |g|)
    requires IsScaleLadder(g, elemMax, FloorPow2, p, base, rungs) && Answers(rungs, base, 1.0, amax, code)
    ensures Chosen(g, elemMax, FloorPow2, amax, code)
  {
    hide Fires, Reach, IsPow2;
    forall i | 0 <= i < |p| ensures Fires(rungs[i], 1.0, amax) <==> amax >= Reach(g, elemMax, p[i]) {
      FiresUnit(rungs[i], amax);
    }
    if forall i :: 0 <= i < |rungs| ==> !Fires(rungs[i], 1.0, amax) {
      forall c | PowerCode(g, c) ensures Reach(g, elemMax, c) > amax && code <= c {
        var i :| 0 <= i < |p| && p[i] == c;
        assert !Fires(rungs[i], 1.0, amax);
      }
    } else {
      var i :| LastFired(rungs, 1.0, amax, i) && code == rungs[i].code;
      forall c | PowerCode(g, c) && Reach(g, elemMax, c) <= amax ensures c <= code {
        var j :| 0 <= j < |p| && p[j] == c;
        assert Fires(rungs[j], 1.0, amax);
      }
    }
  }

  lemma CeilIsSmallest(g: Grid, elemMax: real, p: seq<nat>, base: nat, rungs: seq<Rung>, amax: real, code: nat)
    requires Ascending(g) && elemMax > 0.0 && Pow2Codes(g, p, |g|)
    requires IsScaleLadder(g, elemMax, CeilPow2, p, base, rungs) && Answers(rungs, base, 1.0, amax, code)
    ensures Chosen(g, elemMax, CeilPow2, amax, code)
  {
    hide Fires, Reach, Ascending, Answers, IsPow2;
    var at := CeilIndex(g, elemMax, p, base, rungs, amax, code);
    forall i | 0 <= i < |rungs| ensures Fires(rungs[i], 1.0, amax) <==> amax > Reach(g, elemMax, p[i]) {
      assert rungs[i] == Rung(Reach(g, elemMax, p[i]), true, p[i + 1]);
      FiresUnit(rungs[i], amax);
    }
    CeilAt(g, elemMax, p, rungs, amax, at);
  }

  lemma CeilIndex(g: Grid, elemMax: real, p: seq<nat>, base: nat, rungs: seq<Rung>, amax: real, code: nat) returns (at: nat)
    requires IsScaleLadder(g, elemMax, CeilPow2, p, base, rungs) && Answers(rungs, base, 1.0, amax, code)
    ensures at < |p| && code == p[at]
    ensures at > 0 ==> Fires(rungs[at - 1], 1.0, amax)
    ensures at < |rungs| ==> !Fires(rungs[at], 1.0, amax)
  {
    hide Fires, Reach;
    if forall i :: 0 <= i < |rungs| ==> !Fires(rungs[i], 1.0, amax) {
      at := 0;
    } else {
      var i :| LastFired(rungs, 1.0, amax, i) && code == rungs[i].code;
      at := i + 1;
    }
  }

  lemma CeilAt(g: Grid, elemMax: real, p: seq<nat>, rungs: seq<Rung>, amax: real, at: nat)
    requires Ascending(g) && elemMax > 0.0 && |rungs| == |p| - 1 && at < |p|
    requires (forall i :: 0 <= i < |p| ==> p[i] < |g|) && forall i, j :: 0 <= i < j < |p| ==> p[i] < p[j]
    requires forall i :: 0 <= i < |rungs| ==> (Fires(rungs[i], 1.0, amax) <==> amax > Reach(g, elemMax, p[i]))
    requires at > 0 ==> Fires(rungs[at - 1], 1.0, amax)
    requires at < |rungs| ==> !Fires(rungs[at], 1.0, amax)
    ensures p[at] in p && forall c :: c in p && c < p[at] ==> Reach(g, elemMax, c) < amax
    ensures Reach(g, elemMax, p[at]) >= amax || forall c :: c in p ==> c <= p[at]
  {
    hide Fires, Reach, Ascending;
    forall c | c in p && c < p[at] ensures Reach(g, elemMax, c) < amax {
      var j :| 0 <= j < |p| && p[j] == c;
      assert j < at;
      ReachOrder(g, elemMax, p[j], p[at - 1]);
    }
  }
}
