/** Quantization by comparison, as in src/fp_block.rs: the ladders of thresholds that pick the nearest code of a
    grid without dividing. */
module Ladder {
  import opened Grids

  type Grid = seq<real>

  function Gap(a: real, b: real): (d: real)
    ensures d >= 0.0
  {
    if a <= b then b - a else a - b
  }

  /** Code k is the grid entry nearest to y among the codes from lo on, ties going to the even code. */
  ghost predicate Nearest(g: Grid, lo: nat, y: real, k: nat) {
    lo <= k < |g|
    && forall j :: lo <= j < |g| ==> Gap(y, g[k]) <= Gap(y, g[j]) && (j != k && Gap(y, g[k]) == Gap(y, g[j]) ==> k % 2 == 0)
  }

  lemma BetweenIsNearer(g: Grid, y: real, i: nat, m: nat, j: nat)
    requires Ascending(g) && i < m < j < |g|
    ensures Gap(y, g[m]) < Gap(y, g[i]) || Gap(y, g[m]) < Gap(y, g[j])
  {
  }

  /** Only neighbours can be equally near. */
  lemma NearestAdjacent(g: Grid, lo: nat, y: real, k: nat, j: nat)
    requires Ascending(g) && Nearest(g, lo, y, k) && lo <= j < |g| && j != k && Gap(y, g[k]) == Gap(y, g[j])
    ensures j == k + 1 || k == j + 1
  {
    if j > k + 1 { BetweenIsNearer(g, y, k, k + 1, j); }
    if k > j + 1 { BetweenIsNearer(g, y, j, j + 1, k); }
  }

  /** No two codes are nearest. */
  lemma NearestUnique(g: Grid, lo: nat, y: real, k: nat, j: nat)
    requires Ascending(g) && Nearest(g, lo, y, k) && Nearest(g, lo, y, j)
    ensures k == j
  {
    if k != j { NearestAdjacent(g, lo, y, k, j); }
  }

  // ---- Ladders -----------------------------------------------------------------------------------------

  /** |x| above (or not below) the threshold selects the code. */
  datatype Rung = Rung(thr: real, strict: bool, code: nat)

  /** Whether a rung whose threshold is multiplied by x fires on a. */
  predicate Fires(r: Rung, x: real, a: real) {
    if r.strict then a > x * r.thr else a >= x * r.thr
  }

  function Mid(g: Grid, k: nat): real
    requires k + 1 < |g|
  {
    (g[k] + g[k + 1]) / 2.0
  }

  function MidRung(g: Grid, k: nat, scale: real): Rung
    requires k + 1 < |g|
  {
    Rung(scale * Mid(g, k), k % 2 == 0, k + 1)
  }

  /** The grid of a format. */
  function ElemGrid(f: Format): Grid
    requires f.expBits > 0
  {
    GridOf(f.expBits, f.mantBits, FiniteCodes(f))
  }

  /** Half a step above the top, from where on a value overflows. */
  function Boundary(g: Grid): real
    requires |g| >= 2
  {
    var top := |g| - 1;
    g[top] + (g[top] - g[top - 1]) / 2.0
  }

  /** The element ladder: the midpoints in order, strict at even codes, then the overflow boundary if there is one. */
  method ElemLadder(f: Format) returns (rungs: seq<Rung>, ovf: bool)
    requires f.expBits > 0 && FiniteCodes(f) >= 2
    ensures ovf == (f.hasInf || f.hasNan)
    ensures var g := ElemGrid(f);
            |rungs| == |g| - 1 + (if ovf then 1 else 0) && IsMidLadder(g, 0, 1.0, rungs[..|g| - 1])
            && (ovf ==> rungs[|g| - 1] == Rung(Boundary(g), (|g| - 1) % 2 == 0, 0))
  {
    hide Value;
    var g := FormatGrid(f);
    rungs := [];
    for k := 0 to |g| - 1
      invariant |rungs| == k && forall i :: 0 <= i < k ==> rungs[i] == MidRung(g, i, 1.0)
    {
      rungs := rungs + [Rung((g[k] + g[k + 1]) / 2.0, k % 2 == 0, k + 1)];
    }
    ovf := f.hasInf || f.hasNan;
    if ovf {
      var k := |g| - 1;
      var ulp := g[k] - g[k - 1];
      rungs := rungs + [Rung(g[k] + ulp / 2.0, k % 2 == 0, 0)];
    }
  }

  ghost predicate LastFired(rungs: seq<Rung>, x: real, a: real, i: int) {
    0 <= i < |rungs| && Fires(rungs[i], x, a) && forall j :: i < j < |rungs| ==> !Fires(rungs[j], x, a)
  }

  /** What the ladder answers: the base code, or the code of the last rung that fires. */
  ghost predicate Answers(rungs: seq<Rung>, base: nat, x: real, a: real, code: nat) {
    if forall i :: 0 <= i < |rungs| ==> !Fires(rungs[i], x, a) then code == base
    else exists i :: LastFired(rungs, x, a, i) && code == rungs[i].code
  }

  /** No product of the scale and a threshold rounds. */
  ghost predicate ProductsExact(mul: (real, real) -> real, x: real, rungs: seq<Rung>) {
    forall i :: 0 <= i < |rungs| ==> mul(x, rungs[i].thr) == x * rungs[i].thr
  }

  /** The emitted comparisons: every rung that fires overwrites the code. `mul` is the target's multiplication. */
  method Climb(mul: (real, real) -> real, rungs: seq<Rung>, base: nat, x: real, a: real) returns (code: nat)
    requires ProductsExact(mul, x, rungs)
    ensures Answers(rungs, base, x, a, code)
  {
    code := base;
    ghost var lastFired := -1;
    for i := 0 to |rungs|
      invariant -1 <= lastFired < i
      invariant forall j :: lastFired < j < i ==> !Fires(rungs[j], x, a)
      invariant if lastFired == -1 then code == base else Fires(rungs[lastFired], x, a) && code == rungs[lastFired].code
    {
      var limit := mul(x, rungs[i].thr);
      if if rungs[i].strict then a > limit else a >= limit {
        code := rungs[i].code;
        lastFired := i;
      }
    }
    if lastFired >= 0 {
      assert LastFired(rungs, x, a, lastFired);
    }
  }

  /** A value between the midpoints around a code has that code as its nearest. */
  lemma BetweenMidpoints(g: Grid, lo: nat, y: real, k: nat)
    requires Ascending(g) && lo <= k < |g|
    requires k > lo ==> y > Mid(g, k - 1) || (y == Mid(g, k - 1) && k % 2 == 0)
    requires k + 1 < |g| ==> y < Mid(g, k) || (y == Mid(g, k) && k % 2 == 0)
    ensures Nearest(g, lo, y, k)
  {
    forall j | lo <= j < |g|
      ensures Gap(y, g[k]) <= Gap(y, g[j]) && (j != k && Gap(y, g[k]) == Gap(y, g[j]) ==> k % 2 == 0)
    {
      if j < k {
        assert g[j] <= g[k - 1] < g[k];
      } else if j > k {
        assert g[k] < g[k + 1] <= g[j];
      }
    }
  }

  /** The midpoint ladder over the codes from lo on, with its thresholds scaled. */
  ghost predicate IsMidLadder(g: Grid, lo: nat, scale: real, rungs: seq<Rung>) {
    lo < |g| && |rungs| == |g| - 1 - lo
    && forall i :: 0 <= i < |rungs| ==> rungs[i] == MidRung(g, lo + i, scale)
  }

  lemma FiresIs(r: Rung, x: real, a: real, y: real, s: real, thr: real)
    requires x > 0.0 && s > 0.0 && a == (x * s) * y && r.thr == s * thr
    ensures Fires(r, x, a) <==> if r.strict then y > thr else y >= thr
  {
    assert x * s > 0.0;
    assert x * (s * thr) == (x * s) * thr;
    RealOrder(thr, y, x * s);
    assert thr * (x * s) == (x * s) * thr && y * (x * s) == (x * s) * y;
  }

  /** The boundary ladder is the nearest search: for any ascending grid and any positive scale, the last rung that
      fires on a names the code nearest to a divided by the scale, with ties to the even code, saturating at the top. */
  lemma LadderIsNearest(g: Grid, lo: nat, s: real, x: real, a: real, y: real, rungs: seq<Rung>, code: nat)
    requires Ascending(g) && IsMidLadder(g, lo, s, rungs) && Answers(rungs, lo, x, a, code)
    requires x > 0.0 && s > 0.0 && a == (x * s) * y
    ensures Nearest(g, lo, y, code)
  {
    hide Fires, MidRung, Mid, Nearest, Ascending;
    if forall i :: 0 <= i < |rungs| ==> !Fires(rungs[i], x, a) {
      if lo + 1 < |g| { RungIs(g, lo, s, x, a, y, rungs, 0); }
      BetweenMidpoints(g, lo, y, lo);
    } else {
      var i :| LastFired(rungs, x, a, i) && code == rungs[i].code;
      RungIs(g, lo, s, x, a, y, rungs, i);
      if i + 1 < |rungs| { RungIs(g, lo, s, x, a, y, rungs, i + 1); }
      BetweenMidpoints(g, lo, y, lo + i + 1);
    }
  }

  lemma RungIs(g: Grid, lo: nat, s: real, x: real, a: real, y: real, rungs: seq<Rung>, i: nat)
    requires IsMidLadder(g, lo, s, rungs) && i < |rungs| && x > 0.0 && s > 0.0 && a == (x * s) * y
    ensures rungs[i].code == lo + i + 1
    ensures Fires(rungs[i], x, a) <==> y > Mid(g, lo + i) || (y == Mid(g, lo + i) && (lo + i) % 2 == 1)
  {
    FiresIs(rungs[i], x, a, y, s, Mid(g, lo + i));
  }
}
