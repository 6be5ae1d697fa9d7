/** The pairwise summation order of src/fp_block.rs: which temporaries are added, in which order, at which depth. */
module DotSchedule {
  import opened BitVec

  /** The temporaries each addition reads; addition k defines temporary n + k. */
  type Adds = seq<(nat, nat)>

  /** Additions read temporaries defined before them. */
  predicate WfAdds(adds: Adds, n: nat) {
    forall k :: 0 <= k < |adds| ==> adds[k].0 < n + k && adds[k].1 < n + k
  }

  /** The leaves below a temporary, from left to right. */
  function Leaves(adds: Adds, n: nat, t: nat): seq<nat>
    requires WfAdds(adds, n)
  {
    if t < n then [t]
    else if t - n < |adds| then Leaves(adds, n, adds[t - n].0) + Leaves(adds, n, adds[t - n].1)
    else []
  }

  /** The longest chain of additions below a temporary. */
  function Level(adds: Adds, n: nat, t: nat): nat
    requires WfAdds(adds, n)
  {
    if t < n || t - n >= |adds| then 0
    else Max(Level(adds, n, adds[t - n].0), Level(adds, n, adds[t - n].1)) + 1
  }

  /** How often each temporary is read. */
  function Consumed(adds: Adds): multiset<nat> {
    if adds == [] then multiset{}
    else Consumed(adds[..|adds| - 1]) + multiset{adds[|adds| - 1].0, adds[|adds| - 1].1}
  }

  function Count(n: nat): seq<nat> { seq(n, i requires 0 <= i < n => i) }

  // ---- The order of summation ----------------------------------------------------------------------------

  /** Which values are added to which. */
  datatype Tree = Leaf(i: nat) | Plus(l: Tree, r: Tree)

  /** The tree a temporary is the root of. */
  ghost function TreeOf(adds: Adds, n: nat, t: nat): Tree
    requires WfAdds(adds, n)
  {
    if t < n || t - n >= |adds| then Leaf(t) else Plus(TreeOf(adds, n, adds[t - n].0), TreeOf(adds, n, adds[t - n].1))
  }

  ghost function Trees(adds: Adds, n: nat, ids: seq<nat>): (ts: seq<Tree>)
    requires WfAdds(adds, n)
    ensures |ts| == |ids|
  {
    seq(|ids|, k requires 0 <= k < |ids| => TreeOf(adds, n, ids[k]))
  }

  /** One round of the balanced order: adjacent pairs, a lone last one untouched. */
  ghost function PairUp(ts: seq<Tree>): (r: seq<Tree>)
    ensures |r| == (|ts| + 1) / 2
  {
    if |ts| < 2 then ts else [Plus(ts[0], ts[1])] + PairUp(ts[2..])
  }

  /** Rounds until one is left. */
  ghost function Balanced(ts: seq<Tree>): Tree
    requires ts != []
    decreases |ts|
  {
    if |ts| == 1 then ts[0] else Balanced(PairUp(ts))
  }

  ghost function LeafTrees(n: nat): seq<Tree> { seq(n, i requires 0 <= i < n => Leaf(i)) }

  lemma {:induction false} TreeGrows(adds: Adds, n: nat, add: (nat, nat), t: nat)
    requires WfAdds(adds, n) && WfAdds(adds + [add], n) && t < n + |adds|
    ensures TreeOf(adds + [add], n, t) == TreeOf(adds, n, t)
    decreases t
  {
    if t >= n {
      TreeGrows(adds, n, add, adds[t - n].0);
      TreeGrows(adds, n, add, adds[t - n].1);
    }
  }

  /** During a round: what has been paired, then the round on what has not. */
  ghost predicate Pairing(adds: Adds, n: nat, nxt: seq<nat>, tail: seq<nat>, whole: seq<Tree>) {
    WfAdds(adds, n) && Below(n + |adds|, nxt) && Below(n + |adds|, tail)
    && Trees(adds, n, nxt) + PairUp(Trees(adds, n, tail)) == PairUp(whole)
  }

  ghost predicate Below(bound: nat, ids: seq<nat>) {
    forall k :: 0 <= k < |ids| ==> ids[k] < bound
  }

  lemma PairingStep(adds: Adds, n: nat, nxt: seq<nat>, tail: seq<nat>, whole: seq<Tree>)
    requires Pairing(adds, n, nxt, tail, whole) && |tail| >= 2
    ensures Pairing(adds + [(tail[0], tail[1])], n, nxt + [n + |adds|], tail[2..], whole)
  {
    hide PairUp;
    var add, t := (tail[0], tail[1]), n + |adds|;
    var more := adds + [add];
    assert WfAdds(more, n);
    SameTrees(adds, n, add, nxt);
    SameTrees(adds, n, add, tail);
    PairUpStep(Trees(adds, n, tail));
    assert TreeOf(more, n, t) == Plus(TreeOf(adds, n, tail[0]), TreeOf(adds, n, tail[1])) by {
      TreeGrows(adds, n, add, tail[0]);
      TreeGrows(adds, n, add, tail[1]);
    }
    assert Trees(more, n, tail[2..]) == Trees(adds, n, tail)[2..];
    assert Trees(more, n, nxt + [t]) == Trees(adds, n, nxt) + [TreeOf(more, n, t)];
  }

  lemma PairUpStep(ts: seq<Tree>)
    ensures |ts| >= 2 ==> PairUp(ts) == [Plus(ts[0], ts[1])] + PairUp(ts[2..])
    ensures |ts| < 2 ==> PairUp(ts) == ts
  {
  }

  lemma SameTrees(adds: Adds, n: nat, add: (nat, nat), ids: seq<nat>)
    requires WfAdds(adds, n) && WfAdds(adds + [add], n) && Below(n + |adds|, ids)
    ensures Trees(adds + [add], n, ids) == Trees(adds, n, ids)
  {
    forall k | 0 <= k < |ids| ensures TreeOf(adds + [add], n, ids[k]) == TreeOf(adds, n, ids[k]) {
      TreeGrows(adds, n, add, ids[k]);
    }
  }

  lemma PairingDone(adds: Adds, n: nat, nxt: seq<nat>, tail: seq<nat>, whole: seq<Tree>)
    requires Pairing(adds, n, nxt, tail, whole) && |tail| < 2
    ensures Below(n + |adds|, nxt + tail) && Trees(adds, n, nxt + tail) == PairUp(whole)
  {
    PairUpStep(Trees(adds, n, tail));
    assert Trees(adds, n, nxt + tail) == Trees(adds, n, nxt) + Trees(adds, n, tail);
  }

  lemma StartTrees(n: nat, cur: seq<nat>)
    requires cur == Count(n)
    ensures WfAdds([], n) && Below(n, cur) && Trees([], n, cur) == LeafTrees(n)
  {
  }

  lemma PairingStart(adds: Adds, n: nat, cur: seq<nat>)
    requires WfAdds(adds, n) && Below(n + |adds|, cur)
    ensures Pairing(adds, n, [], cur, Trees(adds, n, cur))
  {
  }

  // ---- Additions only accumulate -----------------------------------------------------------------------

  lemma {:induction false} LeavesGrow(adds: Adds, n: nat, add: (nat, nat), t: nat)
    requires WfAdds(adds, n) && WfAdds(adds + [add], n) && t < n + |adds|
    ensures Leaves(adds + [add], n, t) == Leaves(adds, n, t) && Level(adds + [add], n, t) == Level(adds, n, t)
    decreases t
  {
    if t >= n {
      LeavesGrow(adds, n, add, adds[t - n].0);
      LeavesGrow(adds, n, add, adds[t - n].1);
    }
  }

  /** The leaves below a list of temporaries. */
  function AllLeaves(adds: Adds, n: nat, ts: seq<nat>): seq<nat>
    requires WfAdds(adds, n)
  {
    if ts == [] then [] else AllLeaves(adds, n, ts[..|ts| - 1]) + Leaves(adds, n, ts[|ts| - 1])
  }

  lemma {:induction false} AllLeavesConcat(adds: Adds, n: nat, a: seq<nat>, b: seq<nat>)
    requires WfAdds(adds, n)
    ensures AllLeaves(adds, n, a + b) == AllLeaves(adds, n, a) + AllLeaves(adds, n, b)
    decreases |b|
  {
    if b == [] {
      assert a + b == a;
    } else {
      var c := b[..|b| - 1];
      AllLeavesConcat(adds, n, a, c);
      assert (a + b)[..|a + b| - 1] == a + c && (a + b)[|a + b| - 1] == b[|b| - 1];
    }
  }

  lemma {:induction false} AllLeavesGrow(adds: Adds, n: nat, add: (nat, nat), ts: seq<nat>)
    requires WfAdds(adds, n) && WfAdds(adds + [add], n) && forall k :: 0 <= k < |ts| ==> ts[k] < n + |adds|
    ensures AllLeaves(adds + [add], n, ts) == AllLeaves(adds, n, ts)
  {
    if ts != [] {
      AllLeavesGrow(adds, n, add, ts[..|ts| - 1]);
      LeavesGrow(adds, n, add, ts[|ts| - 1]);
    }
  }

  lemma {:induction false} CountLeaves(n: nat, k: nat)
    requires k <= n
    ensures WfAdds([], n) && AllLeaves([], n, Count(k)) == Count(k)
  {
    if k > 0 {
      CountLeaves(n, k - 1);
      assert Count(k)[..k - 1] == Count(k - 1);
    }
  }

  // ---- The schedule ------------------------------------------------------------------------------------

  /** The temporaries still to be summed and the additions so far: the leaves stay in order, everything else has been
      read exactly once, and no temporary lies deeper than the number of rounds. */
  ghost predicate Open(adds: Adds, n: nat, open: seq<nat>) {
    && WfAdds(adds, n)
    && (forall k :: 0 <= k < |open| ==> open[k] < n + |adds|)
    && AllLeaves(adds, n, open) == Count(n)
    && forall t: nat :: Consumed(adds)[t] + multiset(open)[t] == if t < n + |adds| then 1 else 0
  }

  ghost predicate Depth(adds: Adds, n: nat, d: nat) {
    WfAdds(adds, n) && forall t: nat :: t < n + |adds| ==> Level(adds, n, t) <= d
  }

  lemma CountDistinct(n: nat)
    ensures forall t: nat :: multiset(Count(n))[t] == if t < n then 1 else 0
  {
    if n > 0 {
      CountDistinct(n - 1);
      assert Count(n) == Count(n - 1) + [n - 1];
    }
  }

  /** Replacing two neighbours by their sum keeps everything in order. */
  lemma AddKeeps(adds: Adds, n: nat, before: seq<nat>, l: nat, r: nat, rest: seq<nat>)
    requires Open(adds, n, before + [l, r] + rest)
    ensures Open(adds + [(l, r)], n, before + [n + |adds|] + rest)
  {
    hide Leaves, AllLeaves, Consumed;
    var more := adds + [(l, r)];
    var t, now, next := n + |adds|, before + [l, r] + rest, before + [n + |adds|] + rest;
    assert l == now[|before|] && r == now[|before| + 1];
    assert WfAdds(more, n);
    AddLeaves(adds, n, before, l, r, rest);
    AddConsumes(adds, l, r);
    assert multiset(now) == multiset(before) + multiset{l, r} + multiset(rest);
    assert multiset(next) == multiset(before) + multiset{t} + multiset(rest);
    forall k | 0 <= k < |next| ensures next[k] < n + |more| {
      assert next[k] == if k < |before| then now[k] else if k == |before| then t else now[k + 1];
    }
    forall u: nat ensures Consumed(more)[u] + multiset(next)[u] == if u < n + |more| then 1 else 0 {
      assert Consumed(adds)[u] + multiset(now)[u] == if u < n + |adds| then 1 else 0;
    }
  }

  lemma AddConsumes(adds: Adds, l: nat, r: nat)
    ensures Consumed(adds + [(l, r)]) == Consumed(adds) + multiset{l, r}
  {
    var more := adds + [(l, r)];
    assert more[..|more| - 1] == adds;
  }

  lemma AddLeaves(adds: Adds, n: nat, before: seq<nat>, l: nat, r: nat, rest: seq<nat>)
    requires WfAdds(adds, n) && WfAdds(adds + [(l, r)], n)
    requires forall k :: 0 <= k < |before + [l, r] + rest| ==> (before + [l, r] + rest)[k] < n + |adds|
    ensures AllLeaves(adds + [(l, r)], n, before + [n + |adds|] + rest) == AllLeaves(adds, n, before + [l, r] + rest)
  {
    var more, t := adds + [(l, r)], n + |adds|;
    var now := before + [l, r] + rest;
    assert forall k :: 0 <= k < |before| ==> before[k] == now[k];
    assert forall k :: 0 <= k < |rest| ==> rest[k] == now[|before| + 2 + k];
    assert l == now[|before|] && r == now[|before| + 1];
    AllLeavesConcat(more, n, before + [t], rest);
    AllLeavesConcat(more, n, before, [t]);
    AllLeavesConcat(adds, n, before + [l, r], rest);
    AllLeavesConcat(adds, n, before, [l, r]);
    AllLeavesGrow(adds, n, (l, r), before);
    AllLeavesGrow(adds, n, (l, r), rest);
    LeavesGrow(adds, n, (l, r), l);
    LeavesGrow(adds, n, (l, r), r);
    OneLeaf(more, n, t);
    TwoLeaves(adds, n, l, r);
  }

  lemma OneLeaf(adds: Adds, n: nat, t: nat)
    requires WfAdds(adds, n)
    ensures AllLeaves(adds, n, [t]) == Leaves(adds, n, t)
  {
    assert [t][..0] == [];
  }

  lemma TwoLeaves(adds: Adds, n: nat, l: nat, r: nat)
    requires WfAdds(adds, n)
    ensures AllLeaves(adds, n, [l, r]) == Leaves(adds, n, l) + Leaves(adds, n, r)
  {
    OneLeaf(adds, n, l);
    assert [l, r][..1] == [l];
  }

  lemma AddDepth(adds: Adds, n: nat, l: nat, r: nat, d: nat)
    requires Depth(adds, n, d) && l < n + |adds| && r < n + |adds| && Level(adds, n, l) < d && Level(adds, n, r) < d
    ensures Depth(adds + [(l, r)], n, d)
    ensures Level(adds + [(l, r)], n, n + |adds|) == Max(Level(adds, n, l), Level(adds, n, r)) + 1
  {
    var more := adds + [(l, r)];
    assert WfAdds(more, n);
    LeavesGrow(adds, n, (l, r), l);
    LeavesGrow(adds, n, (l, r), r);
    forall t: nat | t < n + |more| ensures Level(more, n, t) <= d {
      if t < n + |adds| { LeavesGrow(adds, n, (l, r), t); }
    }
  }

  /** The balanced pairwise order. Its value is a tree over the leaves in order; every temporary but the last is read
      exactly once; its depth is the ceiling of the base-two logarithm. */
  method DotAdds(n: nat) returns (adds: Adds, last: nat)
    requires n > 0
    ensures WfAdds(adds, n) && |adds| == n - 1 && last < n + |adds|
    ensures Leaves(adds, n, last) == Count(n) && TreeOf(adds, n, last) == Balanced(LeafTrees(n))
    ensures forall t: nat :: Consumed(adds)[t] == if t < n + |adds| && t != last then 1 else 0
    ensures Level(adds, n, last) == Clog2(n) && forall t: nat :: t < n + |adds| ==> Level(adds, n, t) <= Clog2(n)
  {
    hide Leaves, AllLeaves, Consumed, TreeOf, PairUp;
    var cur: seq<nat> := Count(n);
    adds := [];
    var nextId := n;
    ghost var d := 0;
    CountLeaves(n, n);
    CountDistinct(n);
    NoneConsumed();
    StartTrees(n, cur);
    while |cur| > 1
      invariant |cur| >= 1 && nextId == n + |adds| && |adds| + |cur| == n
      invariant WfAdds(adds, n) && Below(n + |adds|, cur) && Balanced(Trees(adds, n, cur)) == Balanced(LeafTrees(n))
      invariant Open(adds, n, cur) && Depth(adds, n, d) && Level(adds, n, cur[0]) == d
      invariant d + Clog2(|cur|) == Clog2(n)
      decreases |cur|
    {
      adds, cur, nextId := SumPairs(adds, n, cur, nextId, d);
      d := d + 1;
    }
    OneLeaf(adds, n, cur[0]);
    assert cur == [cur[0]];
    last := cur[0];
  }

  /** One round: adjacent pairs are added, a lone last value passes through. */
  method SumPairs(adds0: Adds, n: nat, cur: seq<nat>, id0: nat, ghost d: nat)
    returns (adds: Adds, nxt: seq<nat>, nextId: nat)
    requires |cur| > 1 && id0 == n + |adds0|
    requires Open(adds0, n, cur) && Depth(adds0, n, d) && Level(adds0, n, cur[0]) == d
    requires WfAdds(adds0, n) && Below(n + |adds0|, cur)
    ensures WfAdds(adds, n) && Below(n + |adds|, nxt) && Trees(adds, n, nxt) == PairUp(Trees(adds0, n, cur))
    ensures |nxt| == (|cur| + 1) / 2 && nextId == n + |adds| && |adds| + |nxt| == |adds0| + |cur|
    ensures Open(adds, n, nxt) && Depth(adds, n, d + 1) && Level(adds, n, nxt[0]) == d + 1
  {
    hide Leaves, AllLeaves, Consumed, Open, Depth, Level, WfAdds, Summing, Trees, PairUp, Pairing, Below;
    adds, nxt, nextId := adds0, [], id0;
    var i := 0;
    ghost var tail := cur;
    StartRound(adds0, n, cur, d);
    PairingStart(adds0, n, cur);
    while i + 1 < |cur|
      invariant 0 <= i <= |cur| && i % 2 == 0 && |nxt| == i / 2 && nextId == n + |adds|
      invariant |adds| == |adds0| + |nxt| && tail == cur[i..]
      invariant Summing(adds, n, nxt, tail, d) && Pairing(adds, n, nxt, tail, Trees(adds0, n, cur))
    {
      SumStep(adds, n, nxt, tail, d);
      PairingStep(adds, n, nxt, tail, Trees(adds0, n, cur));
      assert tail[2..] == cur[i + 2..];
      adds := adds + [(cur[i], cur[i + 1])];
      nxt := nxt + [nextId];
      nextId := nextId + 1;
      i := i + 2;
      tail := tail[2..];
    }
    ghost var summed := nxt;
    if i < |cur| {
      nxt := nxt + [cur[i]];
    }
    assert nxt == summed + tail;
    RoundDone(adds, n, summed, tail, d);
    PairingDone(adds, n, summed, tail, Trees(adds0, n, cur));
  }

  /** During a round: the sums made so far, then the temporaries not yet paired. */
  ghost predicate Summing(adds: Adds, n: nat, nxt: seq<nat>, tail: seq<nat>, d: nat) {
    && Open(adds, n, nxt + tail) && Depth(adds, n, d + 1) && nxt + tail != []
    && (forall k :: 0 <= k < |tail| ==> Level(adds, n, tail[k]) <= d)
    && Level(adds, n, (nxt + tail)[0]) == if nxt == [] then d else d + 1
  }

  lemma RoundDone(adds: Adds, n: nat, nxt: seq<nat>, tail: seq<nat>, d: nat)
    requires Summing(adds, n, nxt, tail, d) && nxt != []
    ensures Open(adds, n, nxt + tail) && Depth(adds, n, d + 1) && WfAdds(adds, n) && Level(adds, n, (nxt + tail)[0]) == d + 1
  {
  }

  lemma SumStep(adds: Adds, n: nat, nxt: seq<nat>, tail: seq<nat>, d: nat)
    requires Summing(adds, n, nxt, tail, d) && |tail| >= 2
    ensures Summing(adds + [(tail[0], tail[1])], n, nxt + [n + |adds|], tail[2..], d)
  {
    hide Leaves, AllLeaves, Consumed, Level, Open;
    var l, r, t, rest := tail[0], tail[1], n + |adds|, tail[2..];
    assert nxt + tail == nxt + [l, r] + rest;
    InRange(adds, n, nxt, tail, d);
    AddKeeps(adds, n, nxt, l, r, rest);
    LevelsGrow(adds, n, (l, r));
    AddDepth(adds, n, l, r, d + 1);
    assert nxt == [] ==> l == (nxt + tail)[0];
    assert nxt != [] ==> (nxt + [t] + rest)[0] == (nxt + tail)[0];
    assert forall k :: 0 <= k < |rest| ==> rest[k] == tail[k + 2];
  }

  lemma InRange(adds: Adds, n: nat, nxt: seq<nat>, tail: seq<nat>, d: nat)
    requires Summing(adds, n, nxt, tail, d)
    ensures forall k :: 0 <= k < |tail| ==> tail[k] < n + |adds|
    ensures (nxt + tail)[0] < n + |adds|
  {
    hide Leaves, AllLeaves, Consumed, Level;
    forall k | 0 <= k < |tail| ensures tail[k] < n + |adds| {
      assert tail[k] == (nxt + tail)[|nxt| + k];
    }
  }

  lemma StartRound(adds: Adds, n: nat, cur: seq<nat>, d: nat)
    requires Open(adds, n, cur) && Depth(adds, n, d) && cur != [] && Level(adds, n, cur[0]) == d
    ensures Summing(adds, n, [], cur, d)
  {
    assert [] + cur == cur;
  }

  lemma LevelsGrow(adds: Adds, n: nat, add: (nat, nat))
    requires WfAdds(adds, n) && add.0 < n + |adds| && add.1 < n + |adds|
    ensures WfAdds(adds + [add], n)
    ensures forall t: nat :: t < n + |adds| ==> Level(adds + [add], n, t) == Level(adds, n, t)
  {
    assert WfAdds(adds + [add], n);
    forall t: nat | t < n + |adds| ensures Level(adds + [add], n, t) == Level(adds, n, t) {
      LeavesGrow(adds, n, add, t);
    }
  }

  lemma NoneConsumed()
    ensures Consumed([]) == multiset{}
  {
  }

  // ---- What the schedule computes ----------------------------------------------------------------------

  /** The value of a temporary when the leaves hold the given products. */
  function TempValue(adds: Adds, n: nat, add: (int, int) -> int, leaves: seq<int>, t: nat): int
    requires WfAdds(adds, n) && |leaves| == n
  {
    if t < n then leaves[t]
    else if t - n < |adds|
    then add(TempValue(adds, n, add, leaves, adds[t - n].0), TempValue(adds, n, add, leaves, adds[t - n].1))
    else 0
  }

  /** Adding the products one after the other. */
  function RunningSum(add: (int, int) -> int, vs: seq<int>): int
    requires vs != []
  {
    if |vs| == 1 then vs[0] else add(RunningSum(add, vs[..|vs| - 1]), vs[|vs| - 1])
  }

  ghost predicate Associative(add: (int, int) -> int) {
    forall a, b, c :: add(add(a, b), c) == add(a, add(b, c))
  }

  lemma {:induction false} RunningSumConcat(add: (int, int) -> int, a: seq<int>, b: seq<int>)
    requires Associative(add) && a != [] && b != []
    ensures RunningSum(add, a + b) == add(RunningSum(add, a), RunningSum(add, b))
    decreases |b|
  {
    var ab := a + b;
    assert ab[|ab| - 1] == b[|b| - 1];
    if |b| == 1 {
      assert ab[..|ab| - 1] == a;
    } else {
      assert ab[..|ab| - 1] == a + b[..|b| - 1];
      RunningSumConcat(add, a, b[..|b| - 1]);
    }
  }

  function Pick(leaves: seq<int>, at: seq<nat>): (p: seq<int>)
    requires forall k :: 0 <= k < |at| ==> at[k] < |leaves|
    ensures |p| == |at|
  {
    seq(|at|, i requires 0 <= i < |at| => leaves[at[i]])
  }

  lemma {:induction false} LeavesInRange(adds: Adds, n: nat, t: nat)
    requires WfAdds(adds, n) && t < n + |adds|
    ensures Leaves(adds, n, t) != [] && forall k :: 0 <= k < |Leaves(adds, n, t)| ==> Leaves(adds, n, t)[k] < n
    decreases t
  {
    if t >= n {
      LeavesInRange(adds, n, adds[t - n].0);
      LeavesInRange(adds, n, adds[t - n].1);
    }
  }

  lemma {:induction false} TreeIsRunningSum(adds: Adds, n: nat, add: (int, int) -> int, leaves: seq<int>, t: nat)
    requires WfAdds(adds, n) && |leaves| == n && Associative(add) && t < n + |adds|
    ensures forall k :: 0 <= k < |Leaves(adds, n, t)| ==> Leaves(adds, n, t)[k] < n
    ensures Leaves(adds, n, t) != []
    ensures TempValue(adds, n, add, leaves, t) == RunningSum(add, Pick(leaves, Leaves(adds, n, t)))
    decreases t
  {
    hide RunningSum, Pick;
    LeavesInRange(adds, n, t);
    if t < n {
      OneLeafSum(add, leaves, t);
    } else {
      var l, r := adds[t - n].0, adds[t - n].1;
      TreeIsRunningSum(adds, n, add, leaves, l);
      TreeIsRunningSum(adds, n, add, leaves, r);
      PickConcat(leaves, Leaves(adds, n, l), Leaves(adds, n, r));
      RunningSumConcat(add, Pick(leaves, Leaves(adds, n, l)), Pick(leaves, Leaves(adds, n, r)));
    }
  }

  lemma OneLeafSum(add: (int, int) -> int, leaves: seq<int>, t: nat)
    requires t < |leaves|
    ensures RunningSum(add, Pick(leaves, [t])) == leaves[t]
  {
  }

  lemma PickConcat(leaves: seq<int>, a: seq<nat>, b: seq<nat>)
    requires forall k :: 0 <= k < |a| ==> a[k] < |leaves|
    requires forall k :: 0 <= k < |b| ==> b[k] < |leaves|
    requires forall k :: 0 <= k < |a + b| ==> (a + b)[k] < |leaves|
    ensures Pick(leaves, a + b) == Pick(leaves, a) + Pick(leaves, b)
  {
  }

  /** For an associative operator the pairwise order gives the left-to-right sum of all products. */
  lemma PairwiseIsRunningSum(adds: Adds, n: nat, add: (int, int) -> int, leaves: seq<int>, last: nat)
    requires WfAdds(adds, n) && |leaves| == n > 0 && Associative(add) && last < n + |adds|
    requires Leaves(adds, n, last) == Count(n)
    ensures TempValue(adds, n, add, leaves, last) == RunningSum(add, leaves)
  {
    TreeIsRunningSum(adds, n, add, leaves, last);
    assert Pick(leaves, Count(n)) == leaves;
  }

  // ---- The sum itself, in its order ------------------------------------------------------------------------

  /** One round on values. */
  function PairRound(add: (int, int) -> int, vs: seq<int>): (r: seq<int>)
    ensures |r| == (|vs| + 1) / 2
  {
    if |vs| < 2 then vs else [add(vs[0], vs[1])] + PairRound(add, vs[2..])
  }

  /** The balanced sum of some values: rounds until one is left. */
  function PairSum(add: (int, int) -> int, vs: seq<int>): int
    requires vs != []
    decreases |vs|
  {
    if |vs| == 1 then vs[0] else PairSum(add, PairRound(add, vs))
  }

  ghost function TreeValue(add: (int, int) -> int, leaves: seq<int>, t: Tree): int {
    match t
    case Leaf(i) => if i < |leaves| then leaves[i] else 0
    case Plus(l, r) => add(TreeValue(add, leaves, l), TreeValue(add, leaves, r))
  }

  ghost function TreeValues(add: (int, int) -> int, leaves: seq<int>, ts: seq<Tree>): (vs: seq<int>)
    ensures |vs| == |ts|
  {
    seq(|ts|, k requires 0 <= k < |ts| => TreeValue(add, leaves, ts[k]))
  }

  lemma {:induction false} PairUpValues(add: (int, int) -> int, leaves: seq<int>, ts: seq<Tree>)
    ensures TreeValues(add, leaves, PairUp(ts)) == PairRound(add, TreeValues(add, leaves, ts))
  {
    var vs := TreeValues(add, leaves, ts);
    if |ts| >= 2 {
      PairUpValues(add, leaves, ts[2..]);
      assert TreeValues(add, leaves, ts[2..]) == vs[2..];
      assert TreeValue(add, leaves, Plus(ts[0], ts[1])) == add(vs[0], vs[1]);
      assert TreeValues(add, leaves, PairUp(ts)) == [add(vs[0], vs[1])] + TreeValues(add, leaves, PairUp(ts[2..]));
    }
  }

  lemma {:induction false} BalancedValue(add: (int, int) -> int, leaves: seq<int>, ts: seq<Tree>)
    requires ts != []
    ensures TreeValue(add, leaves, Balanced(ts)) == PairSum(add, TreeValues(add, leaves, ts))
    decreases |ts|
  {
    hide PairUp, PairRound;
    if |ts| > 1 {
      PairUpValues(add, leaves, ts);
      BalancedValue(add, leaves, PairUp(ts));
    }
  }

  lemma {:induction false} TempIsTree(adds: Adds, n: nat, add: (int, int) -> int, leaves: seq<int>, t: nat)
    requires WfAdds(adds, n) && |leaves| == n && t < n + |adds|
    ensures TempValue(adds, n, add, leaves, t) == TreeValue(add, leaves, TreeOf(adds, n, t))
    decreases t
  {
    if t >= n {
      TempIsTree(adds, n, add, leaves, adds[t - n].0);
      TempIsTree(adds, n, add, leaves, adds[t - n].1);
    }
  }

  /** For any addition, associative or not, the last temporary is the balanced sum of the products in order. */
  lemma ScheduleIsPairSum(adds: Adds, n: nat, add: (int, int) -> int, leaves: seq<int>, last: nat)
    requires WfAdds(adds, n) && |leaves| == n > 0 && last < n + |adds| && TreeOf(adds, n, last) == Balanced(LeafTrees(n))
    ensures TempValue(adds, n, add, leaves, last) == PairSum(add, leaves)
  {
    hide TreeOf;
    TempIsTree(adds, n, add, leaves, last);
    BalancedValue(add, leaves, LeafTrees(n));
    assert TreeValues(add, leaves, LeafTrees(n)) == leaves;
  }
}
