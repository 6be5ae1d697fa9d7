/** The staged block dot product of src/fp_block.rs: registers and what drives them, one reduction level per stage. */
module StagedDot {
  import opened BitVec
  import opened DotSchedule

  // ---- Reduction levels --------------------------------------------------------------------------------

  /** An addition of a level: its temporary and the two it reads. */
  datatype LevelAdd = LevelAdd(dst: nat, l: nat, r: nat)

  function AddAt(adds: Adds, n: nat, t: nat): LevelAdd
    requires n <= t < n + |adds|
  {
    LevelAdd(t, adds[t - n].0, adds[t - n].1)
  }

  /** level lists exactly the additions of the given depth. */
  ghost predicate ListsLevel(adds: Adds, n: nat, level: seq<LevelAdd>, lvl: nat, upTo: nat)
    requires WfAdds(adds, n)
  {
    (forall i :: 0 <= i < |level| ==>
                   n <= level[i].dst < n + |adds| && level[i].dst < n + upTo && Level(adds, n, level[i].dst) == lvl
                   && level[i] == AddAt(adds, n, level[i].dst))
    && (forall i, j :: 0 <= i < j < |level| ==> level[i].dst < level[j].dst)
    && forall t: nat :: n <= t < n + upTo && t < n + |adds| && Level(adds, n, t) == lvl ==> AddAt(adds, n, t) in level
  }

  ghost predicate Leveled(adds: Adds, n: nat, out: seq<seq<LevelAdd>>, upTo: nat)
    requires WfAdds(adds, n)
  {
    (forall i :: 0 <= i < |out| ==> ListsLevel(adds, n, out[i], i + 1, upTo))
    && forall t: nat :: t < n + upTo && t < n + |adds| ==> Level(adds, n, t) <= |out|
  }

  /** No level is empty: the deepest one is reached. */
  ghost predicate Reached(adds: Adds, n: nat, count: nat, upTo: nat)
    requires WfAdds(adds, n)
  {
    count == 0 || exists t: nat :: t < n + upTo && t < n + |adds| && Level(adds, n, t) == count
  }

  /** Groups the additions by depth. */
  method DotLevels(adds: Adds, n: nat) returns (out: seq<seq<LevelAdd>>)
    requires WfAdds(adds, n)
    ensures Leveled(adds, n, out, |adds|) && Reached(adds, n, |out|, |adds|)
  {
    hide Leveled, ListsLevel, Reached, Level, WfAdds;
    var level := new nat[n + |adds|](_ => 0);
    out := [];
    NoLevels(adds, n);
    LeafLevels(adds, n);
    for k := 0 to |adds|
      invariant forall t: nat :: t < n + k ==> level[t] == Level(adds, n, t)
      invariant Leveled(adds, n, out, k) && Reached(adds, n, |out|, k)
    {
      LevelOf(adds, n, k);
      var (l, r) := adds[k];
      var dst := n + k;
      var lv := Max(level[l], level[r]) + 1;
      level[dst] := lv;
      ReachedNext(adds, n, |out|, k, lv);
      ghost var count := |out|;
      while |out| < lv
        invariant |out| == Max(count, |out|) && |out| <= Max(count, lv)
        invariant Leveled(adds, n, out, k)
        invariant forall t: nat :: t <= dst ==> level[t] == Level(adds, n, t)
      {
        EmptyLevel(adds, n, out, k);
        out := out + [[]];
      }
      PlaceAdd(adds, n, out, k, lv);
      out := out[lv - 1 := out[lv - 1] + [LevelAdd(dst, l, r)]];
    }
  }

  lemma LevelOf(adds: Adds, n: nat, k: nat)
    requires WfAdds(adds, n) && k < |adds|
    ensures adds[k].0 < n + k && adds[k].1 < n + k
    ensures Level(adds, n, n + k) == Max(Level(adds, n, adds[k].0), Level(adds, n, adds[k].1)) + 1
  {
  }

  lemma LeafLevels(adds: Adds, n: nat)
    requires WfAdds(adds, n)
    ensures forall t: nat :: t < n ==> Level(adds, n, t) == 0
  {
  }

  lemma NoLevels(adds: Adds, n: nat)
    requires WfAdds(adds, n)
    ensures Leveled(adds, n, [], 0) && Reached(adds, n, 0, 0)
  {
  }

  lemma ReachedNext(adds: Adds, n: nat, count: nat, k: nat, lv: nat)
    requires WfAdds(adds, n) && k < |adds| && Reached(adds, n, count, k) && lv == Level(adds, n, n + k) > 0
    ensures Reached(adds, n, Max(count, lv), k + 1)
  {
    hide Level;
    if lv < count {
      var t: nat :| t < n + k && t < n + |adds| && Level(adds, n, t) == count;
      assert t < n + (k + 1);
    }
  }

  lemma EmptyLevel(adds: Adds, n: nat, out: seq<seq<LevelAdd>>, k: nat)
    requires WfAdds(adds, n) && Leveled(adds, n, out, k)
    ensures Leveled(adds, n, out + [[]], k)
  {
    var more := out + [[]];
    forall i | 0 <= i < |more| ensures ListsLevel(adds, n, more[i], i + 1, k) {
      if i < |out| { assert ListsLevel(adds, n, out[i], i + 1, k); }
    }
  }

  lemma PlaceAdd(adds: Adds, n: nat, out: seq<seq<LevelAdd>>, k: nat, lv: nat)
    requires WfAdds(adds, n) && k < |adds| && Leveled(adds, n, out, k) && 0 < lv <= |out| && Level(adds, n, n + k) == lv
    ensures Leveled(adds, n, out[lv - 1 := out[lv - 1] + [AddAt(adds, n, n + k)]], k + 1)
  {
    hide Level, ListsLevel, AddAt;
    var more := out[lv - 1 := out[lv - 1] + [AddAt(adds, n, n + k)]];
    forall i | 0 <= i < |more| ensures ListsLevel(adds, n, more[i], i + 1, k + 1) {
      assert ListsLevel(adds, n, out[i], i + 1, k);
      PlaceIn(adds, n, out[i], i + 1, k, more[i]);
    }
  }

  lemma PlaceIn(adds: Adds, n: nat, level: seq<LevelAdd>, lvl: nat, k: nat, more: seq<LevelAdd>)
    requires WfAdds(adds, n) && k < |adds| && ListsLevel(adds, n, level, lvl, k)
    requires more == if Level(adds, n, n + k) == lvl then level + [AddAt(adds, n, n + k)] else level
    ensures ListsLevel(adds, n, more, lvl, k + 1)
  {
    hide Level, WfAdds, AddAt;
    forall t: nat | n <= t < n + (k + 1) && Level(adds, n, t) == lvl ensures AddAt(adds, n, t) in more {
      if t < n + k {
        assert AddAt(adds, n, t) in level;
      } else {
        assert more[|level|] == AddAt(adds, n, t);
      }
    }
    assert AddAt(adds, n, n + k).dst == n + k by { AddAtDst(adds, n, n + k); }
  }

  lemma AddAtDst(adds: Adds, n: nat, t: nat)
    requires n <= t < n + |adds|
    ensures AddAt(adds, n, t).dst == t
  {
  }

  // ---- The netlist -------------------------------------------------------------------------------------

  /** Declared registers. */
  datatype Reg = Product(i: nat) | Carry(d: nat, id: nat) | Sum(level: nat, id: nat)
               | ByteA(k: nat) | ByteB(k: nat) | Scaled

  /** What a register loads at a clock edge. */
  datatype Drive = ElementProduct(i: nat) | Copy(src: Reg) | AddOf(l: Reg, r: Reg)
                 | InputA | InputB | ScaleBy(value: Reg, scale: Reg)

  type Net = map<Reg, Drive>

  /** The floating-point helpers and the input fields; nothing about them is assumed. */
  datatype Ops = Ops(product: (int, nat) -> int, add: (int, int) -> int, mul: (int, int) -> int,
                     byteA: int -> int, byteB: int -> int, widen: int -> int)

  function DriveValue(ops: Ops, d: Drive, state: Reg -> int, x: int): int {
    match d
    case ElementProduct(i) => ops.product(x, i)
    case Copy(src) => state(src)
    case AddOf(l, r) => ops.add(state(l), state(r))
    case InputA => ops.byteA(x)
    case InputB => ops.byteB(x)
    case ScaleBy(v, s) => ops.mul(state(v), ops.widen(state(s)))
  }

  /** The registers after t clock edges; edge k samples inputs(k). */
  function State(net: Net, ops: Ops, start: Reg -> int, inputs: nat -> int, t: nat): Reg -> int {
    if t == 0 then start
    else
      var before := State(net, ops, start, inputs, t - 1);
      reg => if reg in net then DriveValue(ops, net[reg], before, inputs(t - 1)) else before(reg)
  }

  /** The combinational tail: the output in a cycle. */
  function Output(ops: Ops, state: Reg -> int, scaleStages: nat): int {
    ops.mul(state(Scaled), ops.widen(state(ByteB(scaleStages))))
  }

  function Products(ops: Ops, n: nat, x: int): seq<int> { seq(n, i requires 0 <= i < n => ops.product(x, i)) }

  function Temp(ops: Ops, adds: Adds, n: nat, t: nat, x: int): int
    requires WfAdds(adds, n)
  {
    TempValue(adds, n, ops.add, Products(ops, n, x), t)
  }

  /** The unstaged block dot product. */
  function Dot(ops: Ops, adds: Adds, n: nat, last: nat, x: int): int
    requires WfAdds(adds, n)
  {
    ops.mul(ops.mul(Temp(ops, adds, n, last, x), ops.widen(ops.byteA(x))), ops.widen(ops.byteB(x)))
  }

  // ---- Timing ------------------------------------------------------------------------------------------

  /** What a register holds, and for how many edges its inputs have been travelling. */
  datatype Content = Value(t: nat) | A | B | ScaledSum

  function Holds(reg: Reg): Content {
    match reg
    case Product(i) => Value(i)
    case Carry(_, id) => Value(id)
    case Sum(_, id) => Value(id)
    case ByteA(_) => A
    case ByteB(_) => B
    case Scaled => ScaledSum
  }

  function Age(reg: Reg, depth: nat): nat {
    match reg
    case Product(_) => 1
    case Carry(d, _) => d + 1
    case Sum(level, _) => level + 1
    case ByteA(k) => k
    case ByteB(k) => k
    case Scaled => depth + 2
  }

  function ContentValue(c: Content, ops: Ops, adds: Adds, n: nat, last: nat, x: int): int
    requires WfAdds(adds, n)
  {
    match c
    case Value(t) => Temp(ops, adds, n, t, x)
    case A => ops.byteA(x)
    case B => ops.byteB(x)
    case ScaledSum => ops.mul(Temp(ops, adds, n, last, x), ops.widen(ops.byteA(x)))
  }

  /** A declared register one edge younger that holds c. */
  predicate Feeds(net: Net, src: Reg, c: Content, age: nat, depth: nat) {
    src in net && Holds(src) == c && Age(src, depth) + 1 == age
  }

  /** The register is driven by declared registers of the same input cycle that hold what it needs. */
  predicate Timed(net: Net, adds: Adds, n: nat, last: nat, depth: nat, reg: Reg)
    requires reg in net
  {
    var age := Age(reg, depth);
    match net[reg]
    case ElementProduct(i) => reg == Product(i) && i < n
    case Copy(src) => Feeds(net, src, Holds(reg), age, depth)
    case AddOf(l, r) =>
      reg.Sum? && n <= reg.id < n + |adds|
      && Feeds(net, l, Value(adds[reg.id - n].0), age, depth) && Feeds(net, r, Value(adds[reg.id - n].1), age, depth)
    case InputA => reg == ByteA(1)
    case InputB => reg == ByteB(1)
    case ScaleBy(v, s) => reg == Scaled && Feeds(net, v, Value(last), age, depth) && Feeds(net, s, A, age, depth)
  }

  ghost predicate WellTimed(net: Net, adds: Adds, n: nat, last: nat, depth: nat) {
    forall reg :: reg in net ==> Timed(net, adds, n, last, depth, reg)
  }

  lemma TimedGrows(net: Net, adds: Adds, n: nat, last: nat, depth: nat, reg: Reg, drive: Drive)
    requires WellTimed(net, adds, n, last, depth) && reg !in net && Timed(net[reg := drive], adds, n, last, depth, reg)
    ensures WellTimed(net[reg := drive], adds, n, last, depth)
  {
    var more := net[reg := drive];
    forall other | other in more ensures Timed(more, adds, n, last, depth, other) {
      if other != reg { assert Timed(net, adds, n, last, depth, other); }
    }
  }

  lemma TempOfProduct(ops: Ops, adds: Adds, n: nat, i: nat, x: int)
    requires WfAdds(adds, n) && i < n
    ensures Temp(ops, adds, n, i, x) == ops.product(x, i)
  {
  }

  lemma TempOfSum(ops: Ops, adds: Adds, n: nat, t: nat, x: int)
    requires WfAdds(adds, n) && n <= t < n + |adds|
    ensures Temp(ops, adds, n, t, x)
         == ops.add(Temp(ops, adds, n, adds[t - n].0, x), Temp(ops, adds, n, adds[t - n].1, x))
  {
  }

  lemma StateStep(net: Net, ops: Ops, start: Reg -> int, inputs: nat -> int, t: nat, reg: Reg)
    requires reg in net && t > 0
    ensures State(net, ops, start, inputs, t)(reg)
         == DriveValue(ops, net[reg], State(net, ops, start, inputs, t - 1), inputs(t - 1))
  {
  }

  /** On every run, a register holds its content for the inputs of as many cycles ago as its age. */
  lemma {:induction false} RegisterHolds(net: Net, ops: Ops, adds: Adds, n: nat, last: nat, depth: nat, start: Reg -> int,
                                         inputs: nat -> int, t: nat, reg: Reg)
    requires WfAdds(adds, n) && WellTimed(net, adds, n, last, depth) && reg in net && t >= Age(reg, depth) > 0
    ensures State(net, ops, start, inputs, t)(reg) == ContentValue(Holds(reg), ops, adds, n, last, inputs(t - Age(reg, depth)))
    decreases t, 0
  {
    hide Temp, State, WfAdds;
    assert Timed(net, adds, n, last, depth, reg);
    hide WellTimed;
    StateStep(net, ops, start, inputs, t, reg);
    match net[reg]
    case ElementProduct(i) => TempOfProduct(ops, adds, n, i, inputs(t - 1));
    case Copy(src) => FedHolds(net, ops, adds, n, last, depth, start, inputs, t, src);
    case AddOf(l, r) =>
      FedHolds(net, ops, adds, n, last, depth, start, inputs, t, l);
      FedHolds(net, ops, adds, n, last, depth, start, inputs, t, r);
      TempOfSum(ops, adds, n, reg.id, inputs(t - Age(reg, depth)));
    case ScaleBy(v, s) =>
      FedHolds(net, ops, adds, n, last, depth, start, inputs, t, v);
      FedHolds(net, ops, adds, n, last, depth, start, inputs, t, s);
    case InputA =>
    case InputB =>
  }

  lemma {:induction false} FedHolds(net: Net, ops: Ops, adds: Adds, n: nat, last: nat, depth: nat, start: Reg -> int,
                                    inputs: nat -> int, t: nat, src: Reg)
    requires WfAdds(adds, n) && WellTimed(net, adds, n, last, depth) && src in net && t >= Age(src, depth) + 1
    ensures State(net, ops, start, inputs, t - 1)(src)
         == ContentValue(Holds(src), ops, adds, n, last, inputs(t - 1 - Age(src, depth)))
    decreases t - 1, 1
  {
    PositiveAge(net, adds, n, last, depth, src);
    RegisterHolds(net, ops, adds, n, last, depth, start, inputs, t - 1, src);
  }

  lemma PositiveAge(net: Net, adds: Adds, n: nat, last: nat, depth: nat, reg: Reg)
    requires WellTimed(net, adds, n, last, depth) && reg in net
    ensures Age(reg, depth) > 0
  {
    assert Timed(net, adds, n, last, depth, reg);
  }

  /** The staged module computes the unstaged dot product of the inputs scaleStages cycles ago, in every cycle from
      scaleStages on, whatever the registers held at first. */
  lemma StagedDotIsDot(net: Net, ops: Ops, adds: Adds, n: nat, last: nat, depth: nat, start: Reg -> int,
                       inputs: nat -> int, t: nat)
    requires WfAdds(adds, n) && WellTimed(net, adds, n, last, depth)
    requires Scaled in net && ByteB(depth + 2) in net && t >= depth + 2
    ensures Output(ops, State(net, ops, start, inputs, t), depth + 2) == Dot(ops, adds, n, last, inputs(t - (depth + 2)))
  {
    hide State, Temp, WfAdds, WellTimed;
    RegisterHolds(net, ops, adds, n, last, depth, start, inputs, t, Scaled);
    RegisterHolds(net, ops, adds, n, last, depth, start, inputs, t, ByteB(depth + 2));
  }

  /** The unstaged result for any operations: the products summed in the balanced order, times the first scale, times the
      second. */
  lemma DotIs(ops: Ops, adds: Adds, n: nat, last: nat, x: int)
    requires WfAdds(adds, n) && 0 < n && last < n + |adds| && TreeOf(adds, n, last) == Balanced(LeafTrees(n))
    ensures Dot(ops, adds, n, last, x)
         == ops.mul(ops.mul(PairSum(ops.add, Products(ops, n, x)), ops.widen(ops.byteA(x))), ops.widen(ops.byteB(x)))
  {
    hide TreeOf, PairSum;
    ScheduleIsPairSum(adds, n, ops.add, Products(ops, n, x), last);
  }

  function Sum(vs: seq<int>): int { if vs == [] then 0 else Sum(vs[..|vs| - 1]) + vs[|vs| - 1] }

  /** With exact addition and multiplication it is the product of the scales and the sum of the products. */
  lemma ExactDot(ops: Ops, adds: Adds, n: nat, last: nat, x: int)
    requires WfAdds(adds, n) && 0 < n && last < n + |adds| && Leaves(adds, n, last) == Count(n)
    requires (forall a, b :: ops.add(a, b) == a + b) && forall a, b :: ops.mul(a, b) == a * b
    ensures Dot(ops, adds, n, last, x)
         == ops.widen(ops.byteA(x)) * ops.widen(ops.byteB(x)) * Sum(seq(n, i requires 0 <= i < n => ops.product(x, i)))
  {
    hide Leaves, TempValue, RunningSum;
    PairwiseIsRunningSum(adds, n, ops.add, Products(ops, n, x), last);
    RunningIsSum(ops.add, Products(ops, n, x));
    Commuted(Temp(ops, adds, n, last, x), ops.widen(ops.byteA(x)), ops.widen(ops.byteB(x)));
    assert Products(ops, n, x) == seq(n, i requires 0 <= i < n => ops.product(x, i));
  }

  lemma Commuted(s: int, a: int, b: int)
    ensures (s * a) * b == a * b * s
  {
  }

  lemma {:induction false} RunningIsSum(add: (int, int) -> int, vs: seq<int>)
    requires vs != [] && forall a, b :: add(a, b) == a + b
    ensures RunningSum(add, vs) == Sum(vs)
    decreases |vs|
  {
    if |vs| > 1 {
      RunningIsSum(add, vs[..|vs| - 1]);
    } else {
      assert vs[..0] == [];
      assert Sum(vs[..0]) == 0;
    }
  }
}
