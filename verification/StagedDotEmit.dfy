/** Emission of the staged block dot product of src/fp_block.rs: it declares every register once, and times all of
    them, so the clocked module is the delayed unstaged one. */
module StagedDotEmit {
  import opened BitVec
  import opened DotSchedule
  import opened StagedDot

  // ---- Readers of a temporary --------------------------------------------------------------------------

  /** Addition s reads temporary t. */
  predicate IsReader(adds: Adds, n: nat, s: nat, t: nat) {
    n <= s < n + |adds| && (adds[s - n].0 == t || adds[s - n].1 == t)
  }

  lemma ConsumedLast(adds: Adds, t: nat)
    requires adds != []
    ensures var k := |adds| - 1;
            Consumed(adds)[t] == Consumed(adds[..k])[t] + (if adds[k].0 == t then 1 else 0) + (if adds[k].1 == t then 1 else 0)
  {
    var k := |adds| - 1;
    assert Consumed(adds) == Consumed(adds[..k]) + multiset{adds[k].0, adds[k].1};
    assert multiset{adds[k].0, adds[k].1}[t] == (if adds[k].0 == t then 1 else 0) + (if adds[k].1 == t then 1 else 0);
  }

  lemma {:induction false} ReadersCount(adds: Adds, n: nat, s: nat, t: nat)
    requires IsReader(adds, n, s, t)
    ensures Consumed(adds)[t] >= 1
    decreases |adds|
  {
    hide Consumed;
    var earlier := adds[..|adds| - 1];
    ConsumedLast(adds, t);
    if s - n < |earlier| {
      assert IsReader(earlier, n, s, t);
      ReadersCount(earlier, n, s, t);
    }
  }

  lemma {:induction false} TwoReadersCount(adds: Adds, n: nat, s1: nat, s2: nat, t: nat)
    requires IsReader(adds, n, s1, t) && IsReader(adds, n, s2, t) && s1 < s2
    ensures Consumed(adds)[t] >= 2
    decreases |adds|
  {
    hide Consumed;
    var earlier := adds[..|adds| - 1];
    ConsumedLast(adds, t);
    assert IsReader(earlier, n, s1, t);
    if s2 - n < |earlier| {
      assert IsReader(earlier, n, s2, t);
      TwoReadersCount(earlier, n, s1, s2, t);
    } else {
      ReadersCount(earlier, n, s1, t);
    }
  }

  /** The pairwise schedule with its levels. */
  ghost predicate Scheduled(adds: Adds, n: nat, last: nat, levels: seq<seq<LevelAdd>>) {
    && WfAdds(adds, n) && last < n + |adds|
    && (forall t: nat :: Consumed(adds)[t] == if t < n + |adds| && t != last then 1 else 0)
    && Leveled(adds, n, levels, |adds|) && Level(adds, n, last) == |levels|
  }

  predicate Operand(level: seq<LevelAdd>, v: nat) {
    exists i :: 0 <= i < |level| && (level[i].l == v || level[i].r == v)
  }

  // ---- The state of the emitter ------------------------------------------------------------------------

  /** Temporary t is read by an addition of a level before lvl. */
  ghost predicate ReadBelow(adds: Adds, n: nat, t: nat, lvl: nat)
    requires WfAdds(adds, n)
  {
    exists s: nat :: IsReader(adds, n, s, t) && Level(adds, n, s) < lvl
  }

  /** Where a temporary produced below level lvl is to be found: in its own register, unless it was carried on. */
  ghost predicate Available(net: Net, regOf: map<nat, Reg>, prodLevel: map<nat, nat>, carried: set<nat>,
                            adds: Adds, n: nat, depth: nat, lvl: nat)
    requires WfAdds(adds, n)
  {
    (forall t: nat :: t in regOf <==> t < n + |adds| && Level(adds, n, t) < lvl)
    && prodLevel.Keys == regOf.Keys
    && forall t: nat :: t in regOf ==>
                          prodLevel[t] == Level(adds, n, t) && regOf[t] in net && Holds(regOf[t]) == Value(t)
                          && (t !in carried ==> Age(regOf[t], depth) == prodLevel[t] + 1)
  }

  /** What has been declared so far. */
  predicate Declared(reg: Reg, carried: set<nat>, lvl: nat) {
    match reg
    case Sum(l, _) => l < lvl
    case Carry(_, id) => id in carried
    case Scaled => false
    case _ => true
  }

  ghost predicate OnlyDeclared(net: Net, carried: set<nat>, lvl: nat) {
    forall reg :: reg in net ==> Declared(reg, carried, lvl)
  }

  ghost predicate EmitInv(net: Net, regOf: map<nat, Reg>, prodLevel: map<nat, nat>, carried: set<nat>,
                          adds: Adds, n: nat, last: nat, depth: nat, lvl: nat)
    requires WfAdds(adds, n)
  {
    && WellTimed(net, adds, n, last, depth) && Available(net, regOf, prodLevel, carried, adds, n, depth, lvl)
    && OnlyDeclared(net, carried, lvl)
    && forall t: nat :: t in carried ==> ReadBelow(adds, n, t, lvl)
  }

  /** The declarations in the order they are emitted: one for each register of the netlist, and no second one. */
  ghost predicate DeclaredOnce(decls: seq<Reg>, net: Net) {
    (forall i, j :: 0 <= i < j < |decls| ==> decls[i] != decls[j]) && forall reg :: reg in decls <==> reg in net
  }

  lemma DeclareNext(decls: seq<Reg>, net: Net, reg: Reg, drive: Drive)
    requires DeclaredOnce(decls, net) && reg !in net
    ensures DeclaredOnce(decls + [reg], net[reg := drive])
  {
    var more := decls + [reg];
    forall r ensures r in more <==> r in net[reg := drive] {
      assert r in more <==> r in decls || r == reg;
    }
  }

  lemma OperandFacts(adds: Adds, n: nat, last: nat, levels: seq<seq<LevelAdd>>, lvl: nat, v: nat)
    requires Scheduled(adds, n, last, levels) && 1 <= lvl <= |levels| && Operand(levels[lvl - 1], v)
    ensures v < n + |adds| && Level(adds, n, v) < lvl && ReadBelow(adds, n, v, lvl + 1) && !ReadBelow(adds, n, v, lvl)
  {
    hide Consumed;
    var level := levels[lvl - 1];
    assert ListsLevel(adds, n, level, lvl - 1 + 1, |adds|);
    var i :| 0 <= i < |level| && (level[i].l == v || level[i].r == v);
    var s := level[i].dst;
    assert IsReader(adds, n, s, v) && Level(adds, n, s) == lvl;
    forall r: nat | IsReader(adds, n, r, v) ensures r == s {
      if r < s { TwoReadersCount(adds, n, r, s, v); } else if s < r { TwoReadersCount(adds, n, s, r, v); }
    }
  }

  lemma ReadBelowGrows(adds: Adds, n: nat, t: nat, lvl: nat)
    requires WfAdds(adds, n) && ReadBelow(adds, n, t, lvl)
    ensures ReadBelow(adds, n, t, lvl + 1)
  {
  }

  // ---- Delay balancing ---------------------------------------------------------------------------------

  /** The operands of a level that were produced before the level just below it. */
  method ToDelay(level: seq<LevelAdd>, prodLevel: map<nat, nat>, lvl: nat) returns (ids: seq<nat>)
    ensures forall v :: v in ids <==> Operand(level, v) && v in prodLevel && lvl > prodLevel[v] + 1
    ensures forall i, j :: 0 <= i < j < |ids| ==> ids[i] != ids[j]
  {
    ids := [];
    for i := 0 to |level|
      invariant forall v :: v in ids <==> Operand(level[..i], v) && v in prodLevel && lvl > prodLevel[v] + 1
      invariant forall a, b :: 0 <= a < b < |ids| ==> ids[a] != ids[b]
    {
      assert level[..i + 1] == level[..i] + [level[i]];
      OperandNext(level, i, i + 1);
      ids := DelayOne(ids, level[i].l, prodLevel, lvl);
      ids := DelayOne(ids, level[i].r, prodLevel, lvl);
    }
    assert level[..|level|] == level;
  }

  method DelayOne(ids0: seq<nat>, v: nat, prodLevel: map<nat, nat>, lvl: nat) returns (ids: seq<nat>)
    requires forall a, b :: 0 <= a < b < |ids0| ==> ids0[a] != ids0[b]
    ensures forall u :: u in ids <==> u in ids0 || (u == v && v in prodLevel && lvl > prodLevel[v] + 1)
    ensures forall a, b :: 0 <= a < b < |ids| ==> ids[a] != ids[b]
  {
    ids := ids0;
    if v in prodLevel && lvl > prodLevel[v] + 1 && v !in ids {
      ids := ids + [v];
    }
  }

  lemma OperandNext(level: seq<LevelAdd>, i: nat, next: nat)
    requires i < |level| && next == i + 1
    ensures forall v :: Operand(level[..next], v) <==> Operand(level[..i], v) || v == level[i].l || v == level[i].r
  {
    forall v | Operand(level[..i], v) || v == level[i].l || v == level[i].r ensures Operand(level[..next], v) {
      if Operand(level[..i], v) {
        var k :| 0 <= k < i && (level[..i][k].l == v || level[..i][k].r == v);
        assert level[..next][k] == level[k];
      } else {
        assert level[..next][i] == level[i];
      }
    }
    forall v | Operand(level[..next], v) && v != level[i].l && v != level[i].r ensures Operand(level[..i], v) {
      var k :| 0 <= k < next && (level[..next][k].l == v || level[..next][k].r == v);
      assert level[..i][k] == level[k];
    }
  }

  /** The chain of registers that carries a temporary from level j to level lvl. */
  method CarryOn(net0: Net, decls0: seq<Reg>, from: Reg, vid: nat, j: nat, lvl: nat, ghost adds: Adds, ghost n: nat, ghost last: nat,
                 ghost depth: nat)
    returns (net: Net, decls: seq<Reg>, cur: Reg)
    requires DeclaredOnce(decls0, net0)
    requires WellTimed(net0, adds, n, last, depth) && from in net0 && Holds(from) == Value(vid) && Age(from, depth) == j + 1
    requires j + 1 < lvl && forall d :: Carry(d, vid) !in net0
    ensures DeclaredOnce(decls, net)
    ensures WellTimed(net, adds, n, last, depth) && cur in net && Holds(cur) == Value(vid) && Age(cur, depth) == lvl
    ensures forall reg :: reg in net0 ==> reg in net && net[reg] == net0[reg]
    ensures forall reg :: reg in net ==> reg in net0 || (reg.Carry? && reg.id == vid)
  {
    hide WellTimed, DeclaredOnce;
    net, decls, cur := net0, decls0, from;
    for d := j + 1 to lvl
      invariant DeclaredOnce(decls, net)
      invariant WellTimed(net, adds, n, last, depth) && cur in net && Holds(cur) == Value(vid) && Age(cur, depth) == d
      invariant forall reg :: reg in net0 ==> reg in net && net[reg] == net0[reg]
      invariant forall reg :: reg in net ==> reg in net0 || (reg.Carry? && reg.id == vid && reg.d < d)
    {
      TimedGrows(net, adds, n, last, depth, Carry(d, vid), Copy(cur));
      DeclareNext(decls, net, Carry(d, vid), Copy(cur));
      net := net[Carry(d, vid) := Copy(cur)];
      decls := decls + [Carry(d, vid)];
      cur := Carry(d, vid);
    }
  }

  method DelayCarried(net0: Net, decls0: seq<Reg>, regOf0: map<nat, Reg>, prodLevel: map<nat, nat>, carried0: set<nat>, ids: seq<nat>,
                      lvl: nat,
                      ghost adds: Adds, ghost n: nat, ghost last: nat, ghost depth: nat)
    returns (net: Net, decls: seq<Reg>, regOf: map<nat, Reg>, carried: set<nat>)
    requires DeclaredOnce(decls0, net0)
    requires WfAdds(adds, n) && EmitInv(net0, regOf0, prodLevel, carried0, adds, n, last, depth, lvl)
    requires forall i, j :: 0 <= i < j < |ids| ==> ids[i] != ids[j]
    requires forall v :: v in ids ==> v in regOf0 && v !in carried0 && prodLevel[v] + 1 < lvl
    ensures DeclaredOnce(decls, net)
    ensures WellTimed(net, adds, n, last, depth) && OnlyDeclared(net, carried, lvl)
    ensures Available(net, regOf, prodLevel, carried, adds, n, depth, lvl)
    ensures carried == carried0 + set v | v in ids
    ensures net0.Keys <= net.Keys && forall v :: v in ids ==> Age(regOf[v], depth) == lvl
  {
    hide WellTimed, Level, ReadBelow, Available, OnlyDeclared, DeclaredOnce;
    net, decls, regOf, carried := net0, decls0, regOf0, carried0;
    assert regOf.Keys == prodLevel.Keys by { AvailableKeys(net, regOf, prodLevel, carried, adds, n, depth, lvl); }
    for i := 0 to |ids|
      invariant DeclaredOnce(decls, net)
      invariant WellTimed(net, adds, n, last, depth) && OnlyDeclared(net, carried, lvl) && net0.Keys <= net.Keys
      invariant Available(net, regOf, prodLevel, carried, adds, n, depth, lvl)
      invariant carried == carried0 + (set v | v in ids[..i]) && regOf.Keys == prodLevel.Keys
      invariant forall v :: v in ids[..i] ==> Age(regOf[v], depth) == lvl
    {
      var v := ids[i];
      assert ids[..i + 1] == ids[..i] + [v];
      assert v !in carried;
      NotCarried(net, carried, v, lvl);
      AvailableAt(net, regOf, prodLevel, carried, adds, n, depth, lvl, v);
      var cur;
      ghost var before := net;
      net, decls, cur := CarryOn(net, decls, regOf[v], v, prodLevel[v], lvl, adds, n, last, depth);
      DeclaredMore(before, net, carried, v, lvl);
      AvailableMoves(before, net, regOf, prodLevel, carried, adds, n, depth, lvl, v, cur);
      regOf := regOf[v := cur];
      carried := carried + {v};
    }
    assert ids[..|ids|] == ids;
  }

  lemma AvailableKeys(net: Net, regOf: map<nat, Reg>, prodLevel: map<nat, nat>, carried: set<nat>, adds: Adds, n: nat,
                      depth: nat, lvl: nat)
    requires WfAdds(adds, n) && Available(net, regOf, prodLevel, carried, adds, n, depth, lvl)
    ensures regOf.Keys == prodLevel.Keys && forall t: nat :: t in regOf <==> t < n + |adds| && Level(adds, n, t) < lvl
  {
  }

  lemma AvailableAt(net: Net, regOf: map<nat, Reg>, prodLevel: map<nat, nat>, carried: set<nat>, adds: Adds, n: nat,
                    depth: nat, lvl: nat, t: nat)
    requires WfAdds(adds, n) && Available(net, regOf, prodLevel, carried, adds, n, depth, lvl) && t in regOf
    ensures t in prodLevel && prodLevel[t] == Level(adds, n, t) && regOf[t] in net && Holds(regOf[t]) == Value(t)
    ensures t !in carried ==> Age(regOf[t], depth) == prodLevel[t] + 1
  {
  }

  lemma AvailableMoves(before: Net, net: Net, regOf: map<nat, Reg>, prodLevel: map<nat, nat>, carried: set<nat>, adds: Adds,
                       n: nat, depth: nat, lvl: nat, v: nat, cur: Reg)
    requires WfAdds(adds, n) && Available(before, regOf, prodLevel, carried, adds, n, depth, lvl) && v in regOf
    requires cur in net && Holds(cur) == Value(v) && forall reg :: reg in before ==> reg in net
    ensures Available(net, regOf[v := cur], prodLevel, carried + {v}, adds, n, depth, lvl)
  {
    hide Level;
  }

  lemma NotCarried(net: Net, carried: set<nat>, v: nat, lvl: nat)
    requires OnlyDeclared(net, carried, lvl) && v !in carried
    ensures forall d :: Carry(d, v) !in net
  {
    forall d ensures Carry(d, v) !in net {
      assert !Declared(Carry(d, v), carried, lvl);
    }
  }

  lemma DeclaredMore(before: Net, net: Net, carried: set<nat>, v: nat, lvl: nat)
    requires OnlyDeclared(before, carried, lvl) && v !in carried
    requires forall reg :: reg in net ==> reg in before || (reg.Carry? && reg.id == v)
    ensures OnlyDeclared(net, carried + {v}, lvl)
  {
    forall reg | reg in net ensures Declared(reg, carried + {v}, lvl) {
      if reg in before { assert Declared(reg, carried, lvl); }
    }
  }

  // ---- One level ---------------------------------------------------------------------------------------

  /** The adders of a level, each between the registers its operands are now in. */
  method Adders(level: seq<LevelAdd>, regOf: map<nat, Reg>) returns (comb: seq<Drive>)
    requires forall v :: Operand(level, v) ==> v in regOf
    ensures |comb| == |level|
    ensures forall i :: 0 <= i < |level| ==>
                          level[i].l in regOf && level[i].r in regOf && comb[i] == AddOf(regOf[level[i].l], regOf[level[i].r])
  {
    comb := [];
    for i := 0 to |level|
      invariant |comb| == i
      invariant forall k :: 0 <= k < i ==> level[k].l in regOf && level[k].r in regOf
                                           && comb[k] == AddOf(regOf[level[k].l], regOf[level[k].r])
    {
      assert Operand(level, level[i].l) && Operand(level, level[i].r);
      comb := comb + [AddOf(regOf[level[i].l], regOf[level[i].r])];
    }
  }

  /** The registers a level's sums go to, driven by its adders. */
  method DeclareSums(net0: Net, decls0: seq<Reg>, regOf0: map<nat, Reg>, prodLevel0: map<nat, nat>, level: seq<LevelAdd>,
                     comb: seq<Drive>, lvl: nat,
                     ghost carried: set<nat>, ghost adds: Adds, ghost n: nat, ghost last: nat, ghost depth: nat)
    returns (net: Net, decls: seq<Reg>, regOf: map<nat, Reg>, prodLevel: map<nat, nat>)
    requires DeclaredOnce(decls0, net0)
    requires WfAdds(adds, n) && WellTimed(net0, adds, n, last, depth) && OnlyDeclared(net0, carried, lvl)
    requires Available(net0, regOf0, prodLevel0, carried, adds, n, depth, lvl) && ListsLevel(adds, n, level, lvl, |adds|)
    requires |comb| == |level| && forall i :: 0 <= i < |level| ==> Ready(net0, level[i], comb[i], lvl, depth)
    requires lvl > 0 && forall i :: 0 <= i < |level| ==> level[i].dst !in carried
    ensures DeclaredOnce(decls, net)
    ensures WellTimed(net, adds, n, last, depth) && OnlyDeclared(net, carried, lvl + 1)
    ensures Available(net, regOf, prodLevel, carried, adds, n, depth, lvl + 1) && net0.Keys <= net.Keys
  {
    hide WellTimed, Level, Available, OnlyDeclared, Ready, ListsLevel, DeclaredOnce;
    net, decls, regOf, prodLevel := net0, decls0, regOf0, prodLevel0;
    FirstSum(net0, carried, lvl, level, adds, n);
    PlacedNone(net, regOf, prodLevel, carried, adds, n, depth, lvl, level);
    for i := 0 to |level|
      invariant DeclaredOnce(decls, net)
      invariant WellTimed(net, adds, n, last, depth) && OnlyDeclared(net, carried, lvl + 1)
      invariant forall reg :: reg in net0 ==> reg in net
      invariant forall k :: i <= k < |level| ==> Sum(lvl, level[k].dst) !in net
      invariant Placed(net, regOf, prodLevel, carried, adds, n, depth, lvl, level, i)
    {
      var dst := level[i].dst;
      SumTimed(net0, net, adds, n, last, depth, level, i, comb[i], lvl);
      TimedGrows(net, adds, n, last, depth, Sum(lvl, dst), comb[i]);
      SumDeclared(net, carried, lvl, dst, comb[i]);
      DistinctSums(adds, n, level, lvl, i);
      PlacedNext(net, regOf, prodLevel, carried, adds, n, depth, lvl, level, i, comb[i]);
      DeclareNext(decls, net, Sum(lvl, dst), comb[i]);
      net := net[Sum(lvl, dst) := comb[i]];
      decls := decls + [Sum(lvl, dst)];
      regOf := regOf[dst := Sum(lvl, dst)];
      prodLevel := prodLevel[dst := lvl];
    }
    PlacedAll(net, regOf, prodLevel, carried, adds, n, depth, lvl, level);
  }

  /** An adder between registers that hold the operands and are as old as the level. */
  predicate Ready(net: Net, add: LevelAdd, drive: Drive, lvl: nat, depth: nat) {
    drive.AddOf? && drive.l in net && drive.r in net && Holds(drive.l) == Value(add.l) && Holds(drive.r) == Value(add.r)
    && Age(drive.l, depth) == lvl && Age(drive.r, depth) == lvl
  }

  lemma FirstSum(net: Net, carried: set<nat>, lvl: nat, level: seq<LevelAdd>, adds: Adds, n: nat)
    requires OnlyDeclared(net, carried, lvl)
    ensures OnlyDeclared(net, carried, lvl + 1)
    ensures forall k :: 0 <= k < |level| ==> Sum(lvl, level[k].dst) !in net
  {
    forall reg | reg in net ensures Declared(reg, carried, lvl + 1) {
      assert Declared(reg, carried, lvl);
    }
    forall k | 0 <= k < |level| ensures Sum(lvl, level[k].dst) !in net {
      assert !Declared(Sum(lvl, level[k].dst), carried, lvl);
    }
  }

  lemma SumTimed(net0: Net, net: Net, adds: Adds, n: nat, last: nat, depth: nat, level: seq<LevelAdd>, i: nat,
                 drive: Drive, lvl: nat)
    requires WfAdds(adds, n) && ListsLevel(adds, n, level, lvl, |adds|) && i < |level|
    requires Ready(net0, level[i], drive, lvl, depth) && forall reg :: reg in net0 ==> reg in net
    ensures var reg := Sum(lvl, level[i].dst); Timed(net[reg := drive], adds, n, last, depth, reg)
  {
  }

  lemma SumDeclared(net: Net, carried: set<nat>, lvl: nat, dst: nat, drive: Drive)
    requires OnlyDeclared(net, carried, lvl + 1)
    ensures OnlyDeclared(net[Sum(lvl, dst) := drive], carried, lvl + 1)
  {
    var more := net[Sum(lvl, dst) := drive];
    forall reg | reg in more ensures Declared(reg, carried, lvl + 1) {
      if reg in net { assert Declared(reg, carried, lvl + 1); }
    }
  }

  lemma DistinctSums(adds: Adds, n: nat, level: seq<LevelAdd>, lvl: nat, i: nat)
    requires WfAdds(adds, n) && ListsLevel(adds, n, level, lvl, |adds|) && i < |level|
    ensures forall k :: i < k < |level| ==> Sum(lvl, level[k].dst) != Sum(lvl, level[i].dst)
  {
  }

  predicate AmongFirst(level: seq<LevelAdd>, i: nat, t: nat) {
    exists k :: 0 <= k < i && k < |level| && level[k].dst == t
  }

  /** During a level: everything below it, and its first i sums, are in registers. */
  ghost predicate Placed(net: Net, regOf: map<nat, Reg>, prodLevel: map<nat, nat>, carried: set<nat>, adds: Adds, n: nat,
                         depth: nat, lvl: nat, level: seq<LevelAdd>, i: nat)
    requires WfAdds(adds, n)
  {
    (forall t: nat :: t in regOf <==> t < n + |adds| && (Level(adds, n, t) < lvl || AmongFirst(level, i, t)))
    && prodLevel.Keys == regOf.Keys
    && forall t: nat :: t in regOf ==>
                          prodLevel[t] == Level(adds, n, t) && regOf[t] in net && Holds(regOf[t]) == Value(t)
                          && (t !in carried ==> Age(regOf[t], depth) == prodLevel[t] + 1)
  }

  lemma PlacedNone(net: Net, regOf: map<nat, Reg>, prodLevel: map<nat, nat>, carried: set<nat>, adds: Adds, n: nat,
                   depth: nat, lvl: nat, level: seq<LevelAdd>)
    requires WfAdds(adds, n) && Available(net, regOf, prodLevel, carried, adds, n, depth, lvl)
    ensures Placed(net, regOf, prodLevel, carried, adds, n, depth, lvl, level, 0)
  {
    hide Level;
  }

  lemma PlacedNext(net: Net, regOf: map<nat, Reg>, prodLevel: map<nat, nat>, carried: set<nat>, adds: Adds, n: nat,
                   depth: nat, lvl: nat, level: seq<LevelAdd>, i: nat, drive: Drive)
    requires WfAdds(adds, n) && ListsLevel(adds, n, level, lvl, |adds|) && i < |level| && level[i].dst !in carried
    requires Placed(net, regOf, prodLevel, carried, adds, n, depth, lvl, level, i)
    ensures var dst := level[i].dst;
            Placed(net[Sum(lvl, dst) := drive], regOf[dst := Sum(lvl, dst)], prodLevel[dst := lvl], carried, adds, n, depth, lvl,
                   level, i + 1)
  {
    hide Level;
    AmongNext(level, i, i + 1);
  }

  lemma AmongNext(level: seq<LevelAdd>, i: nat, next: nat)
    requires i < |level| && next == i + 1
    ensures forall t :: AmongFirst(level, next, t) <==> AmongFirst(level, i, t) || t == level[i].dst
  {
  }

  lemma PlacedAll(net: Net, regOf: map<nat, Reg>, prodLevel: map<nat, nat>, carried: set<nat>, adds: Adds, n: nat,
                  depth: nat, lvl: nat, level: seq<LevelAdd>)
    requires WfAdds(adds, n) && ListsLevel(adds, n, level, lvl, |adds|)
    requires Placed(net, regOf, prodLevel, carried, adds, n, depth, lvl, level, |level|) && lvl > 0
    ensures Available(net, regOf, prodLevel, carried, adds, n, depth, lvl + 1)
  {
    hide AddAt;
    forall t: nat | t < n + |adds| ensures AmongFirst(level, |level|, t) <==> Level(adds, n, t) == lvl {
      if Level(adds, n, t) == lvl {
        assert AddAt(adds, n, t) in level;
        AddAtDst(adds, n, t);
      }
    }
  }

  // ---- The whole module --------------------------------------------------------------------------------

  /** One level: delay balancing, adders, registers. */
  method EmitLevel(net0: Net, decls0: seq<Reg>, regOf0: map<nat, Reg>, prodLevel0: map<nat, nat>, carried0: set<nat>,
                   level: seq<LevelAdd>, lvl: nat,
                   ghost adds: Adds, ghost n: nat, ghost last: nat, ghost levels: seq<seq<LevelAdd>>)
    returns (net: Net, decls: seq<Reg>, regOf: map<nat, Reg>, prodLevel: map<nat, nat>, carried: set<nat>)
    requires DeclaredOnce(decls0, net0)
    requires Scheduled(adds, n, last, levels) && 1 <= lvl <= |levels| && level == levels[lvl - 1]
    requires EmitInv(net0, regOf0, prodLevel0, carried0, adds, n, last, |levels|, lvl)
    ensures DeclaredOnce(decls, net)
    ensures EmitInv(net, regOf, prodLevel, carried, adds, n, last, |levels|, lvl + 1) && net0.Keys <= net.Keys
  {
    hide WellTimed, Level, Available, OnlyDeclared, ReadBelow, Leveled, Consumed, ListsLevel, Operand, WfAdds, DeclaredOnce;
    ghost var depth := |levels|;
    assert WfAdds(adds, n) && ListsLevel(adds, n, level, lvl, |adds|) by { LevelListed(adds, n, last, levels, lvl); }
    AvailableKeys(net0, regOf0, prodLevel0, carried0, adds, n, depth, lvl);
    OperandsFound(regOf0, adds, n, last, levels, lvl, carried0);
    var ids := ToDelay(level, prodLevel0, lvl);
    net, decls, regOf, carried := DelayCarried(net0, decls0, regOf0, prodLevel0, carried0, ids, lvl, adds, n, last, depth);
    AvailableKeys(net, regOf, prodLevel0, carried, adds, n, depth, lvl);
    OperandsFound(regOf, adds, n, last, levels, lvl, carried0);
    var comb := Adders(level, regOf);
    forall i | 0 <= i < |level| ensures Ready(net, level[i], comb[i], lvl, depth) {
      OperandOf(level, i);
      OperandAge(net, regOf, prodLevel0, carried0, carried, ids, adds, n, last, levels, lvl, level[i].l);
      OperandAge(net, regOf, prodLevel0, carried0, carried, ids, adds, n, last, levels, lvl, level[i].r);
    }
    forall t: nat | t in carried ensures ReadBelow(adds, n, t, lvl + 1) {
      if t in carried0 { ReadBelowGrows(adds, n, t, lvl); } else { OperandFacts(adds, n, last, levels, lvl, t); }
    }
    ProducedLater(level, adds, n, last, levels, lvl, carried0, carried, ids);
    net, decls, regOf, prodLevel := DeclareSums(net, decls, regOf, prodLevel0, level, comb, lvl, carried, adds, n, last, depth);
  }

  lemma LevelListed(adds: Adds, n: nat, last: nat, levels: seq<seq<LevelAdd>>, lvl: nat)
    requires Scheduled(adds, n, last, levels) && 1 <= lvl <= |levels|
    ensures WfAdds(adds, n) && ListsLevel(adds, n, levels[lvl - 1], lvl, |adds|)
  {
    hide Consumed, Level;
    assert ListsLevel(adds, n, levels[lvl - 1], lvl - 1 + 1, |adds|);
  }

  lemma OperandOf(level: seq<LevelAdd>, i: nat)
    requires i < |level|
    ensures Operand(level, level[i].l) && Operand(level, level[i].r)
  {
  }

  /** A level's operands are in registers, and none of them has been carried before. */
  lemma OperandsFound(regOf: map<nat, Reg>, adds: Adds, n: nat, last: nat, levels: seq<seq<LevelAdd>>, lvl: nat,
                      carried: set<nat>)
    requires Scheduled(adds, n, last, levels) && 1 <= lvl <= |levels|
    requires forall t: nat :: t in regOf <==> t < n + |adds| && Level(adds, n, t) < lvl
    requires forall t: nat :: t in carried ==> ReadBelow(adds, n, t, lvl)
    ensures forall v :: Operand(levels[lvl - 1], v) ==> v in regOf && v !in carried
  {
    hide Consumed, Level, ReadBelow, Leveled;
    forall v | Operand(levels[lvl - 1], v) ensures v in regOf && v !in carried {
      OperandFacts(adds, n, last, levels, lvl, v);
    }
  }

  lemma OperandAge(net: Net, regOf: map<nat, Reg>, prodLevel: map<nat, nat>, carried0: set<nat>, carried: set<nat>,
                   ids: seq<nat>,
                   adds: Adds, n: nat, last: nat, levels: seq<seq<LevelAdd>>, lvl: nat, v: nat)
    requires Scheduled(adds, n, last, levels) && 1 <= lvl <= |levels| && Operand(levels[lvl - 1], v)
    requires Available(net, regOf, prodLevel, carried, adds, n, |levels|, lvl) && v in regOf && v !in carried0
    requires forall u :: u in ids <==> Operand(levels[lvl - 1], u) && u in prodLevel && lvl > prodLevel[u] + 1
    requires carried == carried0 + (set u | u in ids) && forall u :: u in ids ==> u in regOf && Age(regOf[u], |levels|) == lvl
    ensures regOf[v] in net && Holds(regOf[v]) == Value(v) && Age(regOf[v], |levels|) == lvl
  {
    hide Consumed, Level, Available, Leveled, Operand;
    AvailableAt(net, regOf, prodLevel, carried, adds, n, |levels|, lvl, v);
    OperandFacts(adds, n, last, levels, lvl, v);
  }

  /** The temporaries a level produces have not been carried. */
  lemma ProducedLater(level: seq<LevelAdd>, adds: Adds, n: nat, last: nat, levels: seq<seq<LevelAdd>>, lvl: nat,
                      carried0: set<nat>, carried: set<nat>, ids: seq<nat>)
    requires Scheduled(adds, n, last, levels) && 1 <= lvl <= |levels| && level == levels[lvl - 1]
    requires carried == carried0 + (set u | u in ids) && forall u :: u in ids ==> Operand(level, u)
    requires forall t: nat :: t in carried0 ==> ReadBelow(adds, n, t, lvl)
    ensures forall i :: 0 <= i < |level| ==> level[i].dst !in carried
  {
    hide Consumed, Leveled, Operand, ReadBelow;
    LevelListed(adds, n, last, levels, lvl);
    forall i | 0 <= i < |level| ensures level[i].dst !in carried {
      var t := level[i].dst;
      if t in ids { OperandFacts(adds, n, last, levels, lvl, t); }
      if t in carried0 { ReadIsDeeper(adds, n, t, lvl); }
    }
  }

  lemma ReadIsDeeper(adds: Adds, n: nat, t: nat, lvl: nat)
    requires WfAdds(adds, n) && ReadBelow(adds, n, t, lvl)
    ensures Level(adds, n, t) < lvl
  {
    var s: nat :| IsReader(adds, n, s, t) && Level(adds, n, s) < lvl;
    LevelOf(adds, n, s - n);
  }

  /** The product stage and the two chains that carry the scale bytes along. */
  method EmitInputs(n: nat, scaleStages: nat, ghost adds: Adds, ghost last: nat, ghost depth: nat)
    returns (net: Net, decls: seq<Reg>, regOf: map<nat, Reg>, prodLevel: map<nat, nat>)
    requires WfAdds(adds, n) && scaleStages >= 1
    ensures DeclaredOnce(decls, net)
    ensures EmitInv(net, regOf, prodLevel, {}, adds, n, last, depth, 1)
    ensures forall k :: 1 <= k <= scaleStages ==> ByteA(k) in net && ByteB(k) in net
  {
    hide WellTimed, WfAdds, DeclaredOnce;
    net, decls, regOf, prodLevel := map[], [], map[], map[];
    assert DeclaredOnce(decls, net) by { NothingDeclared(); }
    assert WellTimed(net, adds, n, last, depth) by { EmptyTimed(adds, n, last, depth); }
    for i := 0 to n
      invariant DeclaredOnce(decls, net)
      invariant WellTimed(net, adds, n, last, depth)
      invariant forall reg :: reg in net <==> reg.Product? && reg.i < i
      invariant forall t: nat :: t in regOf <==> t < i
      invariant prodLevel.Keys == regOf.Keys
      invariant forall t: nat :: t < i ==> regOf[t] == Product(t) && prodLevel[t] == 0
    {
      TimedGrows(net, adds, n, last, depth, Product(i), ElementProduct(i));
      DeclareNext(decls, net, Product(i), ElementProduct(i));
      net := net[Product(i) := ElementProduct(i)];
      decls := decls + [Product(i)];
      regOf := regOf[i := Product(i)];
      prodLevel := prodLevel[i := 0];
    }
    TimedGrows(net, adds, n, last, depth, ByteA(1), InputA);
    DeclareNext(decls, net, ByteA(1), InputA);
    net := net[ByteA(1) := InputA];
    decls := decls + [ByteA(1)];
    TimedGrows(net, adds, n, last, depth, ByteB(1), InputB);
    DeclareNext(decls, net, ByteB(1), InputB);
    net := net[ByteB(1) := InputB];
    decls := decls + [ByteB(1)];
    for k := 2 to scaleStages + 1
      invariant DeclaredOnce(decls, net)
      invariant WellTimed(net, adds, n, last, depth)
      invariant forall j :: 1 <= j < k ==> ByteA(j) in net && ByteB(j) in net
      invariant forall reg :: reg in net ==> (reg.Product? || ((reg.ByteA? || reg.ByteB?) && reg.k < k))
      invariant forall t: nat :: t < n ==> Product(t) in net
    {
      TimedGrows(net, adds, n, last, depth, ByteA(k), Copy(ByteA(k - 1)));
      DeclareNext(decls, net, ByteA(k), Copy(ByteA(k - 1)));
      net := net[ByteA(k) := Copy(ByteA(k - 1))];
      decls := decls + [ByteA(k)];
      TimedGrows(net, adds, n, last, depth, ByteB(k), Copy(ByteB(k - 1)));
      DeclareNext(decls, net, ByteB(k), Copy(ByteB(k - 1)));
      net := net[ByteB(k) := Copy(ByteB(k - 1))];
      decls := decls + [ByteB(k)];
    }
    assert Available(net, regOf, prodLevel, {}, adds, n, depth, 1) by { InputsAvailable(net, regOf, prodLevel, adds, n, depth); }
  }

  lemma NothingDeclared()
    ensures DeclaredOnce([], map[])
  {
  }

  lemma EmptyTimed(adds: Adds, n: nat, last: nat, depth: nat)
    ensures WellTimed(map[], adds, n, last, depth)
  {
  }

  lemma InputsAvailable(net: Net, regOf: map<nat, Reg>, prodLevel: map<nat, nat>, adds: Adds, n: nat, depth: nat)
    requires WfAdds(adds, n) && prodLevel.Keys == regOf.Keys
    requires forall t: nat :: t in regOf <==> t < n
    requires forall t: nat :: t < n ==> regOf[t] == Product(t) && prodLevel[t] == 0 && Product(t) in net
    ensures Available(net, regOf, prodLevel, {}, adds, n, depth, 1)
  {
  }

  /** On every run, whatever the registers held at first, the output is from cycle `delay` on the unstaged dot product
      of the inputs of `delay` cycles ago. */
  ghost predicate ComputesDot(net: Net, adds: Adds, n: nat, last: nat, delay: nat)
    requires WfAdds(adds, n)
  {
    forall ops, start, inputs: nat -> int, t: nat :: t >= delay ==>
      Output(ops, State(net, ops, start, inputs, t), delay) == Dot(ops, adds, n, last, inputs(t - delay))
  }

  lemma TimedComputesDot(net: Net, adds: Adds, n: nat, last: nat, depth: nat)
    requires WfAdds(adds, n) && WellTimed(net, adds, n, last, depth) && Scaled in net && ByteB(depth + 2) in net
    ensures ComputesDot(net, adds, n, last, depth + 2)
  {
    hide Output, State, Dot, WellTimed, WfAdds;
    forall ops, start, inputs: nat -> int, t: nat | t >= depth + 2
      ensures Output(ops, State(net, ops, start, inputs, t), depth + 2) == Dot(ops, adds, n, last, inputs(t - (depth + 2)))
    {
      StagedDotIsDot(net, ops, adds, n, last, depth, start, inputs, t);
    }
  }

  /** The staged module: its registers, each declared once, the schedule it follows, and its latency. The module's
      output lags by one less than the latency, whose last cycle is the binding's own register. */
  method RenderStagedDot(n: nat) returns (net: Net, decls: seq<Reg>, adds: Adds, last: nat, latency: nat)
    requires n > 0
    ensures DeclaredOnce(decls, net)
    ensures WfAdds(adds, n) && last < n + |adds| && Leaves(adds, n, last) == Count(n)
    ensures TreeOf(adds, n, last) == Balanced(LeafTrees(n))
    ensures latency == Clog2(n) + 3
    ensures WellTimed(net, adds, n, last, latency - 3) && Scaled in net && ByteB(latency - 1) in net
    ensures ComputesDot(net, adds, n, last, latency - 1)
  {
    hide Leaves, Consumed, Level, WellTimed, Available, OnlyDeclared, ReadBelow, Leveled, EmitInv, Reached, DeclaredOnce, TreeOf,
         ComputesDot;
    adds, last := DotAdds(n);
    var levels := DotLevels(adds, n);
    DepthIs(adds, n, last, levels);
    latency := 1 + |levels| + 1 + 1;
    var scaleStages := latency - 1;
    var regOf: map<nat, Reg>;
    var prodLevel: map<nat, nat>;
    net, decls, regOf, prodLevel := EmitInputs(n, scaleStages, adds, last, |levels|);
    var carried: set<nat> := {};
    for li := 0 to |levels|
      invariant DeclaredOnce(decls, net)
      invariant EmitInv(net, regOf, prodLevel, carried, adds, n, last, |levels|, li + 1)
      invariant forall k :: 1 <= k <= scaleStages ==> ByteA(k) in net && ByteB(k) in net
    {
      net, decls, regOf, prodLevel, carried := EmitLevel(net, decls, regOf, prodLevel, carried, levels[li], li + 1, adds, n, last, levels);
    }
    LastInRegister(net, regOf, prodLevel, carried, adds, n, last, levels);
    var sumStage := 1 + |levels|;
    TimedGrows(net, adds, n, last, |levels|, Scaled, ScaleBy(regOf[last], ByteA(sumStage)));
    DeclareNext(decls, net, Scaled, ScaleBy(regOf[last], ByteA(sumStage)));
    net := net[Scaled := ScaleBy(regOf[last], ByteA(sumStage))];
    decls := decls + [Scaled];
    TimedComputesDot(net, adds, n, last, |levels|);
  }

  /** The number of levels is the depth of the tree. */
  lemma DepthIs(adds: Adds, n: nat, last: nat, levels: seq<seq<LevelAdd>>)
    requires n > 0 && WfAdds(adds, n) && last < n + |adds| && Leveled(adds, n, levels, |adds|) && Reached(adds, n, |levels|, |adds|)
    requires Level(adds, n, last) == Clog2(n) && forall t: nat :: t < n + |adds| ==> Level(adds, n, t) <= Clog2(n)
    ensures |levels| == Clog2(n)
  {
    hide Level, ListsLevel;
  }

  lemma LastInRegister(net: Net, regOf: map<nat, Reg>, prodLevel: map<nat, nat>, carried: set<nat>, adds: Adds,
                       n: nat, last: nat,
                       levels: seq<seq<LevelAdd>>)
    requires Scheduled(adds, n, last, levels)
    requires EmitInv(net, regOf, prodLevel, carried, adds, n, last, |levels|, |levels| + 1)
    ensures WellTimed(net, adds, n, last, |levels|) && Scaled !in net
    ensures last in regOf && regOf[last] in net && Holds(regOf[last]) == Value(last) && Age(regOf[last], |levels|) == |levels| + 1
  {
    hide Consumed, Level, ListsLevel, ReadBelow;
    assert !Declared(Scaled, carried, |levels| + 1);
    NeverRead(adds, n, last, |levels| + 1);
  }

  lemma NeverRead(adds: Adds, n: nat, t: nat, lvl: nat)
    requires WfAdds(adds, n) && Consumed(adds)[t] == 0
    ensures !ReadBelow(adds, n, t, lvl)
  {
    hide Consumed, Level;
    forall s: nat ensures !IsReader(adds, n, s, t) {
      if IsReader(adds, n, s, t) { ReadersCount(adds, n, s, t); }
    }
  }
}
