/** The FIFO and LIFO equations of src/construct_formal_ir.rs against an abstract queue and stack. */
module Fifo {
  import opened BitVec
  import opened FifoIr

  // ---- Remainders --------------------------------------------------------------------------------------

  lemma RemCases(x: nat, d: nat)
    requires d > 0
    ensures x < d ==> Rem(x, d) == x
    ensures d <= x < 2 * d ==> Rem(x, d) == x - d
    ensures 2 * d <= x < 3 * d ==> Rem(x, d) == x - 2 * d
    ensures 3 * d <= x < 4 * d ==> Rem(x, d) == x - 3 * d
  {
    if x < d { DivModUnique(x, d, 0, x); }
    else if x < 2 * d { DivModUnique(x, d, 1, x - d); }
    else if x < 3 * d { DivModUnique(x, d, 2, x - 2 * d); }
    else if x < 4 * d { DivModUnique(x, d, 3, x - 3 * d); }
  }

  // ---- The ring FIFO -----------------------------------------------------------------------------------

  datatype Ring<D> = Ring(wr: nat, rd: nat, mem: seq<D>)

  /** Signals of one cycle. */
  datatype Cycle<D> = Cycle(pushValid: bool, data: D, popReady: bool)

  function RingVars<D>(s: Ring<D>, doPush: bool, doPop: bool): Vars {
    Vars(x => if x == WR then s.wr else if x == RD then s.rd else 0,
         x => if x == DO_PUSH then doPush else if x == DO_POP then doPop else false)
  }

  predicate PushReady<D>(s: Ring<D>, depth: nat) { BoolMeaning(SYNC.pushReady, depth, RingVars(s, false, false)) }

  predicate PopValid<D>(s: Ring<D>, depth: nat) { BoolMeaning(SYNC.popValid, depth, RingVars(s, false, false)) }

  function ReadIndex<D>(s: Ring<D>, depth: nat): nat { NatMeaning(SYNC.readIndex, depth, RingVars(s, false, false)) }

  function Occupancy<D>(s: Ring<D>, depth: nat): nat { NatMeaning(PtrOccupancy(WR, RD), depth, RingVars(s, false, false)) }

  /** One clock edge: the next-state equations under the handshakes. */
  function RingStep<D>(s: Ring<D>, depth: nat, c: Cycle<D>): Ring<D> {
    var v := RingVars(s, c.pushValid && PushReady(s, depth), c.popReady && PopValid(s, depth));
    Ring(NatMeaning(SYNC.nextWr, depth, v), NatMeaning(SYNC.nextRd, depth, v), MemMeaning(SYNC.nextMem, depth, v, s.mem, c.data))
  }

  /** Pointers below twice the depth, and never more words between them than fit. */
  predicate RingInv<D>(s: Ring<D>, depth: nat) {
    depth > 0 && |s.mem| == depth && s.wr < 2 * depth && s.rd < 2 * depth && Occupancy(s, depth) <= depth
  }

  /** The stored words, oldest first: the slice from the read index, wrapping around. */
  function Stored<D>(s: Ring<D>, depth: nat): (q: seq<D>)
    requires RingInv(s, depth)
    ensures |q| == Occupancy(s, depth)
  {
    seq(Occupancy(s, depth), i requires 0 <= i < Occupancy(s, depth) => s.mem[Slot(s, depth, i)])
  }

  /** Where the i-th stored word lies. */
  function Slot<D>(s: Ring<D>, depth: nat, i: nat): (k: nat)
    requires depth > 0
    ensures k < depth
  {
    (s.rd + i) % depth
  }

  /** What a queue of the given depth does in a cycle. */
  function QueueStep<D>(q: seq<D>, depth: nat, c: Cycle<D>): seq<D> {
    (if c.popReady && q != [] then q[1..] else q) + (if c.pushValid && |q| < depth then [c.data] else [])
  }

  lemma OccupancyIs<D>(s: Ring<D>, depth: nat)
    requires depth > 0 && s.wr < 2 * depth && s.rd < 2 * depth
    ensures Occupancy(s, depth) == if s.wr >= s.rd then s.wr - s.rd else s.wr + 2 * depth - s.rd
  {
    RemCases(s.wr + 2 * depth - s.rd, 2 * depth);
  }

  /** The natural-number meaning of the FIFO's next-state equations. */
  lemma SyncMeaning<D>(depth: nat, v: Vars, mem: seq<D>, data: D)
    ensures NatMeaning(SYNC.nextWr, depth, v) == if v.bools(DO_PUSH) then Rem(v.nats(WR) + 1, 2 * depth) else v.nats(WR)
    ensures NatMeaning(SYNC.nextRd, depth, v) == if v.bools(DO_POP) then Rem(v.nats(RD) + 1, 2 * depth) else v.nats(RD)
    ensures MemMeaning(SYNC.nextMem, depth, v, mem, data)
         == if v.bools(DO_PUSH) then Write(mem, Rem(v.nats(WR), depth), data) else mem
  {
    hide Rem, Write;
    assert NatMeaning(Mod(Add(WR, 1), PtrMod), depth, v) == Rem(v.nats(WR) + 1, 2 * depth);
    assert NatMeaning(Mod(Add(RD, 1), PtrMod), depth, v) == Rem(v.nats(RD) + 1, 2 * depth);
    assert MemMeaning(Update(PtrIndex(WR)), depth, v, mem, data) == Write(mem, Rem(v.nats(WR), depth), data);
  }

  lemma StepIs<D>(s: Ring<D>, depth: nat, c: Cycle<D>)
    requires RingInv(s, depth)
    ensures (var doPush, doPop := c.pushValid && Occupancy(s, depth) != depth, c.popReady && Occupancy(s, depth) != 0;
             var t := RingStep(s, depth, c);
             t.wr == (if doPush then Next(s.wr, depth) else s.wr) && t.rd == (if doPop then Next(s.rd, depth) else s.rd)
             && t.mem == if doPush then s.mem[Rem(s.wr, depth) := c.data] else s.mem)
  {
    hide NatMeaning, MemMeaning, BoolMeaning, Rem, Occupancy;
    ReadyIs(s, depth);
    SyncMeaning(depth, RingVars(s, c.pushValid && PushReady(s, depth), c.popReady && PopValid(s, depth)), s.mem, c.data);
    RemCases(s.wr + 1, 2 * depth);
    RemCases(s.rd + 1, 2 * depth);
    RemCases(s.wr, depth);
  }

  lemma ReadyIs<D>(s: Ring<D>, depth: nat)
    ensures PushReady(s, depth) <==> Occupancy(s, depth) != depth
    ensures PopValid(s, depth) <==> Occupancy(s, depth) != 0
  {
    hide Rem;
    var v := RingVars(s, false, false);
    assert BoolMeaning(SYNC_FULL, depth, v) <==> Occupancy(s, depth) == NatMeaning(Depth, depth, v);
    assert BoolMeaning(SYNC_EMPTY, depth, v) <==> Occupancy(s, depth) == NatMeaning(Zero, depth, v);
  }

  function Next(p: nat, depth: nat): nat { if p + 1 == 2 * depth then 0 else p + 1 }

  lemma SlotIs<D>(s: Ring<D>, depth: nat, i: nat)
    requires RingInv(s, depth) && i <= depth
    ensures var x := s.rd + i;
            Slot(s, depth, i) == if x < depth then x else if x < 2 * depth then x - depth else if x < 3 * depth then x - 2 * depth else 0
  {
    RemCases(s.rd + i, depth);
    if s.rd + i >= 3 * depth { DivModUnique(s.rd + i, depth, 3, 0); }
  }

  /** The invariant is kept by every cycle. */
  lemma RingKeeps<D>(s: Ring<D>, depth: nat, c: Cycle<D>)
    requires RingInv(s, depth)
    ensures RingInv(RingStep(s, depth, c), depth)
    ensures (var doPush, doPop := c.pushValid && Occupancy(s, depth) != depth, c.popReady && Occupancy(s, depth) != 0;
             Occupancy(RingStep(s, depth, c), depth)
             == Occupancy(s, depth) + (if doPush then 1 else 0) - (if doPop then 1 else 0))
  {
    hide RingStep, Occupancy;
    var t := RingStep(s, depth, c);
    StepIs(s, depth, c);
    OccupancyIs(s, depth);
    OccupancyIs(t, depth);
  }

  /** Every cycle does to the stored words what a queue does, pushing and popping at once included. */
  lemma RingRefinesQueue<D>(s: Ring<D>, depth: nat, c: Cycle<D>)
    requires RingInv(s, depth)
    ensures RingInv(RingStep(s, depth, c), depth)
    ensures Stored(RingStep(s, depth, c), depth) == QueueStep(Stored(s, depth), depth, c)
    ensures PushReady(s, depth) <==> |Stored(s, depth)| < depth
    ensures PopValid(s, depth) <==> Stored(s, depth) != []
    ensures ReadIndex(s, depth) < depth && (Stored(s, depth) != [] ==> s.mem[ReadIndex(s, depth)] == Stored(s, depth)[0])
  {
    hide RingStep, Occupancy, PushReady, PopValid, ReadIndex, Slot;
    var t := RingStep(s, depth, c);
    RingKeeps(s, depth, c);
    ReadyIs(s, depth);
    ReadsFirst(s, depth);
    var q, r := Stored(s, depth), QueueStep(Stored(s, depth), depth, c);
    assert |Stored(t, depth)| == |r|;
    forall i | 0 <= i < |r| ensures Stored(t, depth)[i] == r[i] {
      WordMoves(s, depth, c, i);
    }
  }

  /** The full and empty outputs of the ring, by what is stored. */
  lemma RingFlags<D>(s: Ring<D>, depth: nat)
    requires RingInv(s, depth)
    ensures BoolMeaning(SYNC.full, depth, RingVars(s, false, false)) <==> |Stored(s, depth)| == depth
    ensures BoolMeaning(SYNC.empty, depth, RingVars(s, false, false)) <==> Stored(s, depth) == []
  {
    hide Rem;
    var v := RingVars(s, false, false);
    assert BoolMeaning(SYNC_FULL, depth, v) <==> Occupancy(s, depth) == NatMeaning(Depth, depth, v);
    assert BoolMeaning(SYNC_EMPTY, depth, v) <==> Occupancy(s, depth) == NatMeaning(Zero, depth, v);
  }

  lemma ReadsFirst<D>(s: Ring<D>, depth: nat)
    requires RingInv(s, depth)
    ensures ReadIndex(s, depth) == Slot(s, depth, 0) < depth
  {
  }

  /** The i-th word after a cycle was the i-th or the next word before, or is the pushed one. */
  lemma WordMoves<D>(s: Ring<D>, depth: nat, c: Cycle<D>, i: nat)
    requires RingInv(s, depth) && RingInv(RingStep(s, depth, c), depth)
    requires i < Occupancy(RingStep(s, depth, c), depth) == |QueueStep(Stored(s, depth), depth, c)|
    ensures Stored(RingStep(s, depth, c), depth)[i] == QueueStep(Stored(s, depth), depth, c)[i]
  {
    hide RingStep, Occupancy, Slot;
    var t, n := RingStep(s, depth, c), Occupancy(s, depth);
    var off := if c.popReady && n != 0 then 1 else 0;
    StepIs(s, depth, c);
    OccupancyIs(s, depth);
    OccupancyIs(t, depth);
    SlotIs(t, depth, i);
    SlotIs(s, depth, i + off);
    RemCases(s.wr, depth);
  }

  /** The states a run passes through. */
  function RingRun<D>(depth: nat, mem: seq<D>, cycles: seq<Cycle<D>>): Ring<D> {
    if cycles == [] then Ring(0, 0, mem)
    else RingStep(RingRun(depth, mem, cycles[..|cycles| - 1]), depth, cycles[|cycles| - 1])
  }

  function QueueRun<D>(depth: nat, cycles: seq<Cycle<D>>): seq<D> {
    if cycles == [] then [] else QueueStep(QueueRun(depth, cycles[..|cycles| - 1]), depth, cycles[|cycles| - 1])
  }

  /** From reset, every run of the ring is the run of a queue. */
  lemma {:induction false} RingIsQueue<D>(depth: nat, mem: seq<D>, cycles: seq<Cycle<D>>)
    requires depth > 0 && |mem| == depth
    ensures RingInv(RingRun(depth, mem, cycles), depth)
    ensures Stored(RingRun(depth, mem, cycles), depth) == QueueRun(depth, cycles)
    decreases |cycles|
  {
    if cycles == [] {
      OccupancyIs(RingRun(depth, mem, cycles), depth);
    } else {
      var earlier, last := cycles[..|cycles| - 1], cycles[|cycles| - 1];
      RingIsQueue(depth, mem, earlier);
      RingRefinesQueue(RingRun(depth, mem, earlier), depth, last);
    }
  }

  // ---- The stack ---------------------------------------------------------------------------------------

  datatype Stack<D> = Stack(sp: nat, mem: seq<D>)

  function StackVars<D>(s: Stack<D>, doPush: bool, doPop: bool): Vars {
    Vars(x => if x == SP then s.sp else 0, x => if x == DO_PUSH then doPush else if x == DO_POP then doPop else false)
  }

  function StackStep<D>(s: Stack<D>, depth: nat, c: Cycle<D>): Stack<D> {
    var idle := StackVars(s, false, false);
    var v := StackVars(s, c.pushValid && BoolMeaning(LIFO.pushReady, depth, idle),
                       c.popReady && BoolMeaning(LIFO.popValid, depth, idle));
    Stack(NatMeaning(LIFO.nextSp, depth, v), MemMeaning(LIFO.nextMem, depth, v, s.mem, c.data))
  }

  predicate StackInv<D>(s: Stack<D>, depth: nat) { |s.mem| == depth && s.sp <= depth }

  /** What a stack of the given depth does in a cycle: a pop and a push at once replace the top. */
  function PileStep<D>(q: seq<D>, depth: nat, c: Cycle<D>): seq<D> {
    (if c.popReady && q != [] then q[..|q| - 1] else q) + (if c.pushValid && |q| < depth then [c.data] else [])
  }

  /** The natural-number meaning of the LIFO's equations. */
  lemma LifoMeaning<D>(depth: nat, v: Vars, mem: seq<D>, data: D)
    ensures BoolMeaning(LIFO.pushReady, depth, v) <==> v.nats(SP) != depth
    ensures BoolMeaning(LIFO.popValid, depth, v) <==> v.nats(SP) != 0
    ensures NatMeaning(LIFO.readIndex, depth, v) == Minus(v.nats(SP), 1)
    ensures (var push, pop, sp := v.bools(DO_PUSH), v.bools(DO_POP), v.nats(SP);
             NatMeaning(LIFO.nextSp, depth, v) == if push == pop then sp else if push then sp + 1 else Minus(sp, 1))
    ensures (var push, pop, sp := v.bools(DO_PUSH), v.bools(DO_POP), v.nats(SP);
             MemMeaning(LIFO.nextMem, depth, v, mem, data) == if push then Write(mem, if pop then Minus(sp, 1) else sp, data) else mem)
  {
    hide Minus, Write;
    assert BoolMeaning(LIFO_FULL, depth, v) <==> v.nats(SP) == NatMeaning(Depth, depth, v);
    assert BoolMeaning(LIFO_EMPTY, depth, v) <==> v.nats(SP) == NatMeaning(Zero, depth, v);
    var inner := Ite(BoolVar(DO_POP), Sub(SP, 1), Var(SP));
    assert NatMeaning(inner, depth, v) == if v.bools(DO_POP) then Minus(v.nats(SP), 1) else v.nats(SP);
    var outer := Ite(BoolVar(DO_PUSH), Add(SP, 1), inner);
    assert NatMeaning(outer, depth, v) == if v.bools(DO_PUSH) then v.nats(SP) + 1 else NatMeaning(inner, depth, v);
    assert BoolMeaning(And(BoolVar(DO_PUSH), BoolVar(DO_POP)), depth, v) == (v.bools(DO_PUSH) && v.bools(DO_POP));
    assert MemMeaning(Update(LIFO_WRITE), depth, v, mem, data) == Write(mem, NatMeaning(inner, depth, v), data);
  }

  lemma StackRefinesPile<D>(s: Stack<D>, depth: nat, c: Cycle<D>)
    requires StackInv(s, depth)
    ensures StackInv(StackStep(s, depth, c), depth)
    ensures (var t := StackStep(s, depth, c); t.mem[..t.sp] == PileStep(s.mem[..s.sp], depth, c))
    ensures NatMeaning(LIFO.readIndex, depth, StackVars(s, false, false)) == Minus(s.sp, 1)
  {
    hide NatMeaning, MemMeaning, BoolMeaning;
    var idle := StackVars(s, false, false);
    LifoMeaning(depth, idle, s.mem, c.data);
    var push, pop := c.pushValid && BoolMeaning(LIFO.pushReady, depth, idle), c.popReady && BoolMeaning(LIFO.popValid, depth, idle);
    LifoMeaning(depth, StackVars(s, push, pop), s.mem, c.data);
    var t := StackStep(s, depth, c);
    assert t.mem[..t.sp] == PileStep(s.mem[..s.sp], depth, c);
  }

  /** The outputs of the stack: full and empty by what is stored, ready and valid their negations, and the write index the
      place of the word a push leaves on top. */
  lemma StackSignals<D>(s: Stack<D>, depth: nat, c: Cycle<D>)
    requires StackInv(s, depth)
    ensures var pile, idle := s.mem[..s.sp], StackVars(s, false, false);
            (BoolMeaning(LIFO.full, depth, idle) <==> |pile| == depth) && (BoolMeaning(LIFO.empty, depth, idle) <==> pile == [])
            && (BoolMeaning(LIFO.pushReady, depth, idle) <==> |pile| < depth)
            && (BoolMeaning(LIFO.popValid, depth, idle) <==> pile != [])
    ensures var pile := s.mem[..s.sp];
            var push, pop := c.pushValid && |pile| < depth, c.popReady && pile != [];
            var at := NatMeaning(LIFO.writeIndex, depth, StackVars(s, push, pop));
            push ==> at == |PileStep(pile, depth, c)| - 1 && at < |s.mem| && StackStep(s, depth, c).mem == s.mem[at := c.data]
  {
    hide NatMeaning, MemMeaning, BoolMeaning;
    var pile, idle := s.mem[..s.sp], StackVars(s, false, false);
    LifoMeaning(depth, idle, s.mem, c.data);
    FullAndEmpty(depth, idle);
    var push, pop := c.pushValid && |pile| < depth, c.popReady && pile != [];
    var v := StackVars(s, push, pop);
    LifoMeaning(depth, v, s.mem, c.data);
    WriteIndexIs(depth, v);
  }

  lemma FullAndEmpty(depth: nat, v: Vars)
    ensures BoolMeaning(LIFO.full, depth, v) <==> v.nats(SP) == depth
    ensures BoolMeaning(LIFO.empty, depth, v) <==> v.nats(SP) == 0
  {
    assert BoolMeaning(LIFO_FULL, depth, v) <==> v.nats(SP) == NatMeaning(Depth, depth, v);
    assert BoolMeaning(LIFO_EMPTY, depth, v) <==> v.nats(SP) == NatMeaning(Zero, depth, v);
  }

  lemma WriteIndexIs(depth: nat, v: Vars)
    ensures NatMeaning(LIFO.writeIndex, depth, v) == if v.bools(DO_POP) then Minus(v.nats(SP), 1) else v.nats(SP)
  {
    hide Minus;
  }

  // ---- Bit vectors -------------------------------------------------------------------------------------

  /** The width the bit-vector reading gives the pointers. */
  function PtrWidth(depth: nat): (w: nat)
    requires depth > 0
  {
    if Clog2(2 * depth + 1) == 0 then 1 else Clog2(2 * depth + 1)
  }

  lemma PtrWidthBounds(depth: nat)
    requires depth > 0
    ensures 2 * depth < Pow2(PtrWidth(depth)) <= 4 * depth
  {
    Clog2IsCeiling(2 * depth + 1);
  }

  lemma WrapSmall(x: int, w: nat)
    ensures 0 <= x < Pow2(w) ==> Wrap(x, w) == x
    ensures Pow2(w) <= x < 2 * Pow2(w) ==> Wrap(x, w) == x - Pow2(w)
  {
    hide Pow2;
    if 0 <= x < Pow2(w) { DivModUnique(x, Pow2(w), 0, x); }
    if Pow2(w) <= x < 2 * Pow2(w) { DivModUnique(x, Pow2(w), 1, x - Pow2(w)); }
  }

  function BvOccupancy<D>(s: Ring<D>, depth: nat, w: nat): nat {
    BvMeaning(PtrOccupancy(WR, RD), depth, w, RingVars(s, false, false))
  }

  lemma BvOccupancyIs<D>(s: Ring<D>, depth: nat)
    requires depth > 0 && s.wr < 2 * depth && s.rd < 2 * depth
    ensures var w, x := PtrWidth(depth), s.wr + 2 * depth - s.rd;
            BvOccupancy(s, depth, w) == Rem(if x < Pow2(w) then x else x - Pow2(w), 2 * depth)
  {
    hide Pow2, PtrWidth;
    var w, p := PtrWidth(depth), Pow2(PtrWidth(depth));
    PtrWidthBounds(depth);
    var y := s.wr + 2 * depth;
    WrapSmall(2 * depth, w);
    WrapSmall(y, w);
    WrapSmall(y - s.rd, w);
    if y >= p {
      WrapSmall(y - p - s.rd, w);
      if y - p < s.rd { WrapShift(y - p - s.rd, w); }
    }
  }

  lemma WrapShift(x: int, w: nat)
    requires x < 0 <= x + Pow2(w)
    ensures Wrap(x, w) == x + Pow2(w)
  {
    hide Pow2;
    DivModUnique(x, Pow2(w), -1, x + Pow2(w));
  }

  lemma BvExact<D>(s: Ring<D>, depth: nat)
    requires RingInv(s, depth) && 3 * depth < Pow2(PtrWidth(depth))
    ensures BvOccupancy(s, depth, PtrWidth(depth)) == Occupancy(s, depth)
  {
    hide Pow2, PtrWidth, BvOccupancy, Occupancy;
    OccupancyIs(s, depth);
    BvOccupancyIs(s, depth);
    RemCases(s.wr + 2 * depth - s.rd, 2 * depth);
  }

  /** A full FIFO whose read pointer is at the start is not seen as full when three depths do not fit. */
  lemma FullIsMissed<D>(s: Ring<D>, depth: nat)
    requires depth > 0 && 3 * depth >= Pow2(PtrWidth(depth)) && s.wr == depth && s.rd == 0
    ensures Occupancy(s, depth) == depth && BvOccupancy(s, depth, PtrWidth(depth)) < depth
  {
    hide Pow2, PtrWidth, BvOccupancy, Occupancy;
    PtrWidthBounds(depth);
    OccupancyIs(s, depth);
    BvOccupancyIs(s, depth);
    RemCases(3 * depth - Pow2(PtrWidth(depth)), 2 * depth);
  }

  /** Everything the equations define in a cycle. */
  datatype Signals = Signals(pushReady: bool, popValid: bool, writeIndex: nat, readIndex: nat, nextWr: nat, nextRd: nat)

  function NatSignals<D>(s: Ring<D>, depth: nat, c: Cycle<D>): Signals {
    var idle := RingVars(s, false, false);
    var ready, valid := BoolMeaning(SYNC.pushReady, depth, idle), BoolMeaning(SYNC.popValid, depth, idle);
    var v := RingVars(s, c.pushValid && ready, c.popReady && valid);
    Signals(ready, valid, NatMeaning(SYNC.writeIndex, depth, idle), NatMeaning(SYNC.readIndex, depth, idle),
            NatMeaning(SYNC.nextWr, depth, v), NatMeaning(SYNC.nextRd, depth, v))
  }

  function BvSignals<D>(s: Ring<D>, depth: nat, w: nat, c: Cycle<D>): Signals {
    var idle := RingVars(s, false, false);
    var ready, valid := BvBool(SYNC.pushReady, depth, w, idle), BvBool(SYNC.popValid, depth, w, idle);
    var v := RingVars(s, c.pushValid && ready, c.popReady && valid);
    Signals(ready, valid, BvMeaning(SYNC.writeIndex, depth, w, idle), BvMeaning(SYNC.readIndex, depth, w, idle),
            BvMeaning(SYNC.nextWr, depth, w, v), BvMeaning(SYNC.nextRd, depth, w, v))
  }

  /** One clock edge as the signals have it. */
  function Clocked<D>(s: Ring<D>, c: Cycle<D>, b: Signals): Ring<D> {
    Ring(b.nextWr, b.nextRd, if c.pushValid && b.pushReady then Write(s.mem, b.writeIndex, c.data) else s.mem)
  }

  lemma StepIsClocked<D>(s: Ring<D>, depth: nat, c: Cycle<D>)
    ensures RingStep(s, depth, c) == Clocked(s, c, NatSignals(s, depth, c))
  {
    hide Rem, Write;
    SyncMeaning(depth, RingVars(s, c.pushValid && PushReady(s, depth), c.popReady && PopValid(s, depth)), s.mem, c.data);
    assert NatMeaning(SYNC.writeIndex, depth, RingVars(s, false, false)) == Rem(s.wr, depth);
  }

  /** The signals of both readings, by the occupancy each of them sees. */
  function SignalsFor<D>(s: Ring<D>, depth: nat, c: Cycle<D>, seen: nat): Signals {
    var push, pop := c.pushValid && seen != depth, c.popReady && seen != 0;
    Signals(seen != depth, seen != 0, Rem(s.wr, depth), Rem(s.rd, depth),
            if push then Rem(s.wr + 1, 2 * depth) else s.wr, if pop then Rem(s.rd + 1, 2 * depth) else s.rd)
  }

  lemma NatSignalsAre<D>(s: Ring<D>, depth: nat, c: Cycle<D>)
    ensures NatSignals(s, depth, c) == SignalsFor(s, depth, c, Occupancy(s, depth))
  {
    hide Rem, Occupancy;
    ReadyIs(s, depth);
    var idle := RingVars(s, false, false);
    SyncMeaning(depth, RingVars(s, c.pushValid && PushReady(s, depth), c.popReady && PopValid(s, depth)), s.mem, c.data);
    assert NatMeaning(SYNC.writeIndex, depth, idle) == Rem(s.wr, depth) && NatMeaning(SYNC.readIndex, depth, idle) == Rem(s.rd, depth);
  }

  lemma BvSignalsAre<D>(s: Ring<D>, depth: nat, c: Cycle<D>)
    requires depth > 0 && s.wr < 2 * depth && s.rd < 2 * depth
    ensures BvSignals(s, depth, PtrWidth(depth), c) == SignalsFor(s, depth, c, BvOccupancy(s, depth, PtrWidth(depth)))
  {
    hide Pow2, PtrWidth, Rem, Wrap, BvOccupancy;
    var w := PtrWidth(depth);
    PtrWidthBounds(depth);
    WrapSmall(depth, w);
    WrapSmall(2 * depth, w);
    WrapSmall(0, w);
    WrapSmall(1, w);
    WrapSmall(s.wr + 1, w);
    WrapSmall(s.rd + 1, w);
    var idle := RingVars(s, false, false);
    BvReady(s, depth, w);
    BvNext(depth, w, RingVars(s, c.pushValid && BvBool(SYNC.pushReady, depth, w, idle), c.popReady && BvBool(SYNC.popValid, depth, w, idle)));
  }

  lemma BvReady<D>(s: Ring<D>, depth: nat, w: nat)
    requires Wrap(depth, w) == depth
    ensures var idle := RingVars(s, false, false);
            (BvBool(SYNC.pushReady, depth, w, idle) <==> BvOccupancy(s, depth, w) != depth)
            && (BvBool(SYNC.popValid, depth, w, idle) <==> BvOccupancy(s, depth, w) != 0)
  {
    hide Rem, Wrap;
    var idle := RingVars(s, false, false);
    assert BvBool(SYNC_FULL, depth, w, idle) <==> BvOccupancy(s, depth, w) == BvMeaning(Depth, depth, w, idle);
    assert BvBool(SYNC_EMPTY, depth, w, idle) <==> BvOccupancy(s, depth, w) == BvMeaning(Zero, depth, w, idle);
  }

  lemma BvNext(depth: nat, w: nat, v: Vars)
    requires Wrap(1, w) == 1 && Wrap(2 * depth, w) == 2 * depth && Wrap(depth, w) == depth
    requires Wrap(v.nats(WR) + 1, w) == v.nats(WR) + 1 && Wrap(v.nats(RD) + 1, w) == v.nats(RD) + 1
    ensures BvMeaning(SYNC.nextWr, depth, w, v) == if v.bools(DO_PUSH) then Rem(v.nats(WR) + 1, 2 * depth) else v.nats(WR)
    ensures BvMeaning(SYNC.nextRd, depth, w, v) == if v.bools(DO_POP) then Rem(v.nats(RD) + 1, 2 * depth) else v.nats(RD)
  {
    hide Rem, Wrap;
    assert BvMeaning(Mod(Add(WR, 1), PtrMod), depth, w, v) == Rem(v.nats(WR) + 1, 2 * depth);
    assert BvMeaning(Mod(Add(RD, 1), PtrMod), depth, w, v) == Rem(v.nats(RD) + 1, 2 * depth);
  }

  /** The two readings give the same signals in every cycle from every state that keeps the invariant exactly when three
      depths fit in the pointer width. */
  lemma BvStepExact(depth: nat)
    requires depth > 0
    ensures 3 * depth < Pow2(PtrWidth(depth)) <==>
            forall s: Ring<int>, c :: RingInv(s, depth) ==> BvSignals(s, depth, PtrWidth(depth), c) == NatSignals(s, depth, c)
  {
    hide Pow2, PtrWidth, BvOccupancy, Occupancy, BvSignals, NatSignals, RingInv;
    if 3 * depth < Pow2(PtrWidth(depth)) {
      forall s: Ring<int>, c | RingInv(s, depth) ensures BvSignals(s, depth, PtrWidth(depth), c) == NatSignals(s, depth, c) {
        BvAgrees(s, depth, c);
      }
    } else {
      var mem := seq(depth, _ => 0);
      var s, c := RingRun(depth, mem, Pushes(depth)), Cycle(true, 0, false);
      FullReached(depth, mem, depth);
      RingIsQueue(depth, mem, Pushes(depth));
      FullDiffers(s, depth, c);
    }
  }

  lemma BvAgrees<D>(s: Ring<D>, depth: nat, c: Cycle<D>)
    requires RingInv(s, depth) && 3 * depth < Pow2(PtrWidth(depth))
    ensures BvSignals(s, depth, PtrWidth(depth), c) == NatSignals(s, depth, c)
  {
    hide Pow2, PtrWidth, BvOccupancy, Occupancy, BvSignals, NatSignals;
    BvExact(s, depth);
    BvSignalsAre(s, depth, c);
    NatSignalsAre(s, depth, c);
  }

  lemma FullDiffers<D>(s: Ring<D>, depth: nat, c: Cycle<D>)
    requires depth > 0 && 3 * depth >= Pow2(PtrWidth(depth)) && s.wr == depth && s.rd == 0 && c.pushValid
    ensures BvSignals(s, depth, PtrWidth(depth), c).pushReady && !NatSignals(s, depth, c).pushReady
    ensures BvSignals(s, depth, PtrWidth(depth), c).nextWr != NatSignals(s, depth, c).nextWr
  {
    hide Pow2, PtrWidth, BvOccupancy, Occupancy, BvSignals, NatSignals;
    FullIsMissed(s, depth);
    BvSignalsAre(s, depth, c);
    NatSignalsAre(s, depth, c);
    RemCases(depth + 1, 2 * depth);
  }

  function Pushes(n: nat): seq<Cycle<int>> { seq(n, _ => Cycle(true, 0, false)) }

  /** Pushing from reset fills the ring: the state that is missed is reached by depth pushes. */
  lemma {:induction false} FullReached(depth: nat, mem: seq<int>, n: nat)
    requires n <= depth && depth > 0 && |mem| == depth
    ensures var t := RingRun(depth, mem, Pushes(n)); t.wr == n && t.rd == 0
  {
    hide RingStep, Occupancy;
    if n > 0 {
      assert Pushes(n)[..n - 1] == Pushes(n - 1);
      FullReached(depth, mem, n - 1);
      RingIsQueue(depth, mem, Pushes(n - 1));
      var s := RingRun(depth, mem, Pushes(n - 1));
      OccupancyIs(s, depth);
      StepIs(s, depth, Cycle(true, 0, false));
    }
  }

  /** The states a run passes through when the bit-vector signals are clocked. */
  function BvRun<D>(depth: nat, mem: seq<D>, cycles: seq<Cycle<D>>): Ring<D>
    requires depth > 0
  {
    if cycles == [] then Ring(0, 0, mem)
    else
      var s, c := BvRun(depth, mem, cycles[..|cycles| - 1]), cycles[|cycles| - 1];
      Clocked(s, c, BvSignals(s, depth, PtrWidth(depth), c))
  }

  ghost predicate SameRun<D>(depth: nat, mem: seq<D>, cycles: seq<Cycle<D>>)
    requires depth > 0
  {
    BvRun(depth, mem, cycles) == RingRun(depth, mem, cycles)
  }

  lemma {:induction false} FittingRun<D>(depth: nat, mem: seq<D>, cycles: seq<Cycle<D>>)
    requires depth > 0 && |mem| == depth && 3 * depth < Pow2(PtrWidth(depth))
    ensures SameRun(depth, mem, cycles)
    decreases |cycles|
  {
    hide Pow2, PtrWidth, BvSignals, NatSignals, Clocked;
    if cycles != [] {
      var earlier, last := cycles[..|cycles| - 1], cycles[|cycles| - 1];
      FittingRun(depth, mem, earlier);
      RingIsQueue(depth, mem, earlier);
      BvAgrees(RingRun(depth, mem, earlier), depth, last);
      StepIsClocked(RingRun(depth, mem, earlier), depth, last);
    }
  }

  /** Over whole runs from reset: the bit-vector FIFO goes through the states of the ring, which is a queue, exactly when
      three depths fit; otherwise depth + 1 pushes tell them apart. */
  lemma BvRunExact(depth: nat, mem: seq<int>)
    requires depth > 0 && |mem| == depth
    ensures 3 * depth < Pow2(PtrWidth(depth)) <==> forall cycles :: SameRun(depth, mem, cycles)
    ensures 3 * depth >= Pow2(PtrWidth(depth)) ==>
              !SameRun(depth, mem, Pushes(depth)) || !SameRun(depth, mem, Pushes(depth + 1))
  {
    hide Pow2, PtrWidth, BvSignals, NatSignals;
    if 3 * depth < Pow2(PtrWidth(depth)) {
      forall cycles ensures SameRun(depth, mem, cycles) {
        FittingRun(depth, mem, cycles);
      }
    } else {
      FullReached(depth, mem, depth);
      var s, c := RingRun(depth, mem, Pushes(depth)), Cycle(true, 0, false);
      assert Pushes(depth + 1)[..depth] == Pushes(depth);
      FullDiffers(s, depth, c);
      StepIsClocked(s, depth, c);
      assert !SameRun(depth, mem, Pushes(depth)) || !SameRun(depth, mem, Pushes(depth + 1));
    }
  }

  /** The generated sanity query has no counterexample at any depth: what it checks holds of the bit-vector signals
      whether or not they see a full FIFO. */
  lemma SanityHolds<D>(s: Ring<D>, depth: nat, c: Cycle<D>)
    requires depth > 0 && s.wr < 2 * depth && s.rd < 2 * depth
    ensures var w := PtrWidth(depth); var b, idle := BvSignals(s, depth, w, c), RingVars(s, false, false);
            b.pushReady == !BvBool(SYNC.full, depth, w, idle) && b.popValid == !BvBool(SYNC.empty, depth, w, idle)
            && b.writeIndex < depth && b.readIndex < depth && b.nextWr < 2 * depth && b.nextRd < 2 * depth
  {
    hide Pow2, PtrWidth, BvOccupancy;
    BvSignalsAre(s, depth, c);
  }

  /** At every power-of-two depth the readings agree in every cycle; at depth three they do not. */
  lemma PowerOfTwoAgrees<D>(k: nat, s: Ring<D>, c: Cycle<D>)
    requires RingInv(s, Pow2(k))
    ensures BvSignals(s, Pow2(k), PtrWidth(Pow2(k)), c) == NatSignals(s, Pow2(k), c)
  {
    hide PtrWidth, BvSignals, NatSignals, RingInv;
    var d := Pow2(k);
    PtrWidthBounds(d);
    Pow2Step(k + 1);
    Pow2Step(k + 2);
    if PtrWidth(d) < k + 2 { Pow2Monotone(PtrWidth(d), k + 1); }
    Pow2Monotone(k + 2, PtrWidth(d));
    BvAgrees(s, d, c);
  }

  lemma ThreeDoesNot(mem: seq<int>)
    requires |mem| == 3
    ensures !forall cycles :: SameRun(3, mem, cycles)
  {
    assert Clog2(7) == 3 by { assert Clog2(4) == 2 by { assert Clog2(2) == 1; } }
    assert Pow2(3) == 8;
    BvRunExact(3, mem);
  }

  // ---- The stack as bit vectors --------------------------------------------------------------------------

  function SpWidth(depth: nat): (w: nat) {
    if Clog2(depth + 1) == 0 then 1 else Clog2(depth + 1)
  }

  /** The stack's pointer width always suffices: both readings agree on the flags and on the next pointer. */
  lemma LifoBvAgrees<D>(s: Stack<D>, depth: nat, c: Cycle<D>)
    requires StackInv(s, depth)
    ensures var w, idle := SpWidth(depth), StackVars(s, false, false);
            var ready, valid := BvBool(LIFO.pushReady, depth, w, idle), BvBool(LIFO.popValid, depth, w, idle);
            var v := StackVars(s, c.pushValid && ready, c.popReady && valid);
            ready == BoolMeaning(LIFO.pushReady, depth, idle) && valid == BoolMeaning(LIFO.popValid, depth, idle)
            && BvMeaning(LIFO.nextSp, depth, w, v) == StackStep(s, depth, c).sp
  {
    hide Pow2, SpWidth, Wrap, NatMeaning, MemMeaning;
    var w, idle := SpWidth(depth), StackVars(s, false, false);
    SpWidthBounds(depth);
    WrapSmall(depth, w);
    WrapSmall(1, w);
    WrapSmall(s.sp + 1, w);
    WrapSmall(s.sp - 1, w);
    LifoMeaning(depth, idle, s.mem, c.data);
    LifoBv(depth, w, idle);
    var v := StackVars(s, c.pushValid && BvBool(LIFO.pushReady, depth, w, idle), c.popReady && BvBool(LIFO.popValid, depth, w, idle));
    LifoMeaning(depth, v, s.mem, c.data);
    LifoBv(depth, w, v);
  }

  lemma SpWidthBounds(depth: nat)
    ensures depth < Pow2(SpWidth(depth)) && 2 <= Pow2(SpWidth(depth))
  {
    Clog2IsCeiling(depth + 1);
    Pow2Monotone(1, SpWidth(depth));
    Pow2Step(1);
  }

  lemma LifoBv(depth: nat, w: nat, v: Vars)
    requires Wrap(depth, w) == depth && Wrap(1, w) == 1
    ensures BvBool(LIFO.pushReady, depth, w, v) <==> v.nats(SP) != depth
    ensures BvBool(LIFO.popValid, depth, w, v) <==> v.nats(SP) != 0
    ensures (var push, pop, sp := v.bools(DO_PUSH), v.bools(DO_POP), v.nats(SP);
             BvMeaning(LIFO.nextSp, depth, w, v) == if push == pop then sp else if push then Wrap(sp + 1, w) else Wrap(sp - 1, w))
  {
    hide Wrap;
    assert BvBool(LIFO_FULL, depth, w, v) <==> v.nats(SP) == BvMeaning(Depth, depth, w, v);
    assert BvBool(LIFO_EMPTY, depth, w, v) <==> v.nats(SP) == BvMeaning(Zero, depth, w, v);
    var inner := Ite(BoolVar(DO_POP), Sub(SP, 1), Var(SP));
    assert BvMeaning(inner, depth, w, v) == if v.bools(DO_POP) then Wrap(v.nats(SP) - 1, w) else v.nats(SP);
    var outer := Ite(BoolVar(DO_PUSH), Add(SP, 1), inner);
    assert BvMeaning(outer, depth, w, v) == if v.bools(DO_PUSH) then Wrap(v.nats(SP) + 1, w) else BvMeaning(inner, depth, w, v);
    assert BvBool(And(BoolVar(DO_PUSH), BoolVar(DO_POP)), depth, w, v) == (v.bools(DO_PUSH) && v.bools(DO_POP));
  }
}
