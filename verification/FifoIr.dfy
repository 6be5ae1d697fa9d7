/** The equation language of src/construct_formal_ir.rs for FIFOs and LIFOs, with its two meanings: on natural numbers,
    and on bit vectors of a fixed width. */
module FifoIr {
  import opened BitVec

  datatype NatExpr = Var(x: string) | Zero | Depth | PtrMod
                   | PtrOccupancy(wr: string, rd: string) | PtrIndex(ptr: string)
                   | Add(x: string, k: nat) | Sub(x: string, k: nat)
                   | Mod(l: NatExpr, r: NatExpr) | Ite(cond: BoolExpr, yes: NatExpr, no: NatExpr)

  datatype BoolExpr = BoolVar(x: string) | Eq(a: NatExpr, b: NatExpr) | Not(c: BoolExpr) | And(p: BoolExpr, q: BoolExpr)

  /** A conditional write of the pushed word. */
  datatype MemExpr = Mem | Update(idx: NatExpr) | MemIte(cond: BoolExpr, yes: MemExpr, no: MemExpr)

  datatype Vars = Vars(nats: string -> nat, bools: string -> bool)

  // ---- Natural numbers ---------------------------------------------------------------------------------

  /** Remainder as both readings take it: x itself when dividing by zero. */
  function Rem(x: nat, y: nat): nat { if y == 0 then x else x % y }

  function Minus(x: nat, y: nat): nat { if x >= y then x - y else 0 }

  function NatMeaning(e: NatExpr, depth: nat, v: Vars): nat {
    match e
    case Var(x) => v.nats(x)
    case Zero => 0
    case Depth => depth
    case PtrMod => 2 * depth
    case PtrOccupancy(wr, rd) => Rem(Minus(v.nats(wr) + 2 * depth, v.nats(rd)), 2 * depth)
    case PtrIndex(ptr) => Rem(v.nats(ptr), depth)
    case Add(x, k) => v.nats(x) + k
    case Sub(x, k) => Minus(v.nats(x), k)
    case Mod(l, r) => Rem(NatMeaning(l, depth, v), NatMeaning(r, depth, v))
    case Ite(c, yes, no) => if BoolMeaning(c, depth, v) then NatMeaning(yes, depth, v) else NatMeaning(no, depth, v)
  }

  predicate BoolMeaning(e: BoolExpr, depth: nat, v: Vars) {
    match e
    case BoolVar(x) => v.bools(x)
    case Eq(a, b) => NatMeaning(a, depth, v) == NatMeaning(b, depth, v)
    case Not(c) => !BoolMeaning(c, depth, v)
    case And(p, q) => BoolMeaning(p, depth, v) && BoolMeaning(q, depth, v)
  }

  function Write<D>(mem: seq<D>, i: nat, data: D): seq<D> { if i < |mem| then mem[i := data] else mem }

  function MemMeaning<D>(e: MemExpr, depth: nat, v: Vars, mem: seq<D>, data: D): seq<D> {
    match e
    case Mem => mem
    case Update(idx) => Write(mem, NatMeaning(idx, depth, v), data)
    case MemIte(c, yes, no) =>
      if BoolMeaning(c, depth, v) then MemMeaning(yes, depth, v, mem, data) else MemMeaning(no, depth, v, mem, data)
  }

  // ---- Bit vectors of width w --------------------------------------------------------------------------

  function Wrap(x: int, w: nat): nat {
    hide Pow2;
    x % Pow2(w)
  }

  function BvMeaning(e: NatExpr, depth: nat, w: nat, v: Vars): nat {
    match e
    case Var(x) => v.nats(x)
    case Zero => 0
    case Depth => Wrap(depth, w)
    case PtrMod => Wrap(2 * depth, w)
    case PtrOccupancy(wr, rd) =>
      Rem(Wrap(Wrap(v.nats(wr) + Wrap(2 * depth, w), w) - v.nats(rd), w), Wrap(2 * depth, w))
    case PtrIndex(ptr) => Rem(v.nats(ptr), Wrap(depth, w))
    case Add(x, k) => Wrap(v.nats(x) + Wrap(k, w), w)
    case Sub(x, k) => Wrap(v.nats(x) - Wrap(k, w), w)
    case Mod(l, r) => Rem(BvMeaning(l, depth, w, v), BvMeaning(r, depth, w, v))
    case Ite(c, yes, no) => if BvBool(c, depth, w, v) then BvMeaning(yes, depth, w, v) else BvMeaning(no, depth, w, v)
  }

  predicate BvBool(e: BoolExpr, depth: nat, w: nat, v: Vars) {
    match e
    case BoolVar(x) => v.bools(x)
    case Eq(a, b) => BvMeaning(a, depth, w, v) == BvMeaning(b, depth, w, v)
    case Not(c) => !BvBool(c, depth, w, v)
    case And(p, q) => BvBool(p, depth, w, v) && BvBool(q, depth, w, v)
  }

  // ---- The equations -----------------------------------------------------------------------------------

  /** The outputs and next-state equations of a construct. */
  datatype SyncIr = SyncIr(full: BoolExpr, empty: BoolExpr, pushReady: BoolExpr, popValid: BoolExpr,
                           writeIndex: NatExpr, readIndex: NatExpr, nextWr: NatExpr, nextRd: NatExpr, nextMem: MemExpr)

  const WR := "wrPtr"
  const RD := "rdPtr"
  const SP := "sp"
  const DO_PUSH := "doPush"
  const DO_POP := "doPop"

  const SYNC_FULL := Eq(PtrOccupancy(WR, RD), Depth)
  const SYNC_EMPTY := Eq(PtrOccupancy(WR, RD), Zero)

  const SYNC := SyncIr(SYNC_FULL, SYNC_EMPTY, Not(SYNC_FULL), Not(SYNC_EMPTY), PtrIndex(WR), PtrIndex(RD),
                       Ite(BoolVar(DO_PUSH), Mod(Add(WR, 1), PtrMod), Var(WR)),
                       Ite(BoolVar(DO_POP), Mod(Add(RD, 1), PtrMod), Var(RD)),
                       MemIte(BoolVar(DO_PUSH), Update(PtrIndex(WR)), Mem))

  datatype LifoIr = LifoIr(full: BoolExpr, empty: BoolExpr, pushReady: BoolExpr, popValid: BoolExpr,
                           writeIndex: NatExpr, readIndex: NatExpr, nextSp: NatExpr, nextMem: MemExpr)

  const LIFO_FULL := Eq(Var(SP), Depth)
  const LIFO_EMPTY := Eq(Var(SP), Zero)
  const LIFO_WRITE := Ite(BoolVar(DO_POP), Sub(SP, 1), Var(SP))

  const LIFO := LifoIr(LIFO_FULL, LIFO_EMPTY, Not(LIFO_FULL), Not(LIFO_EMPTY), LIFO_WRITE, Sub(SP, 1),
                       Ite(And(BoolVar(DO_PUSH), BoolVar(DO_POP)), Var(SP),
                           Ite(BoolVar(DO_PUSH), Add(SP, 1), Ite(BoolVar(DO_POP), Sub(SP, 1), Var(SP)))),
                       MemIte(BoolVar(DO_PUSH), Update(LIFO_WRITE), Mem))
}
