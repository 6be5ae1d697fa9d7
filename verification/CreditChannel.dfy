/** The credit channel equations of src/construct_formal_ir.rs: the sender's credit counter, and the receiver's
    occupancy counter and ring pointers, as registers of their declared widths. */
module CreditChannel {
  import opened BitVec

  function CountWidth(depth: nat): nat {
    if Clog2(depth + 1) == 0 then 1 else Clog2(depth + 1)
  }

  function PtrWidth(depth: nat): nat
    requires depth > 0
  {
    Clog2(depth)
  }

  /** One next-state equation: when the condition holds, the register takes the value, cut to its width. */
  datatype Equation = Equation(cond: bool, value: int)

  /** A register's next value: that of its first equation whose condition holds, or no change. */
  function Next(current: nat, equations: seq<Equation>, width: nat): nat {
    hide Pow2;
    if equations == [] then current
    else if equations[0].cond then equations[0].value % Pow2(width)
    else Next(current, equations[1..], width)
  }

  datatype Channel = Channel(credit: nat, occ: nat, head: nat, tail: nat)

  function Reset(depth: nat): Channel {
    Channel(Low(depth, CountWidth(depth)), 0, 0, 0)
  }

  function SenderEquations(c: Channel, send: bool, ret: bool): seq<Equation> {
    [Equation(send && !ret, c.credit - 1), Equation(!send && ret, c.credit + 1)]
  }

  function OccupancyEquations(c: Channel, send: bool, ret: bool): seq<Equation> {
    [Equation(send && !ret, c.occ + 1), Equation(!send && ret, c.occ - 1)]
  }

  function HeadEquations(c: Channel, depth: nat, ret: bool): seq<Equation>
    requires depth > 0
  {
    if PtrWidth(depth) == 0 then [] else [Equation(ret, (c.head + 1) % depth)]
  }

  function TailEquations(c: Channel, depth: nat, send: bool): seq<Equation>
    requires depth > 0
  {
    if PtrWidth(depth) == 0 then [] else [Equation(send, (c.tail + 1) % depth)]
  }

  /** Sender and receiver joined: a word sent arrives, and a credit returned is counted, at the same edge. */
  function Step(c: Channel, depth: nat, send: bool, ret: bool): Channel
    requires depth > 0
  {
    Channel(Next(c.credit, SenderEquations(c, send, ret), CountWidth(depth)),
            Next(c.occ, OccupancyEquations(c, send, ret), CountWidth(depth)),
            Next(c.head, HeadEquations(c, depth, ret), PtrWidth(depth)),
            Next(c.tail, TailEquations(c, depth, send), PtrWidth(depth)))
  }

  predicate CanSend(c: Channel) { c.credit != 0 }

  predicate Valid(c: Channel) { c.occ != 0 }

  /** Credits in hand and words held add up to the depth, and the write pointer is that many slots past the read
      pointer. */
  predicate Conserved(c: Channel, depth: nat) {
    depth > 0 && c.credit + c.occ == depth && c.head < depth && c.tail == (c.head + c.occ) % depth
  }

  lemma Widths(depth: nat)
    requires depth > 0
    ensures depth < Pow2(CountWidth(depth)) && depth <= Pow2(PtrWidth(depth)) && (PtrWidth(depth) == 0 <==> depth == 1)
  {
    Clog2IsCeiling(depth + 1);
    Clog2IsCeiling(depth);
  }

  lemma NextOfTwo(current: nat, a: Equation, b: Equation, width: nat)
    requires a.cond ==> 0 <= a.value < Pow2(width)
    requires b.cond ==> 0 <= b.value < Pow2(width)
    ensures Next(current, [a, b], width) == if a.cond then a.value else if b.cond then b.value else current
  {
    hide Pow2;
    if a.cond { DivModUnique(a.value, Pow2(width), 0, a.value); }
    if b.cond { DivModUnique(b.value, Pow2(width), 0, b.value); }
    assert [a, b][1..] == [b];
    assert [b][1..] == [] && Next(current, [], width) == current;
  }

  lemma NextOfOne(current: nat, a: Equation, width: nat)
    requires a.cond ==> 0 <= a.value < Pow2(width)
    ensures Next(current, [a], width) == if a.cond then a.value else current
  {
    hide Pow2;
    if a.cond { DivModUnique(a.value, Pow2(width), 0, a.value); }
    assert [a][1..] == [] && Next(current, [], width) == current;
  }

  /** An edge on which nothing is sent without credit and nothing returned without a word keeps the balance, and no
      counter wraps. */
  lemma StepConserves(c: Channel, depth: nat, send: bool, ret: bool)
    requires Conserved(c, depth) && (send ==> CanSend(c)) && (ret ==> Valid(c))
    ensures Conserved(Step(c, depth, send, ret), depth)
    ensures Step(c, depth, send, ret).occ == c.occ + (if send then 1 else 0) - (if ret then 1 else 0)
  {
    hide Pow2, Next, CountWidth, PtrWidth;
    Widths(depth);
    var w := CountWidth(depth);
    NextOfTwo(c.credit, Equation(send && !ret, c.credit - 1), Equation(!send && ret, c.credit + 1), w);
    NextOfTwo(c.occ, Equation(send && !ret, c.occ + 1), Equation(!send && ret, c.occ - 1), w);
    PointersMove(c, depth, send, ret);
  }

  lemma PointersMove(c: Channel, depth: nat, send: bool, ret: bool)
    requires Conserved(c, depth) && (ret ==> c.occ > 0) && (send ==> c.occ < depth)
    ensures var t := Step(c, depth, send, ret);
            t.head < depth && t.tail == (t.head + (c.occ + (if send then 1 else 0) - if ret then 1 else 0)) % depth
  {
    hide Pow2, Next, CountWidth, PtrWidth;
    Widths(depth);
    var t, occ := Step(c, depth, send, ret), c.occ + (if send then 1 else 0) - if ret then 1 else 0;
    if depth == 1 {
      NextOfNone(c, depth, send, ret);
    } else {
      NextOfOne(c.head, Equation(ret, (c.head + 1) % depth), PtrWidth(depth));
      NextOfOne(c.tail, Equation(send, (c.tail + 1) % depth), PtrWidth(depth));
      RingRem(c.head + 1, depth);
      RingRem(c.head + c.occ, depth);
      RingRem(c.tail + 1, depth);
      RingRem(t.head + occ, depth);
    }
  }

  lemma NextOfNone(c: Channel, depth: nat, send: bool, ret: bool)
    requires depth == 1 && c.head == 0 && c.tail == 0
    ensures Step(c, depth, send, ret).head == 0 && Step(c, depth, send, ret).tail == 0
  {
  }

  lemma RingRem(x: nat, d: nat)
    requires d > 0 && x < 2 * d
    ensures x % d == if x < d then x else x - d
  {
    if x < d { DivModUnique(x, d, 0, x); } else { DivModUnique(x, d, 1, x - d); }
  }

  /** The signals of a run obey the protocol in every cycle. */
  predicate Legal(depth: nat, cycles: seq<(bool, bool)>)
    requires depth > 0
  {
    cycles == []
    || (var earlier, (send, ret) := cycles[..|cycles| - 1], cycles[|cycles| - 1];
        Legal(depth, earlier) && (send ==> CanSend(Run(depth, earlier))) && (ret ==> Valid(Run(depth, earlier))))
  }

  function Run(depth: nat, cycles: seq<(bool, bool)>): Channel
    requires depth > 0
  {
    if cycles == [] then Reset(depth)
    else Step(Run(depth, cycles[..|cycles| - 1]), depth, cycles[|cycles| - 1].0, cycles[|cycles| - 1].1)
  }

  function Sent(cycles: seq<(bool, bool)>): nat {
    if cycles == [] then 0 else Sent(cycles[..|cycles| - 1]) + if cycles[|cycles| - 1].0 then 1 else 0
  }

  function Returned(cycles: seq<(bool, bool)>): nat {
    if cycles == [] then 0 else Returned(cycles[..|cycles| - 1]) + if cycles[|cycles| - 1].1 then 1 else 0
  }

  /** Over every legal run: nothing is lost or made up, the receiver never holds more than its depth, and the sender
      may send exactly when there is room. */
  lemma {:induction false} ChannelConserves(depth: nat, cycles: seq<(bool, bool)>)
    requires depth > 0 && Legal(depth, cycles)
    ensures var c := Run(depth, cycles);
            Conserved(c, depth) && c.occ == Sent(cycles) - Returned(cycles) && (CanSend(c) <==> c.occ < depth)
    decreases |cycles|
  {
    if cycles == [] {
      Widths(depth);
      LowOfSmall(depth, CountWidth(depth));
      RingRem(0, depth);
    } else {
      var earlier, last := cycles[..|cycles| - 1], cycles[|cycles| - 1];
      ChannelConserves(depth, earlier);
      StepConserves(Run(depth, earlier), depth, last.0, last.1);
    }
  }
}
