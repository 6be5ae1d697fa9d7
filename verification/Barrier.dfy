/** The spin barrier of runtime/arch_thread_rt.h as a system of atomic steps: any number of threads, any interleaving,
    any number of rounds, with 32-bit counters. */
module Barrier {
  import opened Sets

  const WORD := 0x1_0000_0000

  /** Where a thread is in `wait`: outside; after loading the generation; spinning on it; or, as the last to arrive,
      about to reset the count, then about to advance the generation. */
  datatype Pc = Outside | Loaded(gen: nat) | Spinning(gen: nat) | Resetting | Advancing

  /** The two shared words, and for each thread its place and how many waits it has returned from. */
  datatype State = State(count: nat, generation: nat, pc: seq<Pc>, returned: seq<nat>)

  function Init(target: nat): State {
    State(0, 0, seq(target, _ => Outside), seq(target, _ => 0))
  }

  function Goto(s: State, i: nat, pc: Pc): State
    requires i < |s.pc|
  {
    s.(pc := s.pc[i := pc])
  }

  function Return(s: State, i: nat): State
    requires i < |s.pc| == |s.returned|
  {
    s.(pc := s.pc[i := Outside], returned := s.returned[i := s.returned[i] + 1])
  }

  /** One atomic step of thread i. A spinning thread that sees its own generation changes nothing. */
  function Step(s: State, i: nat, target: nat): State
    requires i < |s.pc| == |s.returned|
  {
    match s.pc[i]
    case Outside => Goto(s, i, Loaded(s.generation))
    case Loaded(gen) =>
      var arrived := (s.count + 1) % WORD;
      Goto(s.(count := arrived), i, if arrived == target then Resetting else Spinning(gen))
    case Resetting => Goto(s.(count := 0), i, Advancing)
    case Advancing => Return(s.(generation := (s.generation + 1) % WORD), i)
    case Spinning(gen) => if s.generation == gen then s else Return(s, i)
  }

  // ---- Invariant ---------------------------------------------------------------------------------------

  /** Thread i has counted itself in for the wait that follows its r-th return. */
  predicate Arrived(s: State, r: nat, i: nat) {
    i < |s.pc| == |s.returned| && s.returned[i] == r && !s.pc[i].Outside? && !s.pc[i].Loaded?
  }

  /** Each thread is in round r, or still on its way out of the round before. */
  predicate InRound(s: State, r: nat, i: nat)
    requires i < |s.pc| == |s.returned|
  {
    match s.pc[i]
    case Outside => s.returned[i] == r
    case Loaded(gen) => s.returned[i] == r && gen == r % WORD
    case Spinning(gen) => (s.returned[i] == r && gen == r % WORD) || (s.returned[i] + 1 == r && gen == (r - 1) % WORD)
    case Resetting => s.returned[i] == r
    case Advancing => s.returned[i] == r
  }

  function ArrivedSet(s: State, r: nat): set<nat> { set i: nat | i < |s.pc| && Arrived(s, r, i) }

  predicate Last(pc: Pc) { pc.Resetting? || pc.Advancing? }

  /** Threads are still arriving, and the count says how many have. */
  ghost predicate Gathering(s: State, target: nat, r: nat)
    requires |s.pc| == |s.returned| == target
  {
    (forall i: nat :: i < target ==> !Last(s.pc[i])) && s.count == |ArrivedSet(s, r)| < target
  }

  /** All have arrived, and thread l alone is about to let them go. */
  ghost predicate Releasing(s: State, target: nat, r: nat, l: nat)
    requires |s.pc| == |s.returned| == target
  {
    l < target && Last(s.pc[l]) && (s.pc[l].Advancing? ==> s.count == 0)
    && forall i: nat :: i < target ==> Arrived(s, r, i) && (i != l ==> !Last(s.pc[i]))
  }

  ghost predicate Phase(s: State, target: nat, r: nat)
    requires |s.pc| == |s.returned| == target
  {
    Gathering(s, target, r) || exists l :: Releasing(s, target, r, l)
  }

  /** After r advances of the generation. */
  ghost predicate Inv(s: State, target: nat, r: nat) {
    && |s.pc| == |s.returned| == target && s.generation == r % WORD
    && (forall i: nat :: i < target ==> InRound(s, r, i))
    && Phase(s, target, r)
  }

  lemma InitInv(target: nat)
    requires target > 0
    ensures Inv(Init(target), target, 0)
  {
    assert ArrivedSet(Init(target), 0) == {};
  }

  lemma NextDiffers(r: nat)
    ensures (r + 1) % WORD != r % WORD
  {
  }

  /** Every atomic step keeps the invariant; only the last thread's advance starts the next round. */
  lemma StepKeeps(s: State, target: nat, r: nat, i: nat)
    requires 0 < target < WORD && Inv(s, target, r) && i < target
    ensures Inv(Step(s, i, target), target, if s.pc[i].Advancing? then r + 1 else r)
  {
    match s.pc[i]
    case Outside => EnterKeeps(s, target, r, i);
    case Loaded(_) => ArriveKeeps(s, target, r, i);
    case Resetting => ResetKeeps(s, target, r, i);
    case Advancing => AdvanceKeeps(s, target, r, i);
    case Spinning(gen) => if s.generation != gen { LeaveKeeps(s, target, r, i); }
  }

  lemma StillGathering(s: State, target: nat, r: nat, i: nat)
    requires |s.pc| == |s.returned| == target && Phase(s, target, r) && i < target && !Arrived(s, r, i)
    ensures Gathering(s, target, r)
  {
  }

  /** Steps of other threads leave a thread's round alone. */
  lemma OthersKeep(s: State, t: State, target: nat, r: nat, i: nat)
    requires |s.pc| == |s.returned| == target == |t.pc| == |t.returned| && i < target
    requires forall j: nat :: j < target && j != i ==> t.pc[j] == s.pc[j] && t.returned[j] == s.returned[j]
    requires forall j: nat :: j < target ==> InRound(s, r, j)
    requires InRound(t, r, i)
    ensures forall j: nat :: j < target ==> InRound(t, r, j)
    ensures forall j: nat :: j < target && j != i ==> (Arrived(t, r, j) <==> Arrived(s, r, j))
  {
    forall j: nat | j < target ensures InRound(t, r, j) {
      if j != i { assert InRound(s, r, j) && t.pc[j] == s.pc[j]; }
    }
  }

  lemma EnterKeeps(s: State, target: nat, r: nat, i: nat)
    requires Inv(s, target, r) && i < target && s.pc[i].Outside?
    ensures Inv(Step(s, i, target), target, r)
  {
    var t := Step(s, i, target);
    StillGathering(s, target, r, i);
    assert InRound(s, r, i);
    OthersKeep(s, t, target, r, i);
    assert ArrivedSet(t, r) == ArrivedSet(s, r);
    assert Gathering(t, target, r);
  }

  lemma ArriveKeeps(s: State, target: nat, r: nat, i: nat)
    requires 0 < target < WORD && Inv(s, target, r) && i < target && s.pc[i].Loaded?
    ensures Inv(Step(s, i, target), target, r)
  {
    var t := Step(s, i, target);
    StillGathering(s, target, r, i);
    assert InRound(s, r, i);
    ArrivedMore(s, target, r, i);
    SubsetCount(ArrivedSet(s, r) + {i}, Below(target));
    assert t.count == s.count + 1 by { SmallWord(s.count + 1); }
    OthersKeep(s, t, target, r, i);
    if t.count == target {
      forall j: nat | j < target ensures Arrived(t, r, j) && (j != i ==> !Last(t.pc[j])) {
        assert j in Below(target);
      }
      assert Releasing(t, target, r, i);
    } else {
      assert Gathering(t, target, r);
    }
  }

  lemma SmallWord(x: nat)
    ensures x < WORD ==> x % WORD == x
  {
  }

  lemma ArrivedMore(s: State, target: nat, r: nat, i: nat)
    requires |s.pc| == |s.returned| == target && i < target && s.pc[i].Loaded? && s.returned[i] == r
    ensures i !in ArrivedSet(s, r) && ArrivedSet(Step(s, i, target), r) == ArrivedSet(s, r) + {i}
  {
    hide Step;
    var t := Step(s, i, target);
    assert (t.pc[i].Resetting? || t.pc[i].Spinning?) && t.returned == s.returned && |t.pc| == |s.pc|
           && forall j: nat :: j < target && j != i ==> t.pc[j] == s.pc[j] by { ArriveStep(s, target, i); }
  }

  lemma ArriveStep(s: State, target: nat, i: nat)
    requires |s.pc| == |s.returned| == target && i < target && s.pc[i].Loaded?
    ensures var t := Step(s, i, target);
            |t.pc| == |s.pc| && (t.pc[i].Resetting? || t.pc[i].Spinning?) && t.returned == s.returned
            && forall j: nat :: j < target && j != i ==> t.pc[j] == s.pc[j]
  {
  }

  lemma ResetKeeps(s: State, target: nat, r: nat, i: nat)
    requires Inv(s, target, r) && i < target && s.pc[i].Resetting?
    ensures Inv(Step(s, i, target), target, r)
  {
    var t := Step(s, i, target);
    OthersKeep(s, t, target, r, i);
    var l :| Releasing(s, target, r, l);
    assert Releasing(t, target, r, i);
  }

  lemma AdvanceKeeps(s: State, target: nat, r: nat, i: nat)
    requires 0 < target && Inv(s, target, r) && i < target && s.pc[i].Advancing?
    ensures Inv(Step(s, i, target), target, r + 1)
  {
    var t := Step(s, i, target);
    var l :| Releasing(s, target, r, l);
    forall j: nat | j < target ensures InRound(t, r + 1, j) && !Last(t.pc[j]) && !Arrived(t, r + 1, j) {
      assert Arrived(s, r, j) && InRound(s, r, j);
    }
    assert ArrivedSet(t, r + 1) == {};
    assert Gathering(t, target, r + 1);
  }

  lemma LeaveKeeps(s: State, target: nat, r: nat, i: nat)
    requires Inv(s, target, r) && i < target && s.pc[i].Spinning? && s.pc[i].gen != s.generation
    ensures Inv(Step(s, i, target), target, r)
  {
    var t := Step(s, i, target);
    assert InRound(s, r, i);
    StillGathering(s, target, r, i);
    OthersKeep(s, t, target, r, i);
    assert ArrivedSet(t, r) == ArrivedSet(s, r);
    assert Gathering(t, target, r);
  }

  // ---- Whole runs --------------------------------------------------------------------------------------

  /** The state after the threads take atomic steps in the given order. */
  function Run(target: nat, order: seq<nat>): (s: State)
    requires forall k :: 0 <= k < |order| ==> order[k] < target
    ensures |s.pc| == |s.returned| == target
  {
    if order == [] then Init(target) else Step(Run(target, order[..|order| - 1]), order[|order| - 1], target)
  }

  lemma {:induction false} RunInv(target: nat, order: seq<nat>) returns (r: nat)
    requires 0 < target < 0x1_0000_0000 && forall k :: 0 <= k < |order| ==> order[k] < target
    ensures Inv(Run(target, order), target, r) && Run(target, order).generation == r % 0x1_0000_0000
    decreases |order|
  {
    if order == [] {
      InitInv(target);
      r := 0;
    } else {
      var i := order[|order| - 1];
      var r0 := RunInv(target, order[..|order| - 1]);
      var s := Run(target, order[..|order| - 1]);
      StepKeeps(s, target, r0, i);
      r := if s.pc[i].Advancing? then r0 + 1 else r0;
    }
  }

  /** No thread returns from its k-th wait before all have entered theirs, and no thread gets a round ahead. */
  lemma BarrierSafe(target: nat, order: seq<nat>, i: nat, j: nat)
    requires 0 < target < 0x1_0000_0000 && forall k :: 0 <= k < |order| ==> order[k] < target
    requires i < target && j < target
    ensures var s := Run(target, order);
            s.returned[i] <= s.returned[j] + if s.pc[j].Outside? then 0 else 1
  {
    var r := RunInv(target, order);
    var s := Run(target, order);
    assert InRound(s, r, i) && InRound(s, r, j);
  }

  /** While every thread is inside `wait`, some thread can take a step that changes something. */
  lemma BarrierProgress(target: nat, order: seq<nat>) returns (i: nat)
    requires 0 < target < 0x1_0000_0000 && forall k :: 0 <= k < |order| ==> order[k] < target
    requires forall j :: 0 <= j < target ==> !Run(target, order).pc[j].Outside?
    ensures i < target && Step(Run(target, order), i, target) != Run(target, order)
  {
    var r := RunInv(target, order);
    var s := Run(target, order);
    if forall j: nat :: j < target ==> Arrived(s, r, j) {
      assert ArrivedSet(s, r) == Below(target);
      i :| Releasing(s, target, r, i);
    } else {
      i :| i < target && !Arrived(s, r, i);
      assert InRound(s, r, i);
      if s.pc[i].Spinning? { NextDiffers(r - 1); }
    }
    assert Step(s, i, target).pc[i] != s.pc[i];
  }
}
