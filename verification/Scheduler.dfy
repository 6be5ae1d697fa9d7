/** The coroutine scheduler of runtime/arch_thread_rt.h. A coroutine is what it does when resumed: given the shared
    state (coroutine frames included) it runs to its next suspension. Other schedulers may change the shared state
    between two calls within one clock edge. */
module Scheduler {
  import opened Wrappers

  datatype WaitKind = Ready | WaitUntil | WaitCycles | Done

  datatype Slot<!W> = Slot(kind: WaitKind, cycles: nat, pred: W -> bool, lockWait: bool)

  /** How a coroutine stops: at a condition, at a resource lock, for some cycles, or for good. Waiting for no cycles
      at all does not suspend. */
  datatype Stop<!W> = Until(pred: W -> bool, lock: bool) | ForCycles(n: nat) | Finished

  predicate Suspends<W>(stop: Stop<W>) { stop.ForCycles? ==> stop.n >= 1 }

  /** What the awaiters write into the slot of a coroutine that stops. */
  function Parked<W>(s: Slot<W>, stop: Stop<W>): Slot<W> {
    match stop
    case Until(pred, lock) => Slot(WaitUntil, s.cycles, pred, lock)
    case ForCycles(n) => Slot(WaitCycles, n, s.pred, false)
    case Finished => s.(kind := Done)
  }

  /** A slot's wait condition at the start of a clock edge. */
  function Advanced<W>(s: Slot<W>, w: W): Slot<W> {
    match s.kind
    case WaitCycles => if s.cycles <= 1 then s.(cycles := 0, kind := Ready) else s.(cycles := s.cycles - 1)
    case WaitUntil => if s.pred(w) then s.(kind := Ready) else s
    case _ => s
  }

  function Bit(b: bool): nat { if b then 1 else 0 }

  /** A bound on what a slot can still do within this edge. */
  function Budget<W>(s: Slot<W>, resumed: bool, refired: bool): (b: int) {
    2 * (2 - Bit(resumed) - Bit(refired)) - Bit(s.kind == Ready)
  }

  function Budgets<W>(slots: seq<Slot<W>>, resumed: seq<bool>, refired: seq<bool>): int
    requires |slots| == |resumed| == |refired|
  {
    if slots == [] then 0
    else
      var k := |slots| - 1;
      Budgets(slots[..k], resumed[..k], refired[..k]) + Budget(slots[k], resumed[k], refired[k])
  }

  lemma {:induction false} BudgetsUpdate<W>(slots: seq<Slot<W>>, resumed: seq<bool>, refired: seq<bool>, i: nat,
                                            s: Slot<W>, r: bool, f: bool)
    requires i < |slots| == |resumed| == |refired|
    ensures Budgets(slots[i := s], resumed[i := r], refired[i := f])
         == Budgets(slots, resumed, refired) - Budget(slots[i], resumed[i], refired[i]) + Budget(s, r, f)
    decreases |slots|
  {
    var k := |slots| - 1;
    var a, b, c := slots[i := s], resumed[i := r], refired[i := f];
    if i == k {
      assert a[..k] == slots[..k] && b[..k] == resumed[..k] && c[..k] == refired[..k];
    } else {
      BudgetsUpdate(slots[..k], resumed[..k], refired[..k], i, s, r, f);
      assert a[..k] == slots[..k][i := s] && b[..k] == resumed[..k][i := r] && c[..k] == refired[..k][i := f];
    }
  }

  lemma {:induction false} BudgetsPositive<W>(slots: seq<Slot<W>>, resumed: seq<bool>, refired: seq<bool>)
    requires |slots| == |resumed| == |refired|
    requires forall i :: 0 <= i < |slots| ==> (slots[i].kind == Ready ==> !resumed[i])
    ensures Budgets(slots, resumed, refired) >= 0
    decreases |slots|
  {
    if slots != [] {
      var k := |slots| - 1;
      BudgetsPositive(slots[..k], resumed[..k], refired[..k]);
    }
  }

  /** A slot holds what its coroutine last asked for: it waits for the condition it stopped at, or for what is left of the
      cycles it asked for, until that has come about and it is ready; a finished one stays done. */
  ghost predicate Owed<W>(s: Slot<W>, last: Option<Stop<W>>, waited: nat) {
    match last
    case None => s.kind == Ready
    case Some(Until(p, lock)) => s.kind == Ready || (s.kind == WaitUntil && s.pred == p && s.lockWait == lock)
    case Some(ForCycles(n)) => if waited < n then s.kind == WaitCycles && s.cycles == n - waited && !s.lockWait else s.kind == Ready
    case Some(Finished) => s.kind == Done
  }

  /** A resumed slot is suspended again; it has been resumed once, and once more if its lock allowance is spent. */
  predicate SlotOk<W>(s: Slot<W>, resumed: bool, refired: bool, resumes: nat, atLock: bool) {
    && (s.kind == Ready ==> !resumed)
    && resumes == Bit(resumed) + Bit(refired)
    && (refired ==> atLock)
    && (refired && !resumed ==> s.kind == Ready)
    && (resumed && s.kind == WaitUntil && s.lockWait ==> atLock)
  }

  /** From one moment of an edge to a later one: a slot waiting for cycles is left alone, and counts only grow. */
  ghost predicate Kept<W>(slots0: seq<Slot<W>>, resumes0: seq<nat>, slots1: seq<Slot<W>>, resumes1: seq<nat>) {
    |slots0| == |resumes0| == |slots1| == |resumes1|
    && forall i :: 0 <= i < |slots0| ==>
                     resumes1[i] >= resumes0[i]
                     && (slots0[i].kind == WaitCycles ==> slots1[i] == slots0[i] && resumes1[i] == resumes0[i])
                     && (slots0[i].kind == Done ==> slots1[i].kind == Done && resumes1[i] == resumes0[i])
  }

  lemma KeptOne<W>(s0: seq<Slot<W>>, r0: seq<nat>, s1: seq<Slot<W>>, r1: seq<nat>, i: nat, s: Slot<W>)
    requires Kept(s0, r0, s1, r1) && i < |s1| && s1[i] == s0[i] && s1[i].kind == Ready
    ensures Kept(s0, r0, s1[i := s], r1[i := r1[i] + 1])
    ensures r1[i] + 1 > r0[i] && r1[i := r1[i] + 1] != r0
  {
    assert r1[i := r1[i] + 1][i] > r0[i];
  }

  lemma KeptSelf<W>(s: seq<Slot<W>>, r: seq<nat>)
    requires |s| == |r|
    ensures Kept(s, r, s, r)
  {
  }

  lemma RanStays<W>(s0: seq<Slot<W>>, r0: seq<nat>, s1: seq<Slot<W>>, r1: seq<nat>, s2: seq<Slot<W>>, r2: seq<nat>)
    requires Kept(s0, r0, s1, r1) && Kept(s1, r1, s2, r2) && Ran(s0, r0, r1)
    ensures Ran(s0, r0, r2)
  {
  }

  lemma KeptTrans<W>(s0: seq<Slot<W>>, r0: seq<nat>, s1: seq<Slot<W>>, r1: seq<nat>, s2: seq<Slot<W>>, r2: seq<nat>)
    requires Kept(s0, r0, s1, r1) && Kept(s1, r1, s2, r2)
    ensures Kept(s0, r0, s2, r2)
    ensures r2 != r0 <==> r1 != r0 || r2 != r1
  {
    if r1 != r0 {
      var i :| 0 <= i < |r0| && r1[i] != r0[i];
      assert r2[i] > r0[i];
    } else if r2 != r1 {
      var i :| 0 <= i < |r0| && r2[i] != r1[i];
      assert r2[i] > r0[i];
    }
  }

  /** A ready slot has run. */
  ghost predicate Ran<W>(slots0: seq<Slot<W>>, resumes0: seq<nat>, resumes1: seq<nat>) {
    |slots0| == |resumes0| == |resumes1|
    && forall i :: 0 <= i < |slots0| && slots0[i].kind == Ready ==> resumes1[i] > resumes0[i]
  }

  /** What happens within an edge: a ready coroutine is resumed, or a slot whose condition holds becomes ready. */
  datatype Event = Resumed(i: nat) | Woken(i: nat)

  datatype Moment<!W> = Moment(slots: seq<Slot<W>>, w: W)

  ghost predicate CanHappen<W>(m: Moment<W>, e: Event) {
    e.i < |m.slots|
    && match e
       case Resumed(i) => m.slots[i].kind == Ready
       case Woken(i) => m.slots[i].kind == WaitUntil && m.slots[i].pred(m.w)
  }

  function After<W>(coroutine: (nat, W) -> (Stop<W>, W), m: Moment<W>, e: Event): Moment<W>
    requires e.i < |m.slots|
  {
    match e
    case Resumed(i) =>
      var (stop, w) := coroutine(i, m.w);
      Moment(m.slots[i := Parked(m.slots[i], stop)], w)
    case Woken(i) => Moment(m.slots[i := m.slots[i].(kind := Ready)], m.w)
  }

  /** Slots and shared state came about by these events, each possible when it happened. */
  ghost predicate Replays<W>(coroutine: (nat, W) -> (Stop<W>, W), m0: Moment<W>, events: seq<Event>, m: Moment<W>)
    decreases |events|
  {
    if events == [] then m == m0
    else CanHappen(m0, events[0]) && Replays(coroutine, After(coroutine, m0, events[0]), events[1..], m)
  }

  lemma {:induction false} ReplaysMore<W>(coroutine: (nat, W) -> (Stop<W>, W), m0: Moment<W>,
                                          events: seq<Event>, m: Moment<W>, e: Event)
    requires Replays(coroutine, m0, events, m) && CanHappen(m, e)
    ensures Replays(coroutine, m0, events + [e], After(coroutine, m, e))
    decreases |events|
  {
    if events == [] {
      assert (events + [e])[1..] == [];
      assert Replays(coroutine, After(coroutine, m, e), [], After(coroutine, m, e));
    } else {
      ReplaysMore(coroutine, After(coroutine, m0, events[0]), events[1..], m, e);
      assert (events + [e])[1..] == events[1..] + [e];
    }
  }

  lemma ReplaysNone<W>(coroutine: (nat, W) -> (Stop<W>, W), m: Moment<W>)
    ensures Replays(coroutine, m, [], m)
  {
  }

  lemma {:induction false} ReplaysJoin<W>(coroutine: (nat, W) -> (Stop<W>, W), m0: Moment<W>, a: seq<Event>, m1: Moment<W>,
                                          b: seq<Event>, m2: Moment<W>)
    requires Replays(coroutine, m0, a, m1) && Replays(coroutine, m1, b, m2)
    ensures Replays(coroutine, m0, a + b, m2)
    decreases |a|
  {
    if a == [] {
      assert a + b == b;
    } else {
      ReplaysJoin(coroutine, After(coroutine, m0, a[0]), a[1..], m1, b, m2);
      assert (a + b)[1..] == a[1..] + b;
    }
  }

  /** How often coroutine i is resumed. */
  function Resumes(events: seq<Event>, i: nat): nat {
    if events == [] then 0 else Bit(events[0] == Resumed(i)) + Resumes(events[1..], i)
  }

  lemma {:induction false} ResumesJoin(a: seq<Event>, b: seq<Event>, i: nat)
    ensures Resumes(a + b, i) == Resumes(a, i) + Resumes(b, i)
    decreases |a|
  {
    if a == [] {
      assert a + b == b;
    } else {
      ResumesJoin(a[1..], b, i);
      assert (a + b)[1..] == a[1..] + b;
    }
  }

  /** The counts grew by what the events say. */
  ghost predicate Counted(resumes0: seq<nat>, events: seq<Event>, resumes1: seq<nat>) {
    |resumes0| == |resumes1| && forall i: nat :: i < |resumes0| ==> resumes1[i] == resumes0[i] + Resumes(events, i)
  }

  lemma CountedJoin(r0: seq<nat>, a: seq<Event>, r1: seq<nat>, b: seq<Event>, r2: seq<nat>)
    requires Counted(r0, a, r1) && Counted(r1, b, r2)
    ensures Counted(r0, a + b, r2)
  {
    forall i: nat | i < |r0| ensures r2[i] == r0[i] + Resumes(a + b, i) { ResumesJoin(a, b, i); }
  }

  lemma CountedNone(r: seq<nat>)
    ensures Counted(r, [], r)
  {
  }

  lemma CountedOne(r: seq<nat>, e: Event)
    requires e.i < |r|
    ensures Counted(r, [e], if e.Resumed? then r[e.i := r[e.i] + 1] else r)
  {
    assert [e][1..] == [];
    forall i: nat ensures Resumes([e], i) == Bit(e.Resumed? && e.i == i) {
      assert Resumes([e], i) == Bit(e == Resumed(i)) + Resumes([], i);
    }
  }

  /** What a coroutine asked for has come about: its condition holds, or the edges it asked for have begun. */
  predicate Due<W>(last: Option<Stop<W>>, waited: nat, w: W) {
    match last
    case Some(Until(p, _)) => p(w)
    case Some(ForCycles(n)) => waited >= n
    case _ => false
  }

  lemma OwedAdvances<W>(s: Slot<W>, last: Option<Stop<W>>, waited: nat, w: W)
    requires Owed(s, last, waited)
    ensures Owed(Advanced(s, w), last, waited + 1)
    ensures s.kind != Ready ==> (Advanced(s, w).kind == Ready <==> Due(last, waited + 1, w))
  {
  }

  // ---- What the coroutines asked for -----------------------------------------------------------------------

  /** Of every coroutine: how it last stopped, how many edges have begun since, and whether it has stopped at a lock in this
      edge. */
  datatype History<!W> = History(last: seq<Option<Stop<W>>>, waited: seq<nat>, atLock: seq<bool>)

  ghost predicate HistoryOf<W>(h: History<W>, n: nat) { |h.last| == |h.waited| == |h.atLock| == n }

  function Told<W>(h: History<W>, i: nat, stop: Stop<W>): History<W>
    requires i < |h.last| == |h.waited| == |h.atLock|
  {
    History(h.last[i := Some(stop)], h.waited[i := 0], h.atLock[i := h.atLock[i] || AtLock(stop)])
  }

  /** One edge more, and no lock stops in it yet. */
  function EdgeBegun<W>(h: History<W>): History<W> {
    History(h.last, seq(|h.waited|, k requires 0 <= k < |h.waited| => h.waited[k] + 1), seq(|h.atLock|, _ => false))
  }

  /** What one event does to the shared state and the history: a resumed coroutine changes the state and says how it stops. */
  function Next<W>(coroutine: (nat, W) -> (Stop<W>, W), w: W, h: History<W>, e: Event): (W, History<W>) {
    if e.Resumed? && e.i < |h.last| == |h.waited| == |h.atLock|
    then (coroutine(e.i, w).1, Told(h, e.i, coroutine(e.i, w).0))
    else (w, h)
  }

  function Onward<W>(coroutine: (nat, W) -> (Stop<W>, W), w: W, h: History<W>, events: seq<Event>): (W, History<W>)
    decreases |events|
  {
    if events == [] then (w, h)
    else
      var next := Next(coroutine, w, h, events[0]);
      Onward(coroutine, next.0, next.1, events[1..])
  }

  lemma {:induction false} OnwardMore<W>(coroutine: (nat, W) -> (Stop<W>, W), w: W, h: History<W>, events: seq<Event>, e: Event)
    ensures var on := Onward(coroutine, w, h, events);
            Onward(coroutine, w, h, events + [e]) == Next(coroutine, on.0, on.1, e)
    decreases |events|
  {
    hide Next;
    if events == [] {
      assert (events + [e])[1..] == [] && (events + [e])[0] == e;
      var next := Next(coroutine, w, h, e);
      assert Onward(coroutine, next.0, next.1, []) == next;
    } else {
      assert (events + [e])[1..] == events[1..] + [e] && (events + [e])[0] == events[0];
      var next := Next(coroutine, w, h, events[0]);
      OnwardMore(coroutine, next.0, next.1, events[1..], e);
    }
  }

  lemma {:induction false} OnwardJoin<W>(coroutine: (nat, W) -> (Stop<W>, W), w: W, h: History<W>, a: seq<Event>, b: seq<Event>)
    ensures var on := Onward(coroutine, w, h, a); Onward(coroutine, w, h, a + b) == Onward(coroutine, on.0, on.1, b)
    decreases |a|
  {
    hide Next;
    if a == [] {
      assert a + b == b;
    } else {
      assert (a + b)[1..] == a[1..] + b && (a + b)[0] == a[0];
      var next := Next(coroutine, w, h, a[0]);
      OnwardJoin(coroutine, next.0, next.1, a[1..], b);
    }
  }

  /** Slots, counts, shared state and history all came about by these events. */
  ghost predicate Happened<W>(coroutine: (nat, W) -> (Stop<W>, W), m0: Moment<W>, r0: seq<nat>, h0: History<W>,
                              events: seq<Event>, m: Moment<W>, r: seq<nat>, h: History<W>) {
    Replays(coroutine, m0, events, m) && Counted(r0, events, r) && Onward(coroutine, m0.w, h0, events) == (m.w, h)
  }

  lemma HappenedNone<W>(coroutine: (nat, W) -> (Stop<W>, W), m: Moment<W>, r: seq<nat>, h: History<W>)
    ensures Happened(coroutine, m, r, h, [], m, r, h)
  {
    ReplaysNone(coroutine, m);
    CountedNone(r);
  }

  lemma HappenedMore<W>(coroutine: (nat, W) -> (Stop<W>, W), m0: Moment<W>, r0: seq<nat>, h0: History<W>, events: seq<Event>,
                        m: Moment<W>, r: seq<nat>, h: History<W>, e: Event)
    requires Happened(coroutine, m0, r0, h0, events, m, r, h) && CanHappen(m, e)
    requires |m.slots| == |r| && HistoryOf(h, |r|)
    ensures Happened(coroutine, m0, r0, h0, events + [e], After(coroutine, m, e), if e.Resumed? then r[e.i := r[e.i] + 1] else r,
                     Next(coroutine, m.w, h, e).1)
  {
    hide Replays, Counted, Onward;
    ReplaysMore(coroutine, m0, events, m, e);
    CountedOne(r, e);
    CountedJoin(r0, events, r, [e], if e.Resumed? then r[e.i := r[e.i] + 1] else r);
    OnwardMore(coroutine, m0.w, h0, events, e);
  }

  lemma HappenedJoin<W>(coroutine: (nat, W) -> (Stop<W>, W), m0: Moment<W>, r0: seq<nat>, h0: History<W>, a: seq<Event>,
                        m1: Moment<W>, r1: seq<nat>, h1: History<W>, b: seq<Event>, m2: Moment<W>, r2: seq<nat>, h2: History<W>)
    requires Happened(coroutine, m0, r0, h0, a, m1, r1, h1) && Happened(coroutine, m1, r1, h1, b, m2, r2, h2)
    ensures Happened(coroutine, m0, r0, h0, a + b, m2, r2, h2)
  {
    hide Replays, Counted, Onward;
    ReplaysJoin(coroutine, m0, a, m1, b, m2);
    CountedJoin(r0, a, r1, b, r2);
    OnwardJoin(coroutine, m0.w, h0, a, b);
  }

  /** Some check within the events finds p true for coroutine i. */
  ghost predicate FoundTrue<W>(coroutine: (nat, W) -> (Stop<W>, W), w: W, h: History<W>, events: seq<Event>, i: nat, p: W -> bool) {
    exists k :: 0 <= k < |events| && events[k] == Woken(i) && p(Onward(coroutine, w, h, events[..k]).0)
  }

  /** A coroutine that is not resumed says nothing new. */
  lemma {:induction false} Untold<W>(coroutine: (nat, W) -> (Stop<W>, W), w: W, h: History<W>, events: seq<Event>, i: nat)
    requires HistoryOf(h, |h.last|) && i < |h.last|
    ensures var on := Onward(coroutine, w, h, events).1;
            HistoryOf(on, |h.last|)
            && (Resumes(events, i) == 0 ==> on.last[i] == h.last[i] && on.waited[i] == h.waited[i])
    decreases |events|
  {
    if events != [] {
      var next := Next(coroutine, w, h, events[0]);
      Untold(coroutine, next.0, next.1, events[1..], i);
    }
  }

  /** Within an edge: a coroutine not resumed since has said nothing new. */
  ghost predicate Silent<W>(h0: History<W>, r0: seq<nat>, h: History<W>, r: seq<nat>) {
    HistoryOf(h0, |r0|) && HistoryOf(h, |r0|) && |r| == |r0|
    && forall i :: 0 <= i < |r0| && r[i] == r0[i] ==> h.last[i] == h0.last[i] && h.waited[i] == h0.waited[i]
  }

  lemma HappenedSilent<W>(coroutine: (nat, W) -> (Stop<W>, W), m0: Moment<W>, r0: seq<nat>, h0: History<W>, events: seq<Event>,
                          m: Moment<W>, r: seq<nat>, h: History<W>)
    requires Happened(coroutine, m0, r0, h0, events, m, r, h) && HistoryOf(h0, |r0|)
    ensures HistoryOf(h, |r0|) && Silent(h0, r0, h, r)
  {
    hide Replays, Onward;
    if |r0| > 0 { Untold(coroutine, m0.w, h0, events, 0); } else { StillNone(coroutine, m0.w, h0, events); }
    forall i | 0 <= i < |r0| && r[i] == r0[i] ensures h.last[i] == h0.last[i] && h.waited[i] == h0.waited[i] {
      Untold(coroutine, m0.w, h0, events, i);
    }
  }

  lemma {:induction false} StillNone<W>(coroutine: (nat, W) -> (Stop<W>, W), w: W, h: History<W>, events: seq<Event>)
    requires HistoryOf(h, 0)
    ensures HistoryOf(Onward(coroutine, w, h, events).1, 0)
    decreases |events|
  {
    if events != [] { StillNone(coroutine, w, h, events[1..]); }
  }

  /** Not resumed early, a coroutine's condition is false: one not resumed in this edge, or resumed once and now stopped at a
      lock, waits because what it stopped at does not hold. */
  predicate Rested<W>(last: Option<Stop<W>>, resumes: nat, w: W) {
    match last
    case Some(Until(p, lock)) => resumes == 0 || (lock && resumes == 1) ==> !p(w)
    case _ => true
  }

  /** A coroutine waiting for a condition is resumed only after the condition was found true. */
  lemma {:induction false} WokenFirst<W>(coroutine: (nat, W) -> (Stop<W>, W), m0: Moment<W>, h: History<W>, events: seq<Event>,
                                         m: Moment<W>, i: nat)
    requires Replays(coroutine, m0, events, m) && i < |m0.slots| && m0.slots[i].kind == WaitUntil && Resumes(events, i) > 0
    requires HistoryOf(h, |m0.slots|)
    ensures FoundTrue(coroutine, m0.w, h, events, i, m0.slots[i].pred)
    decreases |events|
  {
    var p := m0.slots[i].pred;
    if events[0] == Woken(i) {
      assert events[..0] == [];
      assert p(Onward(coroutine, m0.w, h, events[..0]).0);
    } else {
      var next := After(coroutine, m0, events[0]);
      var on := Next(coroutine, m0.w, h, events[0]);
      WokenFirst(coroutine, next, on.1, events[1..], m, i);
      var k :| 0 <= k < |events[1..]| && events[1..][k] == Woken(i) && p(Onward(coroutine, next.w, on.1, events[1..][..k]).0);
      assert events[..k + 1][1..] == events[1..][..k] && events[..k + 1][0] == events[0];
      assert events[k + 1] == Woken(i) && p(Onward(coroutine, m0.w, h, events[..k + 1]).0);
    }
  }

  /** Some event is a resume of coroutine i that ends at a lock. */
  ghost predicate StoppedAtLock<W>(coroutine: (nat, W) -> (Stop<W>, W), w: W, h: History<W>, events: seq<Event>, i: nat) {
    exists k :: 0 <= k < |events| && events[k] == Resumed(i) && AtLock(coroutine(i, Onward(coroutine, w, h, events[..k]).0).0)
  }

  predicate AtLock<W>(stop: Stop<W>) { stop.Until? && stop.lock }

  /** Only stopping at a lock marks a coroutine as stopped at a lock. */
  lemma {:induction false} LockMarks<W>(coroutine: (nat, W) -> (Stop<W>, W), w: W, h: History<W>, events: seq<Event>, i: nat)
    requires HistoryOf(h, |h.last|) && i < |h.last| && !h.atLock[i]
    ensures HistoryOf(Onward(coroutine, w, h, events).1, |h.last|)
    ensures Onward(coroutine, w, h, events).1.atLock[i] ==> StoppedAtLock(coroutine, w, h, events, i)
    decreases |events|
  {
    Untold(coroutine, w, h, events, i);
    if events != [] && Onward(coroutine, w, h, events).1.atLock[i] {
      var next := Next(coroutine, w, h, events[0]);
      if next.1.atLock[i] {
        assert events[..0] == [];
        assert events[0] == Resumed(i) && AtLock(coroutine(i, Onward(coroutine, w, h, events[..0]).0).0);
      } else {
        LockMarks(coroutine, next.0, next.1, events[1..], i);
        var k :| 0 <= k < |events[1..]| && events[1..][k] == Resumed(i)
                 && AtLock(coroutine(i, Onward(coroutine, next.0, next.1, events[1..][..k]).0).0);
        assert events[..k + 1][1..] == events[1..][..k] && events[..k + 1][0] == events[0];
        assert events[k + 1] == Resumed(i) && AtLock(coroutine(i, Onward(coroutine, w, h, events[..k + 1]).0).0);
      }
    }
  }

  lemma ResumedWoken<W>(coroutine: (nat, W) -> (Stop<W>, W), m0: Moment<W>, r0: seq<nat>, h0: History<W>, events: seq<Event>,
                        m: Moment<W>, r: seq<nat>, h: History<W>, i: nat, p: W -> bool, lock: bool)
    requires Happened(coroutine, m0, r0, h0, events, m, r, h) && i < |m0.slots| == |r0| && HistoryOf(h0, |r0|)
    requires m0.slots[i].kind != Ready && h0.last[i] == Some(Until(p, lock)) && r[i] > r0[i]
    requires Owed(m0.slots[i], h0.last[i], h0.waited[i])
    ensures FoundTrue(coroutine, m0.w, h0, events, i, p)
  {
    hide Replays, Onward;
    WokenFirst(coroutine, m0, h0, events, m, i);
  }

  /** What one edge does to a slot waiting for cycles: one cycle less, or a resume when none is left. */
  predicate TickedCycles<W>(before: Slot<W>, after: Slot<W>, resumes: nat) {
    before.kind == WaitCycles ==>
      if before.cycles <= 1 then resumes >= 1
      else after.kind == WaitCycles && after.cycles == before.cycles - 1 && resumes == 0
  }

  lemma SameCount<W>(s0: seq<Slot<W>>, r0: seq<nat>, s1: seq<Slot<W>>, r1: seq<nat>)
    requires Kept(s0, r0, s1, r1)
    ensures |s0| == |s1|
  {
  }

  lemma SilentTrans<W>(s0: seq<Slot<W>>, r0: seq<nat>, h0: History<W>, s1: seq<Slot<W>>, r1: seq<nat>, h1: History<W>,
                       s2: seq<Slot<W>>, r2: seq<nat>, h2: History<W>)
    requires Kept(s0, r0, s1, r1) && Kept(s1, r1, s2, r2) && Silent(h0, r0, h1, r1) && Silent(h1, r1, h2, r2)
    ensures Silent(h0, r0, h2, r2)
  {
  }

  lemma SilentAt<W>(h0: History<W>, r0: seq<nat>, h: History<W>, r: seq<nat>, i: nat)
    requires Silent(h0, r0, h, r) && i < |r0| && r[i] == r0[i]
    ensures HistoryOf(h0, |r0|) && HistoryOf(h, |r0|) && h.last[i] == h0.last[i] && h.waited[i] == h0.waited[i]
  {
  }

  lemma ReadyAt<W>(s0: seq<Slot<W>>, r0: seq<nat>, r: seq<nat>, i: nat)
    requires Ran(s0, r0, r) && i < |s0| && s0[i].kind == Ready
    ensures r[i] >= 1
  {
  }

  lemma EdgeOf<W>(before: Slot<W>, s0: seq<Slot<W>>, r0: seq<nat>, s1: seq<Slot<W>>, r1: seq<nat>, i: nat, w: W)
    requires Kept(s0, r0, s1, r1) && Ran(s0, r0, r1) && i < |s0| && s0[i] == Advanced(before, w) && r0[i] == 0
    ensures TickedCycles(before, s1[i], r1[i])
  {
  }

  class ThreadScheduler<W(!new)> {
    /** What each coroutine does when resumed. */
    const coroutine: (nat, W) -> (Stop<W>, W)
    var slots: seq<Slot<W>>
    var resumed: seq<bool>
    var lockRefired: seq<bool>
    /** How often each coroutine was resumed since the start of this clock edge, and what the coroutines asked for. */
    ghost var resumes: seq<nat>
    ghost var hist: History<W>

    /** All coroutines are ready to run at the first edge. */
    constructor (coroutine: (nat, W) -> (Stop<W>, W), n: nat, never: W -> bool)
      requires forall i: nat, w: W :: coroutine(i, w).0.ForCycles? ==> coroutine(i, w).0.n >= 1
      ensures Valid() && |slots| == n && this.coroutine == coroutine && forall i :: 0 <= i < n ==> hist.last[i] == None
    {
      this.coroutine := coroutine;
      slots := seq(n, _ => Slot(Ready, 0, never, false));
      resumed := seq(n, _ => false);
      lockRefired := seq(n, _ => false);
      resumes := seq(n, _ => 0);
      hist := History(seq(n, _ => None), seq(n, _ => 0), seq(n, _ => false));
    }

    ghost predicate Valid()
      reads this
    {
      && |slots| == |resumed| == |lockRefired| == |resumes| && HistoryOf(hist, |slots|)
      && (forall i: nat, w: W :: Suspends(coroutine(i, w).0))
      && (forall i :: 0 <= i < |slots| ==> SlotOk(slots[i], resumed[i], lockRefired[i], resumes[i], hist.atLock[i]))
      && forall i :: 0 <= i < |slots| ==> Owed(slots[i], hist.last[i], hist.waited[i])
    }

    /** The slot may still fire within this edge. */
    predicate Eligible(i: nat)
      requires i < |slots| == |resumed| == |lockRefired|
      reads this
    {
      slots[i].kind == WaitUntil && (!resumed[i] || (slots[i].lockWait && !lockRefired[i]))
    }

    /** Nothing more can happen in this edge: nobody is ready, and no eligible condition holds. */
    ghost predicate Quiet(w: W)
      requires |slots| == |resumed| == |lockRefired|
      reads this
    {
      forall i :: 0 <= i < |slots| ==> slots[i].kind != Ready && (Eligible(i) ==> !slots[i].pred(w))
    }

    /** The waits advance by one edge. A waiting coroutine becomes ready exactly if the condition it stopped at holds now, or
        if this edge is the last of the cycles it asked for. */
    method TickBegin(w: W)
      requires Valid()
      modifies this
      ensures Valid() && |slots| == old(|slots|) && hist.last == old(hist.last)
      ensures forall i :: 0 <= i < |slots| ==>
                            slots[i] == Advanced(old(slots)[i], w) && resumes[i] == 0
                            && hist.waited[i] == old(hist.waited[i]) + 1 && !hist.atLock[i]
      ensures forall i :: 0 <= i < |slots| && old(slots[i].kind) != Ready ==>
                            (slots[i].kind == Ready <==> Due(hist.last[i], hist.waited[i], w))
    {
      resumed := seq(|slots|, _ => false);
      lockRefired := seq(|slots|, _ => false);
      resumes := seq(|slots|, _ => 0);
      ghost var before := hist;
      hist := EdgeBegun(before);
      ghost var slots0 := slots;
      for i := 0 to |slots|
        invariant |slots| == |slots0| && resumed == seq(|slots|, _ => false) && lockRefired == seq(|slots|, _ => false)
        invariant resumes == seq(|slots|, _ => 0)
        invariant hist == EdgeBegun(before)
        invariant forall k :: 0 <= k < |slots| ==> slots[k] == if k < i then Advanced(slots0[k], w) else slots0[k]
      {
        var s := slots[i];
        if s.kind == WaitCycles {
          if s.cycles > 0 { s := s.(cycles := s.cycles - 1); }
          if s.cycles == 0 { s := s.(kind := Ready); }
        } else if s.kind == WaitUntil {
          if s.pred(w) { s := s.(kind := Ready); }
        }
        slots := slots[i := s];
      }
      forall k | 0 <= k < |slots|
        ensures Owed(slots[k], hist.last[k], hist.waited[k])
        ensures slots0[k].kind != Ready ==> (slots[k].kind == Ready <==> Due(hist.last[k], hist.waited[k], w))
      {
        OwedAdvances(slots0[k], before.last[k], before.waited[k], w);
      }
    }

    /** One clock edge's fixed-point loop. */
    method TickRun(w0: W) returns (progressed: bool, w: W, ghost events: seq<Event>)
      requires Valid()
      modifies this
      ensures Happened(coroutine, Moment(old(slots), w0), old(resumes), old(hist), events, Moment(slots, w), resumes, hist)
      ensures Valid() && Quiet(w)
      ensures forall i :: 0 <= i < |slots| ==> slots[i].kind != Ready && Rested(hist.last[i], resumes[i], w)
      ensures forall i, p, lock ::
                (0 <= i < |slots| && old(slots[i].kind) != Ready && old(hist.last[i]) == Some(Until(p, lock))
                 && resumes[i] > old(resumes[i])) ==> FoundTrue(coroutine, w0, old(hist), events, i, p)
      ensures Silent(old(hist), old(resumes), hist, resumes)
      ensures Kept(old(slots), old(resumes), slots, resumes) && Ran(old(slots), old(resumes), resumes)
      ensures progressed <==> resumes != old(resumes)
    {
      hide Budgets, Kept, Ran, Eligible, SlotOk, Happened, Owed;
      events := [];
      w := w0;
      progressed := false;
      KeptSelf(slots, resumes);
      HappenedNone(coroutine, Moment(slots, w), resumes, hist);
      var changed := true;
      ghost var first := true;
      ghost var slots0, resumes0, hist0 := slots, resumes, hist;
      while changed
        invariant Valid() && (!changed ==> !first && Quiet(w))
        invariant Kept(slots0, resumes0, slots, resumes) && (!first ==> Ran(slots0, resumes0, resumes))
        invariant first ==> slots == slots0 && resumes == resumes0
        invariant progressed <==> resumes != resumes0
        invariant Happened(coroutine, Moment(slots0, w0), resumes0, hist0, events, Moment(slots, w), resumes, hist)
        decreases Budgets(slots, resumed, lockRefired), changed
      {
        ghost var slots1, resumes1, w1, hist1 := slots, resumes, w, hist;
        var any, woke;
        ghost var ran, wakes;
        any, w, ran := ResumeSweep(w);
        HappenedJoin(coroutine, Moment(slots0, w0), resumes0, hist0, events, Moment(slots1, w1), resumes1, hist1, ran,
                     Moment(slots, w), resumes, hist);
        KeptTrans(slots0, resumes0, slots1, resumes1, slots, resumes);
        if !first { RanStays(slots0, resumes0, slots1, resumes1, slots, resumes); }
        ghost var slots2, resumes2, hist2 := slots, resumes, hist;
        woke, wakes := WakeSweep(w);
        HappenedJoin(coroutine, Moment(slots0, w0), resumes0, hist0, events + ran, Moment(slots2, w), resumes2, hist2, wakes,
                     Moment(slots, w), resumes, hist);
        events := events + ran + wakes;
        KeptTrans(slots0, resumes0, slots2, resumes2, slots, resumes);
        RanStays(slots0, resumes0, slots2, resumes2, slots, resumes);
        progressed := progressed || any;
        changed := any || woke;
        first := false;
        NonNegative();
      }
      AtRest(w);
      HappenedSilent(coroutine, Moment(slots0, w0), resumes0, hist0, events, Moment(slots, w), resumes, hist);
      forall i, p, lock |
        0 <= i < |slots0| && slots0[i].kind != Ready && hist0.last[i] == Some(Until(p, lock)) && resumes[i] > resumes0[i]
        ensures FoundTrue(coroutine, w0, hist0, events, i, p)
      {
        ResumedWoken(coroutine, Moment(slots0, w0), resumes0, hist0, events, Moment(slots, w), resumes, hist, i, p, lock);
      }
    }

    lemma AtRest(w: W)
      requires Valid() && Quiet(w)
      ensures forall i :: 0 <= i < |slots| ==> slots[i].kind != Ready && Rested(hist.last[i], resumes[i], w)
    {
      forall i | 0 <= i < |slots| ensures slots[i].kind != Ready && Rested(hist.last[i], resumes[i], w) {
        assert SlotOk(slots[i], resumed[i], lockRefired[i], resumes[i], hist.atLock[i]);
        assert Owed(slots[i], hist.last[i], hist.waited[i]);
      }
    }

    lemma NonNegative()
      requires Valid()
      ensures Budgets(slots, resumed, lockRefired) >= 0
    {
      assert forall i :: 0 <= i < |slots| ==> SlotOk(slots[i], resumed[i], lockRefired[i], resumes[i], hist.atLock[i]);
      BudgetsPositive(slots, resumed, lockRefired);
    }

    /** Resumes every ready slot not yet resumed. */
    method ResumeSweep(w0: W) returns (any: bool, w: W, ghost events: seq<Event>)
      requires Valid()
      modifies this
      ensures Happened(coroutine, Moment(old(slots), w0), old(resumes), old(hist), events, Moment(slots, w), resumes, hist)
      ensures Valid() && (forall i :: 0 <= i < |slots| ==> slots[i].kind != Ready)
      ensures Kept(old(slots), old(resumes), slots, resumes) && Ran(old(slots), old(resumes), resumes)
      ensures any <==> resumes != old(resumes)
      ensures if any then Budgets(slots, resumed, lockRefired) < old(Budgets(slots, resumed, lockRefired))
              else w == w0 && slots == old(slots) && resumed == old(resumed) && lockRefired == old(lockRefired)
    {
      hide Budgets, Happened, Kept, Owed;
      ghost var hist0 := hist;
      w := w0;
      any := false;
      KeptSelf(slots, resumes);
      events := [];
      HappenedNone(coroutine, Moment(slots, w), resumes, hist);
      ghost var slots0, resumes0 := slots, resumes;
      for i := 0 to |slots|
        invariant Valid() && |slots| == |slots0| && (forall k :: 0 <= k < i ==> slots[k].kind != Ready)
        invariant forall k :: i <= k < |slots| ==> slots[k] == slots0[k] && resumes[k] == resumes0[k]
        invariant Kept(slots0, resumes0, slots, resumes)
        invariant forall k :: 0 <= k < i && slots0[k].kind == Ready ==> resumes[k] > resumes0[k]
        invariant any <==> resumes != resumes0
        invariant Happened(coroutine, Moment(slots0, w0), resumes0, hist0, events, Moment(slots, w), resumes, hist)
        invariant if any then Budgets(slots, resumed, lockRefired) < old(Budgets(slots, resumed, lockRefired))
                  else w == w0 && slots == slots0 && resumed == old(resumed) && lockRefired == old(lockRefired)
      {
        if slots[i].kind == Ready && !resumed[i] {
          HappenedMore(coroutine, Moment(slots0, w0), resumes0, hist0, events, Moment(slots, w), resumes, hist, Resumed(i));
          events := events + [Resumed(i)];
          KeptOne(slots0, resumes0, slots, resumes, i, Parked(slots[i], coroutine(i, w).0));
          w := Resume(i, w);
          any := true;
        }
      }
    }

    /** Runs coroutine i to its next suspension. */
    method Resume(i: nat, w0: W) returns (w: W)
      requires Valid() && i < |slots| && slots[i].kind == Ready && !resumed[i]
      modifies this
      ensures Valid() && slots == old(slots)[i := Parked(old(slots[i]), coroutine(i, w0).0)] && slots[i].kind != Ready
      ensures w == coroutine(i, w0).1 && resumes == old(resumes)[i := old(resumes[i]) + 1]
      ensures hist == Told(old(hist), i, coroutine(i, w0).0)
      ensures Budgets(slots, resumed, lockRefired) == old(Budgets(slots, resumed, lockRefired)) - 1
    {
      hide Budgets;
      ghost var resumed0 := resumed;
      resumed := resumed[i := true];
      var stop, next := coroutine(i, w0).0, coroutine(i, w0).1;
      assert Suspends(stop);
      w := next;
      BudgetsUpdate(slots, resumed0, lockRefired, i, Parked(slots[i], stop), true, lockRefired[i]);
      assert lockRefired[i := lockRefired[i]] == lockRefired;
      slots := slots[i := Parked(slots[i], stop)];
      resumes := resumes[i := resumes[i] + 1];
      hist := Told(hist, i, stop);
    }

    /** Re-checks the conditions of the slots that may still fire; a lock waiter resumed in this edge spends its one
        allowance. */
    method WakeSweep(w: W) returns (woke: bool, ghost events: seq<Event>)
      requires Valid() && forall i :: 0 <= i < |slots| ==> slots[i].kind != Ready
      modifies this
      ensures Valid() && resumes == old(resumes) && Kept(old(slots), old(resumes), slots, resumes)
      ensures Happened(coroutine, Moment(old(slots), w), old(resumes), old(hist), events, Moment(slots, w), resumes, hist)
      ensures if woke then Budgets(slots, resumed, lockRefired) < old(Budgets(slots, resumed, lockRefired))
              else slots == old(slots) && resumed == old(resumed) && lockRefired == old(lockRefired) && Quiet(w)
    {
      hide Budgets, Happened, Owed;
      ghost var hist0 := hist;
      woke := false;
      events := [];
      HappenedNone(coroutine, Moment(slots, w), resumes, hist);
      ghost var slots0, resumes0 := slots, resumes;
      for i := 0 to |slots|
        invariant Valid() && |slots| == |slots0| && resumes == resumes0 && Kept(slots0, resumes0, slots, resumes)
        invariant hist == hist0
        invariant forall k :: i <= k < |slots| ==> slots[k] == slots0[k]
        invariant Happened(coroutine, Moment(slots0, w), resumes0, hist0, events, Moment(slots, w), resumes, hist)
        invariant if woke then Budgets(slots, resumed, lockRefired) < old(Budgets(slots, resumed, lockRefired))
                  else slots == slots0 && resumed == old(resumed) && lockRefired == old(lockRefired)
        invariant !woke ==> forall k :: 0 <= k < i ==> (Eligible(k) ==> !slots[k].pred(w))
      {
        if slots[i].kind == WaitUntil && (!resumed[i] || (slots[i].lockWait && !lockRefired[i])) && slots[i].pred(w) {
          HappenedMore(coroutine, Moment(slots0, w), resumes0, hist0, events, Moment(slots, w), resumes, hist, Woken(i));
          events := events + [Woken(i)];
          Wake(i);
          woke := true;
        }
      }
    }

    method Wake(i: nat)
      requires Valid() && i < |slots| && Eligible(i)
      modifies this
      ensures Valid() && slots == old(slots)[i := old(slots[i]).(kind := Ready)] && resumes == old(resumes) && hist == old(hist)
      ensures Budgets(slots, resumed, lockRefired) == old(Budgets(slots, resumed, lockRefired)) - 1
    {
      hide Budgets;
      BudgetsUpdate(slots, resumed, lockRefired, i, slots[i].(kind := Ready), false, resumed[i] || lockRefired[i]);
      ghost var refired0, resumed0 := lockRefired, resumed;
      if resumed[i] {
        lockRefired := lockRefired[i := true];
        resumed := resumed[i := false];
      }
      assert resumed == resumed0[i := false] && lockRefired == refired0[i := resumed0[i] || refired0[i]];
      slots := slots[i := slots[i].(kind := Ready)];
    }

    /** One clock edge. The loop is run once or more, each time on whatever the other schedulers left of the shared
        state; conditions are first checked in the state at the start of the edge. */
    method Tick(start: W, worlds: seq<W>) returns (w: W)
      requires Valid() && worlds != []
      modifies this
      ensures Valid() && Quiet(w) && |slots| == old(|slots|)
      ensures forall i :: 0 <= i < |slots| ==> TickedCycles(old(slots)[i], slots[i], resumes[i])
      ensures forall i :: 0 <= i < |slots| ==> slots[i].kind != Ready && Rested(hist.last[i], resumes[i], w)
      ensures forall i, p, lock :: 0 <= i < |slots| && old(hist.last[i]) == Some(Until(p, lock)) && p(start) ==> resumes[i] >= 1
      ensures forall i :: 0 <= i < |slots| && resumes[i] == 0 ==>
                            hist.last[i] == old(hist.last[i]) && hist.waited[i] == old(hist.waited[i]) + 1
    {
      hide Kept, Ran, Quiet, Silent, Happened, FoundTrue;
      TickBegin(start);
      ghost var slots1, resumes1, hist1 := slots, resumes, hist;
      var progressed;
      ghost var events;
      progressed, w, events := TickRun(worlds[0]);
      SameCount(slots1, resumes1, slots, resumes);
      for k := 1 to |worlds|
        invariant Valid() && Quiet(w) && |slots| == |slots1|
        invariant Kept(slots1, resumes1, slots, resumes) && Ran(slots1, resumes1, resumes)
        invariant Silent(hist1, resumes1, hist, resumes)
        invariant forall i :: 0 <= i < |slots| ==> slots[i].kind != Ready && Rested(hist.last[i], resumes[i], w)
      {
        ghost var slots2, resumes2, hist2 := slots, resumes, hist;
        progressed, w, events := TickRun(worlds[k]);
        SameCount(slots2, resumes2, slots, resumes);
        KeptTrans(slots1, resumes1, slots2, resumes2, slots, resumes);
        RanStays(slots1, resumes1, slots2, resumes2, slots, resumes);
        SilentTrans(slots1, resumes1, hist1, slots2, resumes2, hist2, slots, resumes, hist);
      }
      forall i, p, lock | 0 <= i < |slots| && old(hist.last[i]) == Some(Until(p, lock)) && p(start) ensures resumes[i] >= 1 {
        ReadyAt(slots1, resumes1, resumes, i);
      }
      forall i | 0 <= i < |slots| && resumes[i] == 0
        ensures hist.last[i] == old(hist.last[i]) && hist.waited[i] == old(hist.waited[i]) + 1
      {
        SilentAt(hist1, resumes1, hist, resumes, i);
      }
      forall i | 0 <= i < |slots| ensures TickedCycles(old(slots)[i], slots[i], resumes[i]) {
        assert slots1[i] == Advanced(old(slots)[i], start) && resumes1[i] == 0;
        EdgeOf(old(slots)[i], slots1, resumes1, slots, resumes, i, start);
      }
    }

    /** A coroutine that has just stopped for n cycles is resumed at exactly the n-th edge after, whatever the shared state
        at each edge, and however often the loop is run within it. */
    method WaitCyclesExactly(i: nat, n: nat, edges: seq<(W, seq<W>)>) returns (ghost counts: seq<nat>)
      requires Valid() && i < |slots| && slots[i].kind != Ready
      requires hist.last[i] == Some(ForCycles(n)) && hist.waited[i] == 0 && n == |edges|
      requires forall k :: 0 <= k < |edges| ==> edges[k].1 != []
      modifies this
      ensures Valid() && |counts| == n >= 1
      ensures forall k :: 0 <= k < n - 1 ==> counts[k] == 0
      ensures counts[n - 1] >= 1
    {
      hide Quiet, Rested;
      assert Owed(slots[i], hist.last[i], hist.waited[i]);
      counts := [];
      for k := 0 to n
        invariant Valid() && i < |slots| && |counts| == k
        invariant k < n ==> slots[i].kind == WaitCycles && slots[i].cycles == n - k
        invariant forall j :: 0 <= j < k && j < n - 1 ==> counts[j] == 0
        invariant k == n ==> counts[n - 1] >= 1
      {
        ghost var before := slots[i];
        var w := Tick(edges[k].0, edges[k].1);
        assert TickedCycles(before, slots[i], resumes[i]);
        counts := counts + [resumes[i]];
      }
    }

    /** A coroutine that has stopped at a condition is resumed in the first later edge at whose start the condition holds, even
        if another coroutine then falsifies it, unless it was resumed before, the condition having been found true within
        an edge. */
    method ResumedOnceTrue(i: nat, p: W -> bool, lock: bool, edges: seq<(W, seq<W>)>) returns (ghost counts: seq<nat>)
      requires Valid() && i < |slots| && slots[i].kind != Ready && hist.last[i] == Some(Until(p, lock))
      requires edges != [] && p(edges[|edges| - 1].0) && forall k :: 0 <= k < |edges| ==> edges[k].1 != []
      modifies this
      ensures Valid() && |counts| == |edges|
      ensures (forall k :: 0 <= k < |edges| - 1 ==> counts[k] == 0) ==> counts[|edges| - 1] >= 1
    {
      hide Quiet, Rested;
      counts := [];
      for k := 0 to |edges|
        invariant Valid() && i < |slots| && |counts| == k
        invariant (forall j :: 0 <= j < k ==> counts[j] == 0) ==> hist.last[i] == Some(Until(p, lock))
        invariant k == |edges| && (forall j :: 0 <= j < k - 1 ==> counts[j] == 0) ==> counts[k - 1] >= 1
      {
        ghost var before := counts;
        ghost var waiting := hist.last[i];
        var w := Tick(edges[k].0, edges[k].1);
        counts := counts + [resumes[i]];
        assert forall j :: 0 <= j < k ==> counts[j] == before[j];
        var next := k + 1;
        assert counts[k] == resumes[i];
        if forall j :: 0 <= j < next ==> counts[j] == 0 {
          assert forall j :: 0 <= j < k ==> before[j] == 0;
          assert counts[k] == 0 && hist.last[i] == waiting;
        }
      }
    }

    /** Within one edge, however often the loop is run: at most two resumes, and at most one without a lock stop. */
    lemma ResumeBound(i: nat)
      requires Valid() && i < |slots|
      ensures resumes[i] <= 2 && (!hist.atLock[i] ==> resumes[i] <= 1)
    {
      assert SlotOk(slots[i], resumed[i], lockRefired[i], resumes[i], hist.atLock[i]);
    }
  }
}
