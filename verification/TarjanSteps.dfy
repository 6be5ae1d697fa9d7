/** The remaining steps of the strongly-connected-components algorithm, each with the proof that it keeps
    the invariant: moving past an edge, lowering a low link, closing a frame, emitting a component. */
module TarjanSteps {
  import opened Graph
  import opened Tarjan

  // ---- Moving past an edge ---------------------------------------------------------------------------

  function Advance(s: State, i: nat): State
    requires i < |s.frames|
  {
    s.(frames := s.frames[i := Frame(s.frames[i].v, s.frames[i].pos + 1)])
  }

  /** Same nodes, numbers, low links, stacks and components; only edge positions may differ. */
  ghost predicate SameNodes(s: State, t: State) {
    && s.num == t.num && s.low == t.low && s.on == t.on && s.stack == t.stack && s.sccs == t.sccs && s.index == t.index
    && |s.frames| == |t.frames| && forall j: nat :: s.Node(j) == t.Node(j)
  }

  lemma SameKeeps(adj: Adj, s: State, t: State)
    requires SameNodes(s, t) && Numbers(s) && Stacked(s) && StackOrdered(s) && FramesOrdered(s) && FramesReach(adj, s)
    requires StackReach(adj, s) && Partition(s)
    ensures Numbers(t) && Stacked(t) && StackOrdered(t) && FramesOrdered(t) && FramesReach(adj, t)
    ensures StackReach(adj, t) && Partition(t)
  {
    hide Reach, Emitted;
    assert forall v: nat :: t.Num(v) == s.Num(v);
  }

  lemma SameFrames(adj: Adj, s: State, t: State)
    requires SameNodes(s, t) && ToFrames(adj, s) && LowSound(adj, s)
    ensures ToFrames(adj, t) && LowSound(adj, t)
  {
    hide Reach, HasFrame, LowOk;
    forall x: nat | x in t.stack ensures HasFrame(adj, t, x) {
      var i := FrameOf(adj, s, x);
      FrameIs(adj, t, x, i);
    }
    forall i: nat | i < |t.frames| ensures LowOk(adj, t, i) {
      LowAtMost(adj, s, i);
      assert LowOk(adj, s, i);
      var w := LowOf(adj, s, i);
      LowIs(adj, t, i, w);
    }
  }

  lemma SameOpen(s: State, t: State, v: nat)
    requires SameNodes(s, t)
    ensures Open(t, v) <==> Open(s, v)
  {
    if Open(s, v) {
      var i: nat :| i < |s.frames| && s.Node(i) == v;
      assert t.Node(i) == v;
    }
    if Open(t, v) {
      var i: nat :| i < |t.frames| && t.Node(i) == v;
      assert s.Node(i) == v;
    }
  }

  ghost predicate CanAdvance(adj: Adj, s: State, i: nat) {
    i < |s.frames| && s.frames[i].pos < |Out(adj, s.Node(i))|
    && var w := Out(adj, s.Node(i))[s.frames[i].pos];
       s.Visited(w) && (w in s.stack ==> s.Low(s.Node(i)) <= s.Num(w))
  }

  /** What advancing frame i changes. */
  ghost predicate Advanced(s: State, i: nat, t: State) {
    SameNodes(s, t) && i < |s.frames| && t.frames[i].pos == s.frames[i].pos + 1
    && (forall v: nat :: t.Num(v) == s.Num(v)) && (forall v: nat :: t.Low(v) == s.Low(v))
    && forall j: nat :: j < |s.frames| && j != i ==> t.frames[j].pos == s.frames[j].pos
  }

  lemma AdvanceIs(s: State, i: nat)
    requires i < |s.frames|
    ensures Advanced(s, i, Advance(s, i))
  {
  }

  lemma AdvanceFramed(adj: Adj, s: State, i: nat, t: State)
    requires CanAdvance(adj, s, i) && Advanced(s, i, t) && Framed(adj, s)
    ensures Framed(adj, t)
  {
    hide Out;
  }

  lemma AdvanceSeen(adj: Adj, s: State, i: nat, t: State, j: nat)
    requires CanAdvance(adj, s, i) && Advanced(s, i, t) && j < |t.frames| && Seen(adj, s, s.Node(j), s.frames[j].pos)
    ensures Seen(adj, t, t.Node(j), t.frames[j].pos)
  {
    hide Out;
  }

  lemma AdvanceExplored(adj: Adj, s: State, i: nat, t: State)
    requires CanAdvance(adj, s, i) && Advanced(s, i, t) && Explored(adj, s)
    ensures Explored(adj, t)
  {
    hide Open, Out;
    forall j: nat | j < |t.frames| ensures Seen(adj, t, t.Node(j), t.frames[j].pos) {
      AdvanceSeen(adj, s, i, t, j);
    }
    forall v: nat | t.Visited(v) && !Open(t, v) ensures Seen(adj, t, v, |Out(adj, v)|) {
      SameOpen(s, t, v);
      assert Seen(adj, s, v, |Out(adj, v)|);
    }
  }

  lemma AdvanceLowBounds(adj: Adj, s: State, i: nat, t: State)
    requires CanAdvance(adj, s, i) && Advanced(s, i, t) && LowBounds(adj, s)
    ensures LowBounds(adj, t)
  {
    hide Open;
    forall j: nat | j < |t.frames| ensures Bounded(adj, t, t.Node(j), t.frames[j].pos, t.Low(t.Node(j))) {
      assert Bounded(adj, s, s.Node(j), s.frames[j].pos, s.Low(s.Node(j)));
    }
    forall j, x | Between(t, j, x) && !Open(t, x) ensures Bounded(adj, t, x, |Out(adj, x)|, t.Low(t.Node(j))) {
      SameOpen(s, t, x);
      assert Between(s, j, x);
      assert Bounded(adj, s, x, |Out(adj, x)|, s.Low(s.Node(j)));
    }
  }

  /** Moving past an edge to a visited node keeps the invariant, if the low link already accounts for it. */
  lemma AdvanceKeeps(adj: Adj, s: State, i: nat)
    requires Inv(adj, s) && CanAdvance(adj, s, i)
    ensures Inv(adj, Advance(s, i))
  {
    hide Numbers, Stacked, Framed, StackOrdered, FramesOrdered, FramesReach, StackReach, ToFrames, Explored, LowBounds,
         LowSound, Components, Partition, Reach, WfAdj;
    var t := Advance(s, i);
    AdvanceIs(s, i);
    AdvanceFramed(adj, s, i, t);
    AdvanceExplored(adj, s, i, t);
    AdvanceLowBounds(adj, s, i, t);
    SameKeeps(adj, s, t);
    SameFrames(adj, s, t);
  }

  // ---- Lowering a low link -------------------------------------------------------------------------------

  function Lower(s: State, i: nat, low: int): State
    requires s.Node(i) < |s.low|
  {
    s.(low := s.low[s.Node(i) := low])
  }

  ghost predicate CanLower(adj: Adj, s: State, i: nat, w: nat) {
    i < |s.frames| && s.Node(i) < |s.low| && w in s.stack && Reach(adj, s.Node(i), w) && s.Num(w) <= s.Low(s.Node(i))
    && FramesOrdered(s)
  }

  lemma LowerLows(adj: Adj, s: State, i: nat, w: nat)
    requires CanLower(adj, s, i, w) && LowBounds(adj, s) && LowSound(adj, s)
    ensures var t := Lower(s, i, s.Num(w)); LowBounds(adj, t) && LowSound(adj, t)
  {
    hide Open, Reach, LowOk;
    var t := Lower(s, i, s.Num(w));
    assert forall v: nat :: t.Low(v) == if v == s.Node(i) then s.Num(w) else s.Low(v);
    assert forall j: nat :: t.Node(j) == s.Node(j);
    forall j: nat | j < |t.frames|
      ensures Bounded(adj, t, t.Node(j), t.frames[j].pos, t.Low(t.Node(j)))
      ensures LowOk(adj, t, j)
    {
      assert Bounded(adj, s, s.Node(j), s.frames[j].pos, s.Low(s.Node(j)));
      LowAtMost(adj, s, j);
      if j == i {
        LowIs(adj, t, j, w);
      } else {
        assert LowOk(adj, s, j);
        var x := LowOf(adj, s, j);
        assert s.Node(j) != s.Node(i) by {
          if j < i {
            assert s.Num(s.Node(j)) < s.Num(s.Node(i));
          } else {
            assert s.Num(s.Node(i)) < s.Num(s.Node(j));
          }
        }
        LowIs(adj, t, j, x);
      }
    }
    forall j, x | Between(t, j, x) && !Open(t, x) ensures Bounded(adj, t, x, |Out(adj, x)|, t.Low(t.Node(j))) {
      LowerOpen(s, i, s.Num(w), x);
      assert Between(s, j, x);
      assert Bounded(adj, s, x, |Out(adj, x)|, s.Low(s.Node(j)));
    }
  }

  lemma LowerOpen(s: State, i: nat, low: int, v: nat)
    requires s.Node(i) < |s.low|
    ensures Open(Lower(s, i, low), v) <==> Open(s, v)
  {
    var t := Lower(s, i, low);
    assert forall j: nat :: t.Node(j) == s.Node(j);
  }

  lemma LowerFrames(adj: Adj, s: State, i: nat, low: int)
    requires s.Node(i) < |s.low| && ToFrames(adj, s) && Explored(adj, s)
    ensures ToFrames(adj, Lower(s, i, low)) && Explored(adj, Lower(s, i, low))
  {
    hide Reach, HasFrame, Open;
    var t := Lower(s, i, low);
    assert forall j: nat :: t.Node(j) == s.Node(j);
    forall x: nat | x in t.stack ensures HasFrame(adj, t, x) {
      var i := FrameOf(adj, s, x);
      FrameIs(adj, t, x, i);
    }
    forall j: nat | j < |t.frames| ensures Seen(adj, t, t.Node(j), t.frames[j].pos) {
      assert Seen(adj, s, s.Node(j), s.frames[j].pos);
    }
    forall v: nat | t.Visited(v) && !Open(t, v) ensures Seen(adj, t, v, |Out(adj, v)|) {
      LowerOpen(s, i, low, v);
      assert Seen(adj, s, v, |Out(adj, v)|);
    }
  }

  lemma LowerRest(adj: Adj, s: State, i: nat, low: int)
    requires s.Node(i) < |s.low| && Numbers(s) && Stacked(s) && Framed(adj, s) && StackOrdered(s) && FramesOrdered(s)
    requires FramesReach(adj, s) && StackReach(adj, s) && Partition(s)
    ensures var t := Lower(s, i, low);
            Numbers(t) && Stacked(t) && Framed(adj, t) && StackOrdered(t) && FramesOrdered(t)
            && FramesReach(adj, t) && StackReach(adj, t) && Partition(t)
  {
    hide Reach, Emitted;
    var t := Lower(s, i, low);
    assert forall v: nat :: t.Num(v) == s.Num(v);
    assert forall j: nat :: t.Node(j) == s.Node(j);
  }

  /** Lowering a frame's link to the number of a stacked node it reaches keeps the invariant. */
  lemma LowerKeeps(adj: Adj, s: State, i: nat, w: nat)
    requires Inv(adj, s) && CanLower(adj, s, i, w)
    ensures Inv(adj, Lower(s, i, s.Num(w)))
  {
    hide Numbers, Stacked, Framed, StackOrdered, FramesOrdered, FramesReach, StackReach, ToFrames, Explored, LowBounds,
         LowSound, Components, Partition, Reach, WfAdj;
    LowerLows(adj, s, i, w);
    LowerFrames(adj, s, i, s.Num(w));
    LowerRest(adj, s, i, s.Num(w));
  }

  // ---- Closing a frame ---------------------------------------------------------------------------------------

  function Close(s: State): State
    requires s.frames != []
  {
    s.(frames := s.frames[..|s.frames| - 1])
  }

  ghost predicate CanClose(adj: Adj, s: State) {
    |s.frames| >= 2 && s.frames[|s.frames| - 1].pos == |Out(adj, Top(s))|
    && s.Low(s.Node(|s.frames| - 2)) <= s.Low(Top(s)) < s.Num(Top(s))
  }

  lemma CloseNodes(s: State)
    requires s.frames != []
    ensures var t := Close(s); forall j: nat :: j < |t.frames| ==> t.Node(j) == s.Node(j) && t.frames[j] == s.frames[j]
  {
  }

  lemma CloseOpen(s: State, v: nat)
    requires s.frames != [] && FramesOrdered(s)
    ensures Open(Close(s), v) <==> Open(s, v) && v != Top(s)
  {
    CloseNodes(s);
    if Open(s, v) && v != Top(s) {
      var i: nat :| i < |s.frames| && s.Node(i) == v;
      assert Close(s).Node(i) == v;
    }
    if Open(Close(s), v) {
      var i: nat :| i < |s.frames| - 1 && Close(s).Node(i) == v;
      assert s.Num(s.Node(i)) < s.Num(Top(s));
      assert s.Node(i) == v;
    }
  }

  lemma CloseRest(adj: Adj, s: State)
    requires s.frames != [] && Numbers(s) && Stacked(s) && Framed(adj, s) && StackOrdered(s) && FramesOrdered(s)
    requires FramesReach(adj, s) && StackReach(adj, s) && Partition(s)
    ensures var t := Close(s);
            Numbers(t) && Stacked(t) && Framed(adj, t) && StackOrdered(t) && FramesOrdered(t)
            && FramesReach(adj, t) && StackReach(adj, t) && Partition(t)
  {
    hide Reach, Emitted;
    CloseNodes(s);
    var t := Close(s);
    assert forall v: nat :: t.Num(v) == s.Num(v);
  }

  lemma CloseToFrames(adj: Adj, s: State)
    requires CanClose(adj, s) && FramesOrdered(s) && ToFrames(adj, s) && LowSound(adj, s)
    ensures ToFrames(adj, Close(s))
  {
    hide Reach, HasFrame, LowOk;
    var t, m := Close(s), |s.frames| - 1;
    CloseNodes(s);
    assert LowOk(adj, s, m);
    var w := LowOf(adj, s, m);
    var j := FrameOf(adj, s, w);
    forall x: nat | x in t.stack ensures HasFrame(adj, t, x) {
      var i := FrameOf(adj, s, x);
      if i < m {
        FrameIs(adj, t, x, i);
      } else {
        ReachTrans(adj, x, Top(s), w);
        ReachTrans(adj, x, w, s.Node(j));
        FrameIs(adj, t, x, j);
      }
    }
  }

  lemma CloseExplored(adj: Adj, s: State)
    requires CanClose(adj, s) && FramesOrdered(s) && Explored(adj, s)
    ensures Explored(adj, Close(s))
  {
    hide Open;
    var t := Close(s);
    CloseNodes(s);
    forall j: nat | j < |t.frames| ensures Seen(adj, t, t.Node(j), t.frames[j].pos) {
      assert Seen(adj, s, s.Node(j), s.frames[j].pos);
    }
    forall v: nat | t.Visited(v) && !Open(t, v) ensures Seen(adj, t, v, |Out(adj, v)|) {
      CloseOpen(s, v);
      assert Seen(adj, s, s.Node(|s.frames| - 1), s.frames[|s.frames| - 1].pos);
      assert !Open(s, v) ==> Seen(adj, s, v, |Out(adj, v)|);
    }
  }

  lemma CloseLowSound(adj: Adj, s: State)
    requires s.frames != [] && LowSound(adj, s)
    ensures LowSound(adj, Close(s))
  {
    hide Reach, LowOk;
    CloseNodes(s);
    var t := Close(s);
    forall j: nat | j < |t.frames| ensures LowOk(adj, t, j) {
      LowAtMost(adj, s, j);
      assert LowOk(adj, s, j);
      var w := LowOf(adj, s, j);
      LowIs(adj, t, j, w);
    }
  }

  lemma CloseLowBounds(adj: Adj, s: State)
    requires CanClose(adj, s) && FramesOrdered(s) && LowBounds(adj, s)
    ensures LowBounds(adj, Close(s))
  {
    hide Open;
    var t, m := Close(s), |s.frames| - 1;
    CloseNodes(s);
    forall j: nat | j < |t.frames| ensures Bounded(adj, t, t.Node(j), t.frames[j].pos, t.Low(t.Node(j))) {
      assert Bounded(adj, s, s.Node(j), s.frames[j].pos, s.Low(s.Node(j)));
    }
    forall i, x | Between(t, i, x) && !Open(t, x) ensures Bounded(adj, t, x, |Out(adj, x)|, t.Low(t.Node(i))) {
      CloseOpen(s, x);
      CloseBetween(adj, s, i, x);
    }
  }

  lemma CloseBetween(adj: Adj, s: State, i: nat, x: nat)
    requires CanClose(adj, s) && FramesOrdered(s) && LowBounds(adj, s)
    requires Between(Close(s), i, x) && (Open(s, x) ==> x == Top(s))
    ensures Bounded(adj, s, x, |Out(adj, x)|, s.Low(s.Node(i)))
  {
    hide Open;
    var m := |s.frames| - 1;
    CloseNodes(s);
    assert i < m && s.Num(s.Node(i)) < s.Num(s.Node(m));
    if i == m - 1 && s.Num(x) >= s.Num(Top(s)) {
      assert Between(s, m, x);
      if x == Top(s) {
        assert Bounded(adj, s, s.Node(m), s.frames[m].pos, s.Low(s.Node(m)));
      } else {
        assert Bounded(adj, s, x, |Out(adj, x)|, s.Low(s.Node(m)));
      }
    } else {
      if i < m - 1 {
        assert s.Num(s.Node(i + 1)) < s.Num(s.Node(m));
      }
      assert Between(s, i, x) && x != Top(s);
    }
  }

  /** Closing a finished frame whose low link is below its number keeps the invariant. */
  lemma CloseKeeps(adj: Adj, s: State)
    requires Inv(adj, s) && CanClose(adj, s)
    ensures Inv(adj, Close(s))
  {
    hide Numbers, Stacked, Framed, StackOrdered, FramesOrdered, FramesReach, StackReach, ToFrames, Explored, LowBounds,
         LowSound, Components, Partition, Reach, WfAdj, CanClose;
    assert s.frames != [] by { assert CanClose(adj, s); hide *; CloseNonEmpty(adj, s); }
    CloseRest(adj, s);
    CloseToFrames(adj, s);
    CloseExplored(adj, s);
    CloseLowSound(adj, s);
    CloseLowBounds(adj, s);
  }

  lemma CloseNonEmpty(adj: Adj, s: State)
    requires CanClose(adj, s)
    ensures s.frames != []
  {
  }
}
