/** The state and invariant of the iterative strongly-connected-components algorithm of
    src/comb_graph.rs. */
module Tarjan {
  import opened Graph

  /** A visited node and the position of its next outgoing edge. */
  datatype Frame = Frame(v: nat, pos: nat)

  /** The algorithm's variables at one moment. `num[v]` is -1 until v is visited. */
  datatype State = State(num: seq<int>, low: seq<int>, on: seq<bool>, stack: seq<nat>, sccs: seq<seq<nat>>,
                         index: nat, frames: seq<Frame>)
  {
    function Num(v: nat): int { if v < |num| then num[v] else -1 }

    function Low(v: nat): int { if v < |low| then low[v] else -1 }

    function Node(i: nat): nat { if i < |frames| then frames[i].v else 0 }

    predicate Visited(v: nat) { Num(v) != -1 }
  }

  function Out(adj: Adj, v: nat): seq<nat> { if v < |adj| then adj[v] else [] }

  // ---- Invariant -----------------------------------------------------------------------------------

  ghost predicate Sizes(adj: Adj, s: State) {
    |s.num| == |s.low| == |s.on| == |adj|
  }

  ghost predicate Numbers(s: State) {
    (forall v: nat :: -1 <= s.Num(v) < s.index)
    && (forall u: nat, v: nat :: s.Num(u) == s.Num(v) != -1 ==> u == v)
  }

  ghost predicate Stacked(s: State) {
    (forall v: nat :: v in s.stack ==> s.Visited(v))
    && (forall v: nat :: v < |s.on| ==> (s.on[v] <==> v in s.stack))
  }

  ghost predicate Framed(adj: Adj, s: State) {
    forall i: nat :: i < |s.frames| ==> s.Node(i) in s.stack && s.frames[i].pos <= |Out(adj, s.Node(i))|
  }

  /** Both stacks are in order of visit. */
  ghost predicate StackOrdered(s: State) {
    forall i, j :: 0 <= i < j < |s.stack| ==> s.Num(s.stack[i]) < s.Num(s.stack[j])
  }

  ghost predicate FramesOrdered(s: State) {
    forall i: nat, j: nat :: i < j < |s.frames| ==> s.Num(s.Node(i)) < s.Num(s.Node(j))
  }

  ghost predicate FramesReach(adj: Adj, s: State) {
    forall i: nat, j: nat :: i < j < |s.frames| ==> Reach(adj, s.Node(i), s.Node(j))
  }

  /** Every stacked node reaches the stacked nodes visited after it. */
  ghost predicate StackReach(adj: Adj, s: State) {
    forall u: nat, v: nat :: u in s.stack && v in s.stack && s.Num(u) < s.Num(v) ==> Reach(adj, u, v)
  }

  /** Node x reaches the node of an open frame visited no later than x. */
  ghost predicate ReachesFrame(adj: Adj, s: State, x: nat, i: nat) {
    i < |s.frames| && s.Num(s.Node(i)) <= s.Num(x) && Reach(adj, x, s.Node(i))
  }

  ghost predicate HasFrame(adj: Adj, s: State, x: nat) {
    exists i :: ReachesFrame(adj, s, x, i)
  }

  ghost predicate ToFrames(adj: Adj, s: State) {
    forall x: nat :: x in s.stack ==> HasFrame(adj, s, x)
  }

  ghost predicate Open(s: State, v: nat) {
    exists i: nat :: i < |s.frames| && s.Node(i) == v
  }

  /** The first j edges of v lead to visited nodes. */
  ghost predicate Seen(adj: Adj, s: State, v: nat, j: nat) {
    forall k :: 0 <= k < j && k < |Out(adj, v)| ==> s.Visited(Out(adj, v)[k])
  }

  ghost predicate Explored(adj: Adj, s: State) {
    (forall i: nat :: i < |s.frames| ==> Seen(adj, s, s.Node(i), s.frames[i].pos))
    && (forall v: nat :: s.Visited(v) && !Open(s, v) ==> Seen(adj, s, v, |Out(adj, v)|))
  }

  /** Among the first j edges of v, those to stacked nodes lead to numbers of at least `low`. */
  ghost predicate Bounded(adj: Adj, s: State, v: nat, j: nat, low: int) {
    forall k :: 0 <= k < j && k < |Out(adj, v)| && Out(adj, v)[k] in s.stack ==> low <= s.Num(Out(adj, v)[k])
  }

  /** x lies on the stack between frame i and the next frame. */
  ghost predicate Between(s: State, i: nat, x: nat) {
    i < |s.frames| && x in s.stack && s.Num(s.Node(i)) <= s.Num(x)
    && (i + 1 < |s.frames| ==> s.Num(x) < s.Num(s.Node(i + 1)))
  }

  ghost predicate LowBounds(adj: Adj, s: State) {
    (forall i: nat :: i < |s.frames| ==> Bounded(adj, s, s.Node(i), s.frames[i].pos, s.Low(s.Node(i))))
    && (forall i, x :: Between(s, i, x) && !Open(s, x) ==> Bounded(adj, s, x, |Out(adj, x)|, s.Low(s.Node(i))))
  }

  /** A frame's low link is the number of a stacked node it reaches. */
  ghost predicate LowReached(adj: Adj, s: State, i: nat, w: nat) {
    w in s.stack && s.Num(w) == s.Low(s.Node(i)) && Reach(adj, s.Node(i), w)
  }

  ghost predicate LowOk(adj: Adj, s: State, i: nat) {
    s.Low(s.Node(i)) <= s.Num(s.Node(i)) && exists w :: LowReached(adj, s, i, w)
  }

  ghost predicate LowSound(adj: Adj, s: State) {
    forall i: nat :: i < |s.frames| ==> LowOk(adj, s, i)
  }

  ghost predicate Emitted(sccs: seq<seq<nat>>, v: nat) {
    exists c :: 0 <= c < |sccs| && v in sccs[c]
  }

  /** An edge out of component c leads into c or a component emitted before it. */
  ghost predicate LeadsBack(adj: Adj, sccs: seq<seq<nat>>, c: nat) {
    c < |sccs| && forall u, v :: u in sccs[c] && Edge(adj, u, v) ==> Emitted(sccs[..c + 1], v)
  }

  ghost predicate Components(adj: Adj, sccs: seq<seq<nat>>) {
    (forall c :: 0 <= c < |sccs| ==> IsScc(adj, sccs[c]) && LeadsBack(adj, sccs, c))
    && (forall c, d, v :: 0 <= c < d < |sccs| && v in sccs[c] ==> v !in sccs[d])
  }

  ghost predicate Partition(s: State) {
    forall v: nat :: Emitted(s.sccs, v) <==> s.Visited(v) && v !in s.stack
  }

  ghost predicate Inv(adj: Adj, s: State) {
    && WfAdj(adj) && Sizes(adj, s)
    && Numbers(s) && Stacked(s) && Framed(adj, s) && StackOrdered(s) && FramesOrdered(s)
    && FramesReach(adj, s) && StackReach(adj, s) && ToFrames(adj, s)
    && Explored(adj, s) && LowBounds(adj, s) && LowSound(adj, s)
    && Components(adj, s.sccs) && Partition(s)
  }

  // ---- Facts about the top frame ----------------------------------------------------------------------

  function Top(s: State): nat
    requires s.frames != []
  {
    s.Node(|s.frames| - 1)
  }

  /** Every stacked node reaches the top frame. */
  lemma StackReachesTop(adj: Adj, s: State, x: nat)
    requires FramesReach(adj, s) && HasFrame(adj, s, x)
    ensures s.frames != [] && Reach(adj, x, Top(s))
  {
    hide Reach;
    var i: nat :| ReachesFrame(adj, s, x, i);
    if i < |s.frames| - 1 {
      ReachTrans(adj, x, s.Node(i), Top(s));
    }
  }

  /** An open frame whose low link is below its own number has a frame below it. */
  lemma LowHasParent(adj: Adj, s: State)
    requires ToFrames(adj, s) && FramesOrdered(s) && s.frames != [] && LowOk(adj, s, |s.frames| - 1)
    requires s.Low(Top(s)) < s.Num(Top(s))
    ensures |s.frames| >= 2
  {
    hide Reach;
    var w: nat :| LowReached(adj, s, |s.frames| - 1, w);
    assert HasFrame(adj, s, w);
    var i: nat :| ReachesFrame(adj, s, w, i);
  }

  // ---- Visiting a node ------------------------------------------------------------------------------------

  function VisitNode(s: State, w: nat): State
    requires w < |s.num| == |s.low| == |s.on|
  {
    State(s.num[w := s.index], s.low[w := s.index], s.on[w := true], s.stack + [w], s.sccs, s.index + 1,
          s.frames + [Frame(w, 0)])
  }

  ghost predicate CanVisit(adj: Adj, s: State, w: nat) {
    Sizes(adj, s) && w < |adj| && s.Num(w) == -1 && (s.frames != [] ==> Reach(adj, Top(s), w))
    && Numbers(s) && Stacked(s) && Framed(adj, s)
  }

  /** How the observers of the state change when w is visited. */
  ghost predicate VisitedNode(s: State, w: nat, t: State) {
    && (forall v: nat :: t.Num(v) == if v == w then s.index else s.Num(v))
    && (forall v: nat :: t.Low(v) == if v == w then s.index else s.Low(v))
    && (forall v: nat :: v in t.stack <==> v in s.stack || v == w)
    && |t.frames| == |s.frames| + 1 && t.index == s.index + 1 && t.sccs == s.sccs
    && (forall i: nat :: i < |s.frames| ==> t.Node(i) == s.Node(i) && t.frames[i].pos == s.frames[i].pos)
    && t.Node(|s.frames|) == w && t.frames[|s.frames|].pos == 0
    && w !in s.stack && s.Num(w) == -1
    && (forall v: nat :: v in s.stack ==> 0 <= s.Num(v) < s.index)
    && (forall i: nat :: i < |s.frames| ==> s.Node(i) in s.stack)
  }

  lemma VisitedIs(adj: Adj, s: State, w: nat)
    requires CanVisit(adj, s, w)
    ensures VisitedNode(s, w, VisitNode(s, w))
  {
    hide Reach;
  }

  lemma VisitShape(adj: Adj, s: State, w: nat, t: State)
    requires CanVisit(adj, s, w) && t == VisitNode(s, w)
    ensures Sizes(adj, t) && Numbers(t) && Stacked(t) && Framed(adj, t)
  {
    hide Reach;
    VisitedIs(adj, s, w);
    hide VisitNode;
    assert Stacked(t) by {
      assert forall v: nat :: v < |t.on| ==> (t.on[v] <==> s.on[v] || v == w);
    }
  }

  lemma VisitOrder(s: State, w: nat, t: State)
    requires VisitedNode(s, w, t) && t.stack == s.stack + [w] && StackOrdered(s) && FramesOrdered(s)
    ensures StackOrdered(t) && FramesOrdered(t)
  {
    assert forall i :: 0 <= i < |s.stack| ==> t.stack[i] == s.stack[i] && s.stack[i] in s.stack;
  }

  lemma VisitReach(adj: Adj, s: State, w: nat, t: State)
    requires VisitedNode(s, w, t) && w < |adj| && (s.frames != [] ==> Reach(adj, Top(s), w))
    requires FramesReach(adj, s) && StackReach(adj, s) && ToFrames(adj, s)
    ensures FramesReach(adj, t) && StackReach(adj, t)
  {
    hide Reach, HasFrame;
    forall x: nat | x in s.stack ensures Reach(adj, x, w) {
      StackReachesTop(adj, s, x);
      ReachTrans(adj, x, Top(s), w);
    }
  }

  lemma VisitToFrames(adj: Adj, s: State, w: nat, t: State)
    requires VisitedNode(s, w, t) && w < |adj| && ToFrames(adj, s)
    ensures ToFrames(adj, t)
  {
    hide Reach, HasFrame;
    forall x: nat | x in t.stack ensures HasFrame(adj, t, x) {
      if x == w {
        ReachSelf(adj, w);
        FrameIs(adj, t, x, |s.frames|);
      } else {
        var i := FrameOf(adj, s, x);
        FrameIs(adj, t, x, i);
      }
    }
  }

  lemma FrameOf(adj: Adj, s: State, x: nat) returns (i: nat)
    requires HasFrame(adj, s, x)
    ensures ReachesFrame(adj, s, x, i)
  {
    i :| ReachesFrame(adj, s, x, i);
  }

  lemma FrameIs(adj: Adj, s: State, x: nat, i: nat)
    requires ReachesFrame(adj, s, x, i)
    ensures HasFrame(adj, s, x)
  {
  }

  lemma VisitOpen(s: State, w: nat, t: State, v: nat)
    requires VisitedNode(s, w, t)
    ensures Open(t, v) <==> Open(s, v) || v == w
  {
    if Open(s, v) {
      var i: nat :| i < |s.frames| && s.Node(i) == v;
      assert t.Node(i) == v;
    }
  }

  lemma VisitExplored(adj: Adj, s: State, w: nat, t: State)
    requires VisitedNode(s, w, t) && Explored(adj, s)
    ensures Explored(adj, t)
  {
    hide Open;
    forall v: nat | t.Visited(v) && !Open(t, v) ensures Seen(adj, t, v, |Out(adj, v)|) {
      VisitOpen(s, w, t, v);
      assert Seen(adj, s, v, |Out(adj, v)|);
    }
    forall i: nat | i < |t.frames| ensures Seen(adj, t, t.Node(i), t.frames[i].pos) {
      if i < |s.frames| {
        assert Seen(adj, s, s.Node(i), s.frames[i].pos);
      }
    }
  }

  lemma VisitLowBounds(adj: Adj, s: State, w: nat, t: State)
    requires VisitedNode(s, w, t) && LowBounds(adj, s) && LowSound(adj, s)
    ensures LowBounds(adj, t)
  {
    hide Open, Reach, LowOk;
    forall i, x | Between(t, i, x) && !Open(t, x) ensures Bounded(adj, t, x, |Out(adj, x)|, t.Low(t.Node(i))) {
      VisitOpen(s, w, t, x);
      LowAtMost(adj, s, i);
      assert Between(s, i, x);
      assert Bounded(adj, s, x, |Out(adj, x)|, s.Low(s.Node(i)));
    }
    forall i: nat | i < |t.frames| ensures Bounded(adj, t, t.Node(i), t.frames[i].pos, t.Low(t.Node(i))) {
      if i < |s.frames| {
        LowAtMost(adj, s, i);
        assert Bounded(adj, s, s.Node(i), s.frames[i].pos, s.Low(s.Node(i)));
      }
    }
  }

  lemma LowAtMost(adj: Adj, s: State, i: nat)
    requires LowSound(adj, s) && i < |s.frames|
    ensures s.Low(s.Node(i)) <= s.Num(s.Node(i))
  {
    hide Reach;
    assert LowOk(adj, s, i);
  }

  lemma LowOf(adj: Adj, s: State, i: nat) returns (w: nat)
    requires LowOk(adj, s, i)
    ensures LowReached(adj, s, i, w)
  {
    w :| LowReached(adj, s, i, w);
  }

  lemma LowIs(adj: Adj, s: State, i: nat, w: nat)
    requires LowReached(adj, s, i, w) && s.Low(s.Node(i)) <= s.Num(s.Node(i))
    ensures LowOk(adj, s, i)
  {
  }

  lemma VisitLowSound(adj: Adj, s: State, w: nat, t: State)
    requires VisitedNode(s, w, t) && w < |adj| && LowSound(adj, s)
    ensures LowSound(adj, t)
  {
    hide Reach, LowOk;
    forall i: nat | i < |t.frames| ensures LowOk(adj, t, i) {
      if i < |s.frames| {
        LowAtMost(adj, s, i);
        var x := LowOf(adj, s, i);
        LowIs(adj, t, i, x);
      } else {
        ReachSelf(adj, w);
        LowIs(adj, t, i, w);
      }
    }
  }

  lemma VisitPartition(s: State, w: nat, t: State)
    requires VisitedNode(s, w, t) && Partition(s)
    ensures Partition(t)
  {
    hide Emitted;
  }

  /** Visiting an unvisited node reached from the top frame keeps the invariant. */
  lemma VisitKeeps(adj: Adj, s: State, w: nat)
    requires Inv(adj, s) && w < |adj| && s.Num(w) == -1 && (s.frames != [] ==> Reach(adj, Top(s), w))
    ensures Inv(adj, VisitNode(s, w))
  {
    hide Numbers, Stacked, Framed, StackOrdered, FramesOrdered, FramesReach, StackReach, ToFrames, Explored, LowBounds,
         LowSound, Components, Partition, Reach, WfAdj, VisitedNode;
    var t := VisitNode(s, w);
    VisitedIs(adj, s, w);
    VisitShape(adj, s, w, t);
    VisitOrder(s, w, t);
    VisitReach(adj, s, w, t);
    VisitToFrames(adj, s, w, t);
    VisitExplored(adj, s, w, t);
    VisitLowBounds(adj, s, w, t);
    VisitLowSound(adj, s, w, t);
    VisitPartition(s, w, t);
  }
}
