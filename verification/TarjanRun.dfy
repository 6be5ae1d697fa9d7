/** The strongly-connected-components algorithm over its arrays and explicit stacks. */
module TarjanRun {
  import opened Graph
  import opened Tarjan
  import opened TarjanSteps
  import opened TarjanScc

  // ---- One iteration on states -------------------------------------------------------------------------

  /** The top frame's next edge leads to w. */
  predicate NextIs(adj: Adj, s: State, w: nat) {
    s.frames != []
    && var i := |s.frames| - 1; s.frames[i].pos < |Out(adj, s.Node(i))| && Out(adj, s.Node(i))[s.frames[i].pos] == w
  }

  /** The state after an edge from the top frame to an unvisited node w. */
  function Descend(s: State, w: nat): State
    requires s.frames != []
  {
    if w < |s.num| == |s.low| == |s.on| then Advance(VisitNode(s, w), |s.frames| - 1) else s
  }

  lemma DescendKeeps(adj: Adj, s: State, w: nat)
    requires NextIs(adj, s, w) && Inv(adj, s) && s.Num(w) == -1
    ensures w < |adj| == |s.num| == |s.low| == |s.on|
    ensures Inv(adj, Descend(s, w))
  {
    hide Numbers, Stacked, Framed, StackOrdered, FramesOrdered, FramesReach, StackReach, ToFrames, Explored, LowBounds,
         Components, Partition, Reach, LowOk;
    var i := |s.frames| - 1;
    var v := s.Node(i);
    assert Edge(adj, v, w);
    ReachEdge(adj, v, w);
    VisitKeeps(adj, s, w);
    var t := VisitNode(s, w);
    LowAtMost(adj, s, i);
    NumberBelow(adj, s, v);
    FramesInStack(adj, s, i);
    assert v != w;
    assert t.Num(w) == s.index && t.Low(v) == s.Low(v) && t.Node(i) == v;
    AdvanceKeeps(adj, t, i);
  }

  lemma NumberBelow(adj: Adj, s: State, v: nat)
    requires Numbers(s)
    ensures s.Num(v) < s.index
  {
  }

  lemma FramesInStack(adj: Adj, s: State, i: nat)
    requires Framed(adj, s) && Stacked(s) && i < |s.frames|
    ensures s.Node(i) in s.stack && s.Visited(s.Node(i)) && s.frames[i].pos <= |Out(adj, s.Node(i))|
  {
  }

  /** The state after an edge from the top frame to a stacked node w. */
  function Relax(s: State, w: nat): State
    requires s.frames != []
  {
    var i := |s.frames| - 1;
    if s.Node(i) < |s.low| && s.Num(w) < s.Low(s.Node(i)) then Advance(Lower(s, i, s.Num(w)), i) else Advance(s, i)
  }

  /** The top frame's next edge leads to a stacked node. */
  lemma BackEdgeKeeps(adj: Adj, s: State, w: nat)
    requires NextIs(adj, s, w) && Inv(adj, s) && w in s.stack
    ensures Inv(adj, Relax(s, w))
  {
    hide Numbers, Framed, StackOrdered, FramesReach, StackReach, ToFrames, Explored, LowBounds,
         LowSound, Components, Partition, Reach;
    var i := |s.frames| - 1;
    FramesInStack(adj, s, i);
    assert Edge(adj, Top(s), w);
    ReachEdge(adj, Top(s), w);
    if s.Num(w) < s.Low(Top(s)) {
      LowerKeeps(adj, s, i, w);
      AdvanceKeeps(adj, Lower(s, i, s.Num(w)), i);
    } else {
      AdvanceKeeps(adj, s, i);
    }
  }

  function Parent(s: State): nat
    requires |s.frames| >= 2
  {
    s.Node(|s.frames| - 2)
  }

  /** The low link the parent is left with when the finished top frame closes without a component. */
  function Merged(s: State): State
    requires |s.frames| >= 2 && Parent(s) < |s.low|
  {
    if s.Low(Top(s)) < s.Low(Parent(s)) then Lower(s, |s.frames| - 2, s.Low(Top(s))) else s
  }

  lemma ParentReaches(adj: Adj, s: State) returns (w: nat)
    requires Inv(adj, s) && s.frames != [] && s.Low(Top(s)) != s.Num(Top(s))
    ensures |s.frames| >= 2 && Parent(s) < |s.low|
    ensures w in s.stack && s.Num(w) == s.Low(Top(s)) && Reach(adj, Parent(s), w)
    ensures s.Low(Top(s)) < s.Num(Top(s))
  {
    hide Numbers, StackOrdered, StackReach, Explored, LowBounds, Components, Partition, Reach, LowOk, HasFrame;
    var m := |s.frames| - 1;
    LowAtMost(adj, s, m);
    assert LowOk(adj, s, m);
    LowHasParent(adj, s);
    FramesInStack(adj, s, m - 1);
    w := LowOf(adj, s, m);
    ReachTrans(adj, s.Node(m - 1), s.Node(m), w);
  }

  lemma ReturnKeeps(adj: Adj, s: State)
    requires Inv(adj, s) && s.frames != [] && s.frames[|s.frames| - 1].pos == |Out(adj, Top(s))|
    requires s.Low(Top(s)) != s.Num(Top(s))
    ensures |s.frames| >= 2 && Parent(s) < |s.low| && Inv(adj, Close(Merged(s)))
  {
    hide Numbers, Stacked, Framed, StackOrdered, FramesReach, StackReach, ToFrames, Explored, LowBounds, LowSound,
         Components, Partition, Reach;
    var w := ParentReaches(adj, s);
    if s.Low(Top(s)) < s.Low(Parent(s)) {
      LowerKeeps(adj, s, |s.frames| - 2, w);
    }
    MergedCloses(adj, s);
    CloseKeeps(adj, Merged(s));
  }

  lemma MergedCloses(adj: Adj, s: State)
    requires |s.frames| >= 2 && Parent(s) < |s.low| && FramesOrdered(s)
    requires s.frames[|s.frames| - 1].pos == |Out(adj, Top(s))| && s.Low(Top(s)) < s.Num(Top(s))
    ensures CanClose(adj, Merged(s))
  {
    var m := |s.frames| - 1;
    assert s.Num(s.Node(m - 1)) < s.Num(s.Node(m));
  }

  /** After a component is emitted the parent's low link needs no update. */
  lemma EmittedAboveParent(adj: Adj, s: State)
    requires Inv(adj, s) && |s.frames| >= 2 && s.Low(Top(s)) == s.Num(Top(s))
    ensures s.Low(s.Node(|s.frames| - 2)) < s.Low(Top(s))
  {
    hide Numbers, Stacked, Framed, StackOrdered, FramesReach, StackReach, ToFrames, Explored, LowBounds, Components,
         Partition, Reach, LowOk;
    var m := |s.frames| - 1;
    LowAtMost(adj, s, m - 1);
    assert s.Num(s.Node(m - 1)) < s.Num(s.Node(m));
  }

  // ---- Termination --------------------------------------------------------------------------------------

  ghost function Unvisited(s: State): set<nat> {
    set v: nat | v < |s.num| && s.num[v] == -1
  }

  ghost function Work(adj: Adj, frames: seq<Frame>): nat {
    if frames == [] then 0
    else
      var f := frames[|frames| - 1];
      var left := |Out(adj, f.v)| - f.pos;
      Work(adj, frames[..|frames| - 1]) + 1 + if left > 0 then left else 0
  }

  // ---- The algorithm -----------------------------------------------------------------------------------------

  /** Pops the stack down to and including `v`. */
  method PopComponent(stack0: seq<nat>, on: array<bool>, v: nat, ghost k: nat) returns (comp: seq<nat>, stack: seq<nat>)
    requires k < |stack0| && stack0[k] == v
    requires forall i :: 0 <= i < |stack0| ==> stack0[i] < on.Length
    requires forall i :: k < i < |stack0| ==> stack0[i] != v
    modifies on
    ensures stack == stack0[..k] && |comp| == |stack0| - k
    ensures forall i :: 0 <= i < |comp| ==> comp[i] == stack0[|stack0| - 1 - i]
    ensures forall u: nat :: u < on.Length ==> (on[u] <==> old(on[u]) && u !in comp)
  {
    stack, comp := stack0, [];
    while |comp| == 0 || comp[|comp| - 1] != v
      invariant |comp| <= |stack0| - k && stack == stack0[..|stack0| - |comp|]
      invariant forall i :: 0 <= i < |comp| ==> comp[i] == stack0[|stack0| - 1 - i]
      invariant forall u: nat :: u < on.Length ==> (on[u] <==> old(on[u]) && u !in comp)
      invariant |comp| == |stack0| - k ==> comp[|comp| - 1] == v
      decreases |stack|
    {
      var w := stack[|stack| - 1];
      stack := stack[..|stack| - 1];
      on[w] := false;
      comp := comp + [w];
    }
  }

  ghost function Snapshot(num: array<int>, low: array<int>, on: array<bool>, stack: seq<nat>, sccs: seq<seq<nat>>,
                          index: nat, frames: seq<Frame>): State
    reads num, low, on
  {
    State(num[..], low[..], on[..], stack, sccs, index, frames)
  }

  ghost predicate Distinct(num: array<int>, low: array<int>, on: array<bool>, n: nat) {
    num != low && num.Length == low.Length == on.Length == n
  }

  /** Either a node is visited for the first time, or work on the open frames shrinks. */
  ghost predicate Progress(adj: Adj, s: State, t: State) {
    Unvisited(t) < Unvisited(s) || (Unvisited(t) == Unvisited(s) && Work(adj, t.frames) < Work(adj, s.frames))
  }

  lemma FirstVisit(adj: Adj, s: State, w: nat)
    requires w < |s.num| == |s.low| == |s.on| && s.num[w] == -1 && s.frames != []
    ensures Progress(adj, s, Advance(VisitNode(s, w), |s.frames| - 1))
  {
    var t := Advance(VisitNode(s, w), |s.frames| - 1);
    assert w in Unvisited(s) && w !in Unvisited(t);
  }

  lemma MovedOn(adj: Adj, s: State, t: State)
    requires s.frames != [] && t.num == s.num
    requires s.frames[|s.frames| - 1].pos < |Out(adj, s.frames[|s.frames| - 1].v)|
    requires t.frames == s.frames[|s.frames| - 1 := Frame(s.frames[|s.frames| - 1].v, s.frames[|s.frames| - 1].pos + 1)]
    ensures Progress(adj, s, t)
  {
    AdvanceWork(adj, s.frames, Frame(s.frames[|s.frames| - 1].v, s.frames[|s.frames| - 1].pos + 1));
  }

  lemma Returned(adj: Adj, s: State, t: State)
    requires s.frames != [] && t.num == s.num && t.frames == s.frames[..|s.frames| - 1]
    ensures Progress(adj, s, t)
  {
    CloseWork(adj, s.frames);
  }

  lemma OnStack(adj: Adj, s: State, w: nat)
    requires Inv(adj, s) && w < |s.on|
    ensures s.on[w] <==> w in s.stack
    ensures w < |s.num| == |s.low| == |adj| && s.num[w] == s.Num(w) && s.low[w] == s.Low(w)
  {
    hide Numbers, Framed, StackOrdered, FramesOrdered, FramesReach, StackReach, ToFrames, Explored, LowBounds, LowSound,
         Components, Partition, Reach, WfAdj;
  }

  lemma EdgeTarget(adj: Adj, s: State, v: nat, j: nat)
    requires Inv(adj, s) && v < |adj| && j < |adj[v]|
    ensures adj[v][j] < |adj|
  {
    hide Numbers, Stacked, Framed, StackOrdered, FramesOrdered, FramesReach, StackReach, ToFrames, Explored, LowBounds,
         LowSound, Components, Partition, Reach;
  }

  /** Follows the top frame's next edge. */
  method Follow(adj: Adj, num: array<int>, low: array<int>, on: array<bool>, stack0: seq<nat>, sccs0: seq<seq<nat>>,
                index0: nat, frames0: seq<Frame>)
    returns (stack: seq<nat>, sccs: seq<seq<nat>>, index: nat, frames: seq<Frame>)
    requires Distinct(num, low, on, |adj|) && frames0 != []
    requires Inv(adj, Snapshot(num, low, on, stack0, sccs0, index0, frames0))
    requires var f := frames0[|frames0| - 1]; f.v < |adj| && f.pos < |adj[f.v]|
    modifies num, low, on
    ensures Inv(adj, Snapshot(num, low, on, stack, sccs, index, frames))
    ensures Progress(adj, old(Snapshot(num, low, on, stack0, sccs0, index0, frames0)),
                     Snapshot(num, low, on, stack, sccs, index, frames))
    ensures forall u: nat :: u < num.Length && old(num[u]) != -1 ==> num[u] != -1
  {
    hide Inv, Progress;
    ghost var s := Snapshot(num, low, on, stack0, sccs0, index0, frames0);
    var i := |frames0| - 1;
    var Frame(v, pos) := frames0[i];
    var w := adj[v][pos];
    EdgeTarget(adj, s, v, pos);
    OnStack(adj, s, w);
    OnStack(adj, s, v);
    assert s.Node(i) == v && Out(adj, v)[pos] == w;
    stack, sccs, index := stack0, sccs0, index0;
    frames := frames0[i := Frame(v, pos + 1)];
    if num[w] == -1 {
      DescendKeeps(adj, s, w);
      FirstVisit(adj, s, w);
      num[w] := index;
      low[w] := index;
      index := index + 1;
      stack := stack + [w];
      on[w] := true;
      frames := frames + [Frame(w, 0)];
      assert num[..] == s.num[w := s.index] && low[..] == s.low[w := s.index] && on[..] == s.on[w := true];
      assert frames == Advance(VisitNode(s, w), i).frames;
    } else if on[w] {
      BackEdgeKeeps(adj, s, w);
      if num[w] < low[v] {
        low[v] := num[w];
        assert low[..] == s.low[v := s.Num(w)] && num[..] == s.num && on[..] == s.on;
      }
      MovedOn(adj, s, Snapshot(num, low, on, stack, sccs, index, frames));
    } else {
      AdvanceKeeps(adj, s, i);
      MovedOn(adj, s, Snapshot(num, low, on, stack, sccs, index, frames));
    }
  }

  lemma StackFacts(adj: Adj, s: State) returns (k: nat)
    requires Inv(adj, s) && s.frames != []
    ensures k < |s.stack| && s.stack[k] == Top(s)
    ensures forall i :: 0 <= i < |s.stack| ==> s.stack[i] < |adj|
    ensures forall i :: k < i < |s.stack| ==> s.stack[i] != Top(s)
  {
    hide Numbers, FramesOrdered, FramesReach, StackReach, ToFrames, Explored, LowBounds, LowSound, Components,
         Partition,
         Reach, WfAdj;
    assert s.Node(|s.frames| - 1) in s.stack;
    k :| 0 <= k < |s.stack| && s.stack[k] == Top(s);
    assert forall i :: 0 <= i < |s.stack| ==> s.stack[i] in s.stack;
    assert forall i :: k < i < |s.stack| ==> s.Num(s.stack[k]) < s.Num(s.stack[i]);
  }

  /** Closes the top frame, emitting its component when its low link is its own number. */
  method Finish(adj: Adj, num: array<int>, low: array<int>, on: array<bool>, stack0: seq<nat>, sccs0: seq<seq<nat>>,
                index: nat, frames0: seq<Frame>)
    returns (stack: seq<nat>, sccs: seq<seq<nat>>, frames: seq<Frame>)
    requires Distinct(num, low, on, |adj|) && frames0 != []
    requires Inv(adj, Snapshot(num, low, on, stack0, sccs0, index, frames0))
    requires var f := frames0[|frames0| - 1]; f.v < |adj| && f.pos >= |adj[f.v]|
    modifies low, on
    ensures Inv(adj, Snapshot(num, low, on, stack, sccs, index, frames))
    ensures Progress(adj, old(Snapshot(num, low, on, stack0, sccs0, index, frames0)),
                     Snapshot(num, low, on, stack, sccs, index, frames))
  {
    hide Inv, Progress;
    ghost var s := Snapshot(num, low, on, stack0, sccs0, index, frames0);
    var v := frames0[|frames0| - 1].v;
    FrameNode(adj, s, |frames0| - 1);
    OnStack(adj, s, v);
    stack, sccs := stack0, sccs0;
    var emit := low[v] == num[v];
    if emit {
      ghost var k := StackFacts(adj, s);
      var comp: seq<nat>;
      comp, stack := PopComponent(stack, on, v, k);
      sccs := sccs + [comp];
      ghost var t := Snapshot(num, low, on, stack, sccs, index, frames0[..|frames0| - 1]);
      EmitKeeps(adj, s, k, comp, t);
    } else {
      ReturnKeeps(adj, s);
    }
    frames := frames0[..|frames0| - 1];
    if frames != [] {
      var p := frames[|frames| - 1].v;
      assert p == Parent(s);
      FrameNode(adj, s, |frames| - 1);
      OnStack(adj, s, p);
      if emit {
        EmittedAboveParent(adj, s);
      }
      if low[v] < low[p] {
        low[p] := low[v];
        assert low[..] == s.low[p := s.Low(v)];
      }
    }
    Returned(adj, s, Snapshot(num, low, on, stack, sccs, index, frames));
    if !emit {
      assert Snapshot(num, low, on, stack, sccs, index, frames) == Close(Merged(s));
    }
  }

  // ---- The whole run ------------------------------------------------------------------------------------------

  ghost function Start(n: nat): State {
    State(seq(n, _ => -1), seq(n, _ => -1), seq(n, _ => false), [], [], 0, [])
  }

  lemma StartOk(adj: Adj)
    requires WfAdj(adj)
    ensures Inv(adj, Start(|adj|))
  {
    hide Reach;
    var s := Start(|adj|);
    assert forall v: nat :: s.Num(v) == -1;
  }

  lemma RootOk(adj: Adj, s: State, v: nat)
    requires Inv(adj, s) && s.frames == [] && v < |adj| && s.Num(v) == -1
    ensures v < |s.num| == |s.low| == |s.on| && Inv(adj, VisitNode(s, v))
  {
    hide Numbers, Stacked, Framed, StackOrdered, FramesOrdered, FramesReach, StackReach, ToFrames, Explored, LowBounds,
         LowSound, Components, Partition, Reach, WfAdj;
    VisitKeeps(adj, s, v);
  }

  /** With no open frame the stack is empty: every visited node has been emitted. */
  lemma DoneOk(adj: Adj, s: State)
    requires Inv(adj, s) && s.frames == [] && forall v: nat :: v < |adj| ==> s.Visited(v)
    ensures Components(adj, s.sccs) && forall v: nat :: v < |adj| ==> Emitted(s.sccs, v)
  {
    hide Numbers, Stacked, Framed, StackOrdered, FramesOrdered, FramesReach, StackReach, Explored, LowBounds, LowSound,
         Components, Reach, WfAdj, Emitted;
    forall v: nat | v < |adj| ensures Emitted(s.sccs, v) {
      if v in s.stack {
        var i := FrameOf(adj, s, v);
        assert false;
      }
    }
  }

  /** The strongly connected components of a graph: every node in exactly one of them, each maximal, and every
      edge leading into its own component or one emitted earlier. */
  method TarjanSccs(adj: Adj) returns (sccs: seq<seq<nat>>)
    requires WfAdj(adj)
    ensures Components(adj, sccs)
    ensures forall v: nat :: v < |adj| ==> Emitted(sccs, v)
  {
    hide Inv, Components, Emitted, Progress;
    var n := |adj|;
    var num, low, on := new int[n](_ => -1), new int[n](_ => -1), new bool[n](_ => false);
    var stack: seq<nat> := [];
    var index: nat := 0;
    var frames: seq<Frame> := [];
    sccs := [];
    StartOk(adj);
    assert Snapshot(num, low, on, stack, sccs, index, frames) == Start(n);
    for vStart := 0 to n
      invariant Inv(adj, Snapshot(num, low, on, stack, sccs, index, frames)) && frames == []
      invariant forall u: nat :: u < vStart ==> num[u] != -1
    {
      if num[vStart] == -1 {
        ghost var s := Snapshot(num, low, on, stack, sccs, index, frames);
        RootOk(adj, s, vStart);
        frames := frames + [Frame(vStart, 0)];
        num[vStart] := index;
        low[vStart] := index;
        index := index + 1;
        stack := stack + [vStart];
        on[vStart] := true;
        assert num[..] == s.num[vStart := s.index] && low[..] == s.low[vStart := s.index] && on[..] == s.on[vStart := true];
        assert Snapshot(num, low, on, stack, sccs, index, frames) == VisitNode(s, vStart);
        stack, sccs, index, frames := Explore(adj, num, low, on, stack, sccs, index, frames);
      }
    }
    assert forall u: nat :: u < n ==> Snapshot(num, low, on, stack, sccs, index, frames).Visited(u);
    DoneOk(adj, Snapshot(num, low, on, stack, sccs, index, frames));
  }

  /** Runs until every open frame is finished. */
  method Explore(adj: Adj, num: array<int>, low: array<int>, on: array<bool>, stack0: seq<nat>, sccs0: seq<seq<nat>>,
                 index0: nat, frames0: seq<Frame>)
    returns (stack: seq<nat>, sccs: seq<seq<nat>>, index: nat, frames: seq<Frame>)
    requires Distinct(num, low, on, |adj|)
    requires Inv(adj, Snapshot(num, low, on, stack0, sccs0, index0, frames0))
    modifies num, low, on
    ensures Inv(adj, Snapshot(num, low, on, stack, sccs, index, frames)) && frames == []
    ensures forall u: nat :: u < num.Length && old(num[u]) != -1 ==> num[u] != -1
  {
    hide Inv, Unvisited, Work;
    stack, sccs, index, frames := stack0, sccs0, index0, frames0;
    while frames != []
      invariant Inv(adj, Snapshot(num, low, on, stack, sccs, index, frames))
      invariant forall u: nat :: u < num.Length && old(num[u]) != -1 ==> num[u] != -1
      decreases Unvisited(Snapshot(num, low, on, stack, sccs, index, frames)), Work(adj, frames)
    {
      var f := frames[|frames| - 1];
      FrameNode(adj, Snapshot(num, low, on, stack, sccs, index, frames), |frames| - 1);
      if f.pos < |adj[f.v]| {
        stack, sccs, index, frames := Follow(adj, num, low, on, stack, sccs, index, frames);
      } else {
        stack, sccs, frames := Finish(adj, num, low, on, stack, sccs, index, frames);
      }
    }
  }

  lemma FrameNode(adj: Adj, s: State, i: nat)
    requires Inv(adj, s) && i < |s.frames|
    ensures s.frames[i].v == s.Node(i) < |adj| && s.frames[i].pos <= |adj[s.frames[i].v]| == |Out(adj, s.Node(i))|
    ensures s.Node(i) in s.stack
  {
    hide StackOrdered, FramesOrdered, FramesReach, StackReach, ToFrames, Explored, LowBounds, LowSound, Components,
         Partition, Reach;
    FramesInStack(adj, s, i);
  }

  lemma AdvanceWork(adj: Adj, frames: seq<Frame>, f: Frame)
    requires frames != [] && var g := frames[|frames| - 1]; f.v == g.v && f.pos == g.pos + 1 && g.pos < |Out(adj, g.v)|
    ensures Work(adj, frames[|frames| - 1 := f]) < Work(adj, frames)
  {
    var more := frames[|frames| - 1 := f];
    assert more[..|frames| - 1] == frames[..|frames| - 1];
  }

  lemma CloseWork(adj: Adj, frames: seq<Frame>)
    requires frames != []
    ensures Work(adj, frames[..|frames| - 1]) < Work(adj, frames)
  {
  }
}
