/** Emitting a component from the stack; the loop that does it is in TarjanRun. */
module TarjanScc {
  import opened Graph
  import opened Tarjan
  import opened TarjanSteps

  // ---- Emitting a component ------------------------------------------------------------------------------

  /** `t` is `s` after the nodes from position k of the stack up are popped as component `comp` and the top
      frame is closed. */
  ghost predicate Emits(s: State, k: nat, comp: seq<nat>, t: State) {
    && s.frames != [] && k < |s.stack| && s.stack[k] == Top(s)
    && |comp| == |s.stack| - k && (forall i :: 0 <= i < |comp| ==> comp[i] == s.stack[|s.stack| - 1 - i])
    && t.num == s.num && t.low == s.low && t.index == s.index && t.stack == s.stack[..k] && t.sccs == s.sccs + [comp]
    && t.frames == s.frames[..|s.frames| - 1]
    && |t.on| == |s.on| && forall v: nat :: v < |t.on| ==> (t.on[v] <==> s.on[v] && v !in comp)
  }

  ghost predicate CanEmit(adj: Adj, s: State) {
    s.frames != [] && s.frames[|s.frames| - 1].pos == |Out(adj, Top(s))| && s.Low(Top(s)) == s.Num(Top(s))
  }

  /** The component is the part of the stack visited from the top frame on. */
  ghost predicate Split(s: State, comp: seq<nat>, t: State)
    requires s.frames != []
  {
    (forall v: nat :: v in comp <==> v in s.stack && s.Num(v) >= s.Num(Top(s)))
    && (forall v: nat :: v in t.stack <==> v in s.stack && s.Num(v) < s.Num(Top(s)))
    && (forall v: nat :: t.Num(v) == s.Num(v)) && (forall v: nat :: t.Low(v) == s.Low(v))
    && |t.frames| == |s.frames| - 1
    && (forall j: nat :: j < |t.frames| ==> t.Node(j) == s.Node(j) && t.frames[j] == s.frames[j])
  }

  lemma EmitSplits(s: State, k: nat, comp: seq<nat>, t: State)
    requires Emits(s, k, comp, t) && StackOrdered(s)
    ensures Split(s, comp, t)
  {
    forall v: nat ensures v in comp <==> v in s.stack && s.Num(v) >= s.Num(Top(s)) {
      PoppedAbove(s, k, comp, t, v);
    }
    forall v: nat ensures v in t.stack <==> v in s.stack && s.Num(v) < s.Num(Top(s)) {
      LeftBelow(s, k, comp, t, v);
    }
  }

  lemma PoppedAbove(s: State, k: nat, comp: seq<nat>, t: State, v: nat)
    requires Emits(s, k, comp, t) && StackOrdered(s)
    ensures v in comp <==> v in s.stack && s.Num(v) >= s.Num(Top(s))
  {
    if v in s.stack && s.Num(v) >= s.Num(Top(s)) {
      var i :| 0 <= i < |s.stack| && s.stack[i] == v;
      assert i >= k;
      assert comp[|s.stack| - 1 - i] == v;
    }
    if v in comp {
      var j :| 0 <= j < |comp| && comp[j] == v;
      var i := |s.stack| - 1 - j;
      assert s.stack[i] == v && i >= k;
      assert i > k ==> s.Num(s.stack[k]) < s.Num(s.stack[i]);
    }
  }

  lemma LeftBelow(s: State, k: nat, comp: seq<nat>, t: State, v: nat)
    requires Emits(s, k, comp, t) && StackOrdered(s)
    ensures v in t.stack <==> v in s.stack && s.Num(v) < s.Num(Top(s))
  {
    if v in s.stack && s.Num(v) < s.Num(Top(s)) {
      var i :| 0 <= i < |s.stack| && s.stack[i] == v;
      assert i < k;
      assert t.stack[i] == v;
    }
    if v in t.stack {
      var i :| 0 <= i < k && t.stack[i] == v;
      assert s.Num(s.stack[i]) < s.Num(s.stack[k]);
    }
  }

  lemma EmitShape(adj: Adj, s: State, k: nat, comp: seq<nat>, t: State)
    requires Emits(s, k, comp, t) && Split(s, comp, t) && Sizes(adj, s) && Numbers(s) && Stacked(s)
    ensures Sizes(adj, t) && Numbers(t) && Stacked(t)
  {
  }

  lemma EmitOrdered(adj: Adj, s: State, k: nat, comp: seq<nat>, t: State)
    requires Emits(s, k, comp, t) && Split(s, comp, t) && Framed(adj, s) && StackOrdered(s) && FramesOrdered(s)
    ensures Framed(adj, t) && StackOrdered(t) && FramesOrdered(t)
  {
  }

  lemma EmitReach(adj: Adj, s: State, comp: seq<nat>, t: State)
    requires s.frames != [] && Split(s, comp, t) && FramesReach(adj, s) && StackReach(adj, s)
    ensures FramesReach(adj, t) && StackReach(adj, t)
  {
    hide Reach;
  }

  lemma EmitToFrames(adj: Adj, s: State, comp: seq<nat>, t: State)
    requires s.frames != [] && Split(s, comp, t) && ToFrames(adj, s)
    ensures ToFrames(adj, t)
  {
    hide Reach, HasFrame;
    forall x: nat | x in t.stack ensures HasFrame(adj, t, x) {
      var i := FrameOf(adj, s, x);
      FrameIs(adj, t, x, i);
    }
  }

  lemma EmitOpen(s: State, comp: seq<nat>, t: State, v: nat)
    requires s.frames != [] && Split(s, comp, t) && FramesOrdered(s)
    ensures Open(t, v) <==> Open(s, v) && v != Top(s)
  {
    if Open(s, v) && v != Top(s) {
      var i: nat :| i < |s.frames| && s.Node(i) == v;
      assert t.Node(i) == v;
    }
    if Open(t, v) {
      var i: nat :| i < |t.frames| && t.Node(i) == v;
      assert s.Num(s.Node(i)) < s.Num(Top(s));
      assert s.Node(i) == v;
    }
  }

  lemma EmitExplored(adj: Adj, s: State, comp: seq<nat>, t: State)
    requires CanEmit(adj, s) && Split(s, comp, t) && FramesOrdered(s) && Explored(adj, s)
    ensures Explored(adj, t)
  {
    hide Open;
    forall j: nat | j < |t.frames| ensures Seen(adj, t, t.Node(j), t.frames[j].pos) {
      assert Seen(adj, s, s.Node(j), s.frames[j].pos);
    }
    forall v: nat | t.Visited(v) && !Open(t, v) ensures Seen(adj, t, v, |Out(adj, v)|) {
      EmitOpen(s, comp, t, v);
      assert Seen(adj, s, s.Node(|s.frames| - 1), s.frames[|s.frames| - 1].pos);
      assert !Open(s, v) ==> Seen(adj, s, v, |Out(adj, v)|);
    }
  }

  lemma EmitLows(adj: Adj, s: State, comp: seq<nat>, t: State)
    requires CanEmit(adj, s) && Split(s, comp, t) && FramesOrdered(s) && LowBounds(adj, s) && LowSound(adj, s)
    ensures LowBounds(adj, t) && LowSound(adj, t)
  {
    hide Open, Reach, LowOk;
    var m := |s.frames| - 1;
    forall j: nat | j < |t.frames|
      ensures Bounded(adj, t, t.Node(j), t.frames[j].pos, t.Low(t.Node(j)))
      ensures LowOk(adj, t, j)
    {
      assert Bounded(adj, s, s.Node(j), s.frames[j].pos, s.Low(s.Node(j)));
      LowAtMost(adj, s, j);
      assert LowOk(adj, s, j);
      var w := LowOf(adj, s, j);
      assert s.Num(s.Node(j)) < s.Num(s.Node(m));
      LowIs(adj, t, j, w);
    }
    forall i, x | Between(t, i, x) && !Open(t, x) ensures Bounded(adj, t, x, |Out(adj, x)|, t.Low(t.Node(i))) {
      EmitOpen(s, comp, t, x);
      assert Between(s, i, x);
      assert Bounded(adj, s, x, |Out(adj, x)|, s.Low(s.Node(i)));
    }
  }

  lemma OpenBelowTop(s: State, v: nat)
    requires s.frames != [] && FramesOrdered(s)
    ensures Open(s, v) ==> v == Top(s) || s.Num(v) < s.Num(Top(s))
  {
  }

  /** No edge leaves the component except into components already emitted. */
  lemma ComponentCloses(adj: Adj, s: State, comp: seq<nat>, t: State, x: nat, w: nat)
    requires CanEmit(adj, s) && Split(s, comp, t) && FramesOrdered(s) && Stacked(s)
    requires Explored(adj, s) && LowBounds(adj, s) && Partition(s)
    requires x in comp && Edge(adj, x, w)
    ensures w in comp || Emitted(s.sccs, w)
  {
    hide Emitted;
    var m := |s.frames| - 1;
    var k :| 0 <= k < |Out(adj, x)| && Out(adj, x)[k] == w;
    if x == Top(s) {
      assert Seen(adj, s, s.Node(m), s.frames[m].pos);
      assert Bounded(adj, s, s.Node(m), s.frames[m].pos, s.Low(s.Node(m)));
    } else {
      OpenBelowTop(s, x);
      assert Seen(adj, s, x, |Out(adj, x)|);
      assert Between(s, m, x);
      assert Bounded(adj, s, x, |Out(adj, x)|, s.Low(s.Node(m)));
    }
  }

  lemma ComponentMutual(adj: Adj, s: State, comp: seq<nat>, t: State, x: nat, y: nat)
    requires s.frames != [] && Split(s, comp, t) && Numbers(s) && FramesReach(adj, s) && StackReach(adj, s) && ToFrames(adj, s)
    requires Framed(adj, s) && Stacked(s) && x in comp && y in comp
    ensures Reach(adj, x, y)
  {
    hide Reach, HasFrame;
    StackReachesTop(adj, s, x);
    var top := Top(s);
    if s.Num(top) < s.Num(y) {
      assert top in s.stack;
      ReachTrans(adj, x, top, y);
    } else {
      SameNumber(s, y, top);
    }
  }

  lemma SameNumber(s: State, u: nat, v: nat)
    requires Numbers(s) && s.Num(u) == s.Num(v)
    ensures s.Visited(u) ==> u == v
  {
  }

  ghost function EmittedSet(n: nat, sccs: seq<seq<nat>>): set<nat> {
    set v: nat | v < n && Emitted(sccs, v)
  }

  lemma EmittedCloses(adj: Adj, sccs: seq<seq<nat>>, u: nat, v: nat)
    requires WfAdj(adj) && Components(adj, sccs) && Emitted(sccs, u) && Edge(adj, u, v)
    ensures Emitted(sccs, v) && v < |adj|
  {
    hide IsScc;
    var c :| 0 <= c < |sccs| && u in sccs[c];
    assert LeadsBack(adj, sccs, c);
    var d :| 0 <= d < |sccs[..c + 1]| && v in sccs[..c + 1][d];
    assert v in sccs[d];
  }

  /** A node mutually reachable with the component belongs to it. */
  lemma ComponentMaximal(adj: Adj, s: State, comp: seq<nat>, t: State, u: nat, v: nat)
    requires Inv(adj, s) && CanEmit(adj, s) && Split(s, comp, t)
    requires u in comp && u < |adj| && v < |adj| && Mutual(adj, u, v)
    ensures v in comp
  {
    hide Inv, Split, Reach, Emitted;
    var prior := EmittedSet(|adj|, s.sccs);
    var all := prior + set x | x in comp && x < |adj|;
    forall x, y | x in all && Edge(adj, x, y) ensures y in all {
      ClosureStep(adj, s, comp, t, x, y);
    }
    ReachStaysInside(adj, all, u, v);
    if v !in comp {
      forall x, y | x in prior && Edge(adj, x, y) ensures y in prior {
        OldStep(adj, s, x, y);
      }
      ReachStaysInside(adj, prior, v, u);
      EmittedNotStacked(adj, s, comp, t, u);
    }
  }

  lemma ClosureStep(adj: Adj, s: State, comp: seq<nat>, t: State, x: nat, y: nat)
    requires Inv(adj, s) && CanEmit(adj, s) && Split(s, comp, t) && Edge(adj, x, y)
    requires x in comp || x in EmittedSet(|adj|, s.sccs)
    ensures y < |adj| && (y in comp || y in EmittedSet(|adj|, s.sccs))
  {
    hide Numbers, Stacked, Framed, StackOrdered, FramesReach, StackReach, ToFrames, LowSound, Components, Reach, Seen,
         Bounded, Split, Explored, LowBounds, Partition, FramesOrdered, CanEmit;
    EdgeBound(adj, x, y);
    if x in comp {
      ComponentCloses(adj, s, comp, t, x, y);
    } else {
      EmittedCloses(adj, s.sccs, x, y);
    }
  }

  lemma EdgeBound(adj: Adj, x: nat, y: nat)
    requires WfAdj(adj) && Edge(adj, x, y)
    ensures y < |adj|
  {
  }

  lemma OldStep(adj: Adj, s: State, x: nat, y: nat)
    requires Inv(adj, s) && x in EmittedSet(|adj|, s.sccs) && Edge(adj, x, y)
    ensures y in EmittedSet(|adj|, s.sccs)
  {
    hide Numbers, Stacked, Framed, StackOrdered, FramesReach, StackReach, ToFrames, LowSound, Components, Reach,
         Explored, LowBounds, Partition, FramesOrdered;
    EmittedCloses(adj, s.sccs, x, y);
  }

  lemma EmittedNotStacked(adj: Adj, s: State, comp: seq<nat>, t: State, u: nat)
    requires Inv(adj, s) && s.frames != [] && Split(s, comp, t) && u in comp
    ensures u !in EmittedSet(|adj|, s.sccs)
  {
    hide Numbers, Stacked, Framed, StackOrdered, FramesReach, StackReach, ToFrames, LowSound, Components, Reach,
         Explored, LowBounds, FramesOrdered, Emitted;
  }

  lemma ComponentIsScc(adj: Adj, s: State, k: nat, comp: seq<nat>, t: State)
    requires Inv(adj, s) && CanEmit(adj, s) && Emits(s, k, comp, t) && Split(s, comp, t)
    ensures IsScc(adj, comp)
  {
    hide Framed, FramesReach, StackReach, ToFrames, LowSound, Components, Reach, Explored, LowBounds, Partition,
         FramesOrdered, Numbers, Split, CanEmit;
    forall i, j | 0 <= i < j < |comp| ensures comp[i] != comp[j] {
      assert s.Num(s.stack[|s.stack| - 1 - j]) < s.Num(s.stack[|s.stack| - 1 - i]);
    }
    forall i | 0 <= i < |comp| ensures comp[i] < |adj| {
      assert comp[i] in s.stack;
    }
    forall u, v: nat | u in comp && v < |adj| ensures v in comp <==> Mutual(adj, u, v) {
      if v in comp {
        ComponentMutual(adj, s, comp, t, u, v);
        ComponentMutual(adj, s, comp, t, v, u);
      } else if Mutual(adj, u, v) {
        ComponentMaximal(adj, s, comp, t, u, v);
      }
    }
  }

  lemma EmitComponents(adj: Adj, s: State, k: nat, comp: seq<nat>, t: State)
    requires Inv(adj, s) && CanEmit(adj, s) && Emits(s, k, comp, t) && Split(s, comp, t)
    ensures Components(adj, t.sccs)
  {
    hide Numbers, Stacked, Framed, StackOrdered, FramesReach, StackReach, ToFrames, LowSound, Reach, Explored,
         LowBounds, FramesOrdered, IsScc, Split, CanEmit;
    ComponentIsScc(adj, s, k, comp, t);
    var sccs := t.sccs;
    forall c | 0 <= c < |sccs| ensures IsScc(adj, sccs[c]) && LeadsBack(adj, sccs, c) {
      if c < |s.sccs| {
        assert LeadsBack(adj, s.sccs, c);
        assert sccs[..c + 1] == s.sccs[..c + 1];
      } else {
        forall u, v | u in sccs[c] && Edge(adj, u, v) ensures Emitted(sccs[..c + 1], v) {
          ComponentCloses(adj, s, comp, t, u, v);
          assert sccs[..c + 1] == sccs;
          EmittedMore(s.sccs, comp, v);
        }
      }
    }
    forall c, d, v | 0 <= c < d < |sccs| && v in sccs[c] ensures v !in sccs[d] {
      if d == |s.sccs| && v in comp {
        assert v in s.sccs[c];
        EmittedNotStacked(adj, s, comp, t, v);
        EmittedInside(adj, s, c, v);
      }
    }
  }

  lemma EmittedInside(adj: Adj, s: State, c: nat, v: nat)
    requires Components(adj, s.sccs) && c < |s.sccs| && v in s.sccs[c]
    ensures v in EmittedSet(|adj|, s.sccs)
  {
    assert IsScc(adj, s.sccs[c]);
  }

  lemma EmittedMore(sccs: seq<seq<nat>>, comp: seq<nat>, v: nat)
    ensures Emitted(sccs + [comp], v) <==> Emitted(sccs, v) || v in comp
  {
    var more := sccs + [comp];
    if Emitted(sccs, v) {
      var c :| 0 <= c < |sccs| && v in sccs[c];
      assert v in more[c];
    }
    if v in comp {
      assert v in more[|sccs|];
    }
  }

  lemma EmitPartition(adj: Adj, s: State, k: nat, comp: seq<nat>, t: State)
    requires Emits(s, k, comp, t) && Split(s, comp, t) && Partition(s) && Stacked(s)
    ensures Partition(t)
  {
    hide Emitted;
    forall v: nat ensures Emitted(t.sccs, v) <==> t.Visited(v) && v !in t.stack {
      EmittedMore(s.sccs, comp, v);
    }
  }

  /** Emitting the finished top component keeps the invariant. */
  lemma EmitKeeps(adj: Adj, s: State, k: nat, comp: seq<nat>, t: State)
    requires Inv(adj, s) && CanEmit(adj, s) && Emits(s, k, comp, t)
    ensures Inv(adj, t)
  {
    hide Numbers, Stacked, Framed, StackOrdered, FramesOrdered, FramesReach, StackReach, ToFrames, Explored, LowBounds,
         LowSound, Components, Partition, Reach, WfAdj, Split, CanEmit;
    assert s.frames != [];
    EmitSplits(s, k, comp, t);
    EmitShape(adj, s, k, comp, t);
    EmitOrdered(adj, s, k, comp, t);
    EmitReach(adj, s, comp, t);
    EmitToFrames(adj, s, comp, t);
    EmitExplored(adj, s, comp, t);
    EmitLows(adj, s, comp, t);
    EmitComponents(adj, s, k, comp, t);
    EmitPartition(adj, s, k, comp, t);
  }
}
