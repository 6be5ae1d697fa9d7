/** Exactly which edges and flags the dataflow walk produces: the ways through a block along which a name is read while it
    is still unassigned. */
module FoldExact {
  import opened CombCode
  import opened FoldScan
  import opened FoldSound
  import opened FoldWays
  import opened FoldFilter

  // ---- Early reads -------------------------------------------------------------------------------------

  /** Along c an assignment to x reads u, in its value or its target's indices, while u is unassigned; `known` says
      whether u has been assigned before b. */
  predicate DataEarly(b: Block, c: Choices, known: bool, u: Name, x: Name) {
    match b
    case End => false
    case Assign(t, e, rest) =>
      (!known && t.name == x && u in Idents(e) + IndexReads(t)) || DataEarly(rest, c, known || t.name == u, u, x)
    case Branch(_, _, arms, rest) =>
      ArmDataEarly(arms, c.K(), c.Inside(), known, u, x)
      || DataEarly(rest, c.After(), known || u in ArmAlong(arms, c.K(), c.Inside(), false), u, x)
    case Loop(_, _, body, rest) =>
      DataEarly(body, c.Inside(), known, u, x)
      || DataEarly(rest, c.After(), known || (c.K() != 0 && u in Along(body, c.Inside(), false)), u, x)
  }

  predicate ArmDataEarly(arms: Arms, k: nat, c: Choices, known: bool, u: Name, x: Name) {
    arms.Arm?
    && if k == 0 || arms.others.NoArms? then DataEarly(arms.body, c, known, u, x)
       else ArmDataEarly(arms.others, k - 1, c, known, u, x)
  }

  /** An assignment to x reads u with no assignment to u anywhere before it, other arms of the branches around it aside;
      `known` says whether there is one before b. */
  predicate DataUnset(b: Block, known: bool, u: Name, x: Name) {
    match b
    case End => false
    case Assign(t, e, rest) =>
      (!known && t.name == x && u in Idents(e) + IndexReads(t)) || DataUnset(rest, known || t.name == u, u, x)
    case Branch(_, _, arms, rest) => ArmsDataUnset(arms, known, u, x) || DataUnset(rest, known || ArmsAssign(arms, u), u, x)
    case Loop(_, _, body, rest) => DataUnset(body, known, u, x) || DataUnset(rest, known || Assigns(body, u), u, x)
  }

  predicate ArmsDataUnset(arms: Arms, known: bool, u: Name, x: Name) {
    arms.Arm? && (DataUnset(arms.body, known, u, x) || ArmsDataUnset(arms.others, known, u, x))
  }

  /** Along c, with every loop body taken once, a condition around an assignment to x reads u while u is unassigned. */
  predicate ConditionEarly(b: Block, c: Choices, known: bool, u: Name, x: Name) {
    match b
    case End => false
    case Assign(t, _, rest) => ConditionEarly(rest, c, known || t.name == u, u, x)
    case Branch(scrut, _, arms, rest) =>
      (!known && u in Idents(scrut) && ArmsAssign(arms, x))
      || ArmConditionEarly(arms, c.K(), c.Inside(), known, u, x)
      || ConditionEarly(rest, c.After(), known || u in ArmAlong(arms, c.K(), c.Inside(), true), u, x)
    case Loop(_, _, body, rest) =>
      ConditionEarly(body, c.Inside(), known, u, x)
      || ConditionEarly(rest, c.After(), known || u in Along(body, c.Inside(), true), u, x)
  }

  predicate ArmConditionEarly(arms: Arms, k: nat, c: Choices, known: bool, u: Name, x: Name) {
    arms.Arm?
    && if k == 0 || arms.others.NoArms? then ConditionEarly(arms.body, c, known, u, x)
       else ArmConditionEarly(arms.others, k - 1, c, known, u, x)
  }

  lemma {:induction false} SetIsNotEarly(b: Block, c: Choices, u: Name, x: Name)
    ensures !DataEarly(b, c, true, u, x) && !ConditionEarly(b, c, true, u, x)
  {
    match b
    case End =>
    case Assign(_, _, rest) => SetIsNotEarly(rest, c, u, x);
    case Branch(_, _, arms, rest) =>
      ArmSetIsNotEarly(arms, c.K(), c.Inside(), u, x);
      SetIsNotEarly(rest, c.After(), u, x);
    case Loop(_, _, body, rest) =>
      SetIsNotEarly(body, c.Inside(), u, x);
      SetIsNotEarly(rest, c.After(), u, x);
  }

  lemma {:induction false} ArmSetIsNotEarly(arms: Arms, k: nat, c: Choices, u: Name, x: Name)
    ensures !ArmDataEarly(arms, k, c, true, u, x) && !ArmConditionEarly(arms, k, c, true, u, x)
  {
    if arms.Arm? {
      if k == 0 || arms.others.NoArms? { SetIsNotEarly(arms.body, c, u, x); }
      else { ArmSetIsNotEarly(arms.others, k - 1, c, u, x); }
    }
  }

  // ---- Some way with an early read -----------------------------------------------------------------------

  /** From what the walk knows, some way reads u early in an assignment to x, as the filter judges data reads. */
  ghost predicate DataWay(b: Block, f: Flow, strict: bool, u: Name, x: Name) {
    if strict then exists c :: DataEarly(b, c, u in f.written, u, x) else DataUnset(b, u in f.ever, u, x)
  }

  ghost predicate ArmsDataWay(arms: Arms, f: Flow, strict: bool, u: Name, x: Name) {
    if strict then exists k: nat, c :: ArmDataEarly(arms, k, c, u in f.written, u, x) else ArmsDataUnset(arms, u in f.ever, u, x)
  }

  ghost predicate ConditionWay(b: Block, f: Flow, u: Name, x: Name) {
    exists c :: ConditionEarly(b, c, u in f.grounded, u, x)
  }

  ghost predicate ArmsConditionWay(arms: Arms, f: Flow, u: Name, x: Name) {
    exists k: nat, c :: ArmConditionEarly(arms, k, c, u in f.grounded, u, x)
  }

  lemma AssignWay(b: Block, f: Flow, strict: bool, u: Name, x: Name)
    requires b.Assign?
    ensures DataWay(b, f, strict, u, x) <==>
            (b.target.name == x && u in Idents(b.value) + IndexReads(b.target) && u !in DataBase(f, strict))
            || DataWay(b.rest, Assigned(f, b.target.name), strict, u, x)
    ensures ConditionWay(b, f, u, x) <==> ConditionWay(b.rest, Assigned(f, b.target.name), u, x)
  {
    var next := Assigned(f, b.target.name);
    if strict {
      forall c ensures DataEarly(b, c, u in f.written, u, x) <==>
                       (b.target.name == x && u in Idents(b.value) + IndexReads(b.target) && u !in f.written)
                       || DataEarly(b.rest, c, u in next.written, u, x) {
      }
      if b.target.name == x && u in Idents(b.value) + IndexReads(b.target) && u !in f.written {
        assert DataEarly(b, Anyway, u in f.written, u, x);
      }
    }
    forall c ensures ConditionEarly(b, c, u in f.grounded, u, x) <==> ConditionEarly(b.rest, c, u in next.grounded, u, x) {
    }
  }

  lemma BranchDataWay(b: Block, f: Flow, conds: seq<Frame>, edges: Edges, strict: bool, u: Name, x: Name)
    requires b.Branch?
    ensures DataWay(b, f, strict, u, x) <==>
            ArmsDataWay(b.arms, f, strict, u, x) || DataWay(b.rest, ScanArms(b.arms, f, conds, edges, strict).0, strict, u, x)
  {
    hide Scan, ScanArms;
    var after := ScanArms(b.arms, f, conds, edges, strict).0;
    ArmsEverIsAssigned(b.arms, f, conds, edges, strict);
    if strict {
      if DataWay(b, f, strict, u, x) {
        var c :| DataEarly(b, c, u in f.written, u, x);
        if !ArmDataEarly(b.arms, c.K(), c.Inside(), u in f.written, u, x) {
          ArmKnownAlong(b.arms, f, conds, edges, strict, c.K(), c.Inside(), false);
          SetIsNotEarly(b.rest, c.After(), u, x);
          assert DataEarly(b.rest, c.After(), u in after.written, u, x);
        }
      }
      if ArmsDataWay(b.arms, f, strict, u, x) {
        var k: nat, c :| ArmDataEarly(b.arms, k, c, u in f.written, u, x);
        assert DataEarly(b, Choice(k, c, Anyway), u in f.written, u, x);
      }
      if DataWay(b.rest, after, strict, u, x) {
        var c :| DataEarly(b.rest, c, u in after.written, u, x);
        SetIsNotEarly(b.rest, c, u, x);
        var k, inside := MissingArm(b.arms, f, conds, edges, strict, u, false);
        assert DataEarly(b, Choice(k, inside, c), u in f.written, u, x);
      }
    }
  }

  lemma BranchConditionWay(b: Block, f: Flow, conds: seq<Frame>, edges: Edges, strict: bool, u: Name, x: Name)
    requires b.Branch?
    ensures ConditionWay(b, f, u, x) <==>
            (u !in f.grounded && u in Idents(b.scrut) && ArmsAssign(b.arms, x))
            || ArmsConditionWay(b.arms, f, u, x) || ConditionWay(b.rest, ScanArms(b.arms, f, conds, edges, strict).0, u, x)
  {
    hide Scan, ScanArms;
    var after := ScanArms(b.arms, f, conds, edges, strict).0;
    if ConditionWay(b, f, u, x) {
      var c :| ConditionEarly(b, c, u in f.grounded, u, x);
      if !ArmConditionEarly(b.arms, c.K(), c.Inside(), u in f.grounded, u, x)
         && !(u !in f.grounded && u in Idents(b.scrut) && ArmsAssign(b.arms, x)) {
        ArmKnownAlong(b.arms, f, conds, edges, strict, c.K(), c.Inside(), true);
        SetIsNotEarly(b.rest, c.After(), u, x);
        assert ConditionEarly(b.rest, c.After(), u in after.grounded, u, x);
      }
    }
    if u !in f.grounded && u in Idents(b.scrut) && ArmsAssign(b.arms, x) {
      assert ConditionEarly(b, Anyway, u in f.grounded, u, x);
    }
    if ArmsConditionWay(b.arms, f, u, x) {
      var k: nat, c :| ArmConditionEarly(b.arms, k, c, u in f.grounded, u, x);
      assert ConditionEarly(b, Choice(k, c, Anyway), u in f.grounded, u, x);
    }
    if ConditionWay(b.rest, after, u, x) {
      var c :| ConditionEarly(b.rest, c, u in after.grounded, u, x);
      SetIsNotEarly(b.rest, c, u, x);
      var k, inside := MissingArm(b.arms, f, conds, edges, strict, u, true);
      assert ConditionEarly(b, Choice(k, inside, c), u in f.grounded, u, x);
    }
  }

  lemma LoopDataWay(b: Block, f: Flow, conds: seq<Frame>, edges: Edges, strict: bool, u: Name, x: Name)
    requires b.Loop?
    ensures var r := Scan(b.body, f, conds, edges, strict).0;
            DataWay(b, f, strict, u, x) <==>
            DataWay(b.body, f, strict, u, x) || DataWay(b.rest, Flow(f.written, r.ever, r.grounded), strict, u, x)
  {
    hide Scan;
    EverIsAssigned(b.body, f, conds, edges, strict);
    if strict {
      if DataWay(b, f, strict, u, x) {
        var c :| DataEarly(b, c, u in f.written, u, x);
        SetIsNotEarly(b.rest, c.After(), u, x);
        assert DataEarly(b.body, c.Inside(), u in f.written, u, x) || DataEarly(b.rest, c.After(), u in f.written, u, x);
      }
      if DataWay(b.body, f, strict, u, x) {
        var c :| DataEarly(b.body, c, u in f.written, u, x);
        assert DataEarly(b, Choice(0, c, Anyway), u in f.written, u, x);
      }
      if exists c :: DataEarly(b.rest, c, u in f.written, u, x) {
        var c :| DataEarly(b.rest, c, u in f.written, u, x);
        assert DataEarly(b, Choice(0, Anyway, c), u in f.written, u, x);
      }
    }
  }

  lemma LoopConditionWay(b: Block, f: Flow, conds: seq<Frame>, edges: Edges, strict: bool, u: Name, x: Name)
    requires b.Loop?
    ensures var r := Scan(b.body, f, conds, edges, strict).0;
            ConditionWay(b, f, u, x) <==>
            ConditionWay(b.body, f, u, x) || ConditionWay(b.rest, Flow(f.written, r.ever, r.grounded), u, x)
  {
    hide Scan;
    var after := Scan(b.body, f, conds, edges, strict).0;
    if ConditionWay(b, f, u, x) {
      var c :| ConditionEarly(b, c, u in f.grounded, u, x);
      KnownAlong(b.body, f, conds, edges, strict, c.Inside(), true);
      SetIsNotEarly(b.rest, c.After(), u, x);
      assert ConditionEarly(b.body, c.Inside(), u in f.grounded, u, x) || ConditionEarly(b.rest, c.After(), u in after.grounded, u, x);
    }
    if ConditionWay(b.body, f, u, x) {
      var c :| ConditionEarly(b.body, c, u in f.grounded, u, x);
      assert ConditionEarly(b, Choice(0, c, Anyway), u in f.grounded, u, x);
    }
    if exists c :: ConditionEarly(b.rest, c, u in after.grounded, u, x) {
      var c :| ConditionEarly(b.rest, c, u in after.grounded, u, x);
      SetIsNotEarly(b.rest, c, u, x);
      var inside := Missing(b.body, f, conds, edges, strict, u, true);
      assert ConditionEarly(b, Choice(0, inside, c), u in f.grounded, u, x);
    }
  }

  lemma ArmsWay(arms: Arms, f: Flow, strict: bool, u: Name, x: Name)
    ensures ArmsDataWay(arms, f, strict, u, x) <==>
            arms.Arm? && (DataWay(arms.body, f, strict, u, x) || ArmsDataWay(arms.others, f, strict, u, x))
    ensures ArmsConditionWay(arms, f, u, x) <==>
            arms.Arm? && (ConditionWay(arms.body, f, u, x) || ArmsConditionWay(arms.others, f, u, x))
  {
    if arms.Arm? {
      FirstOrLater(arms, f, u, x);
      if exists c :: DataEarly(arms.body, c, u in f.written, u, x) {
        var c :| DataEarly(arms.body, c, u in f.written, u, x);
        assert ArmDataEarly(arms, 0, c, u in f.written, u, x);
      }
      if exists k: nat, c :: ArmDataEarly(arms.others, k, c, u in f.written, u, x) {
        var k: nat, c :| ArmDataEarly(arms.others, k, c, u in f.written, u, x);
        var next := k + 1;
        assert ArmDataEarly(arms, next, c, u in f.written, u, x);
      }
      if exists c :: ConditionEarly(arms.body, c, u in f.grounded, u, x) {
        var c :| ConditionEarly(arms.body, c, u in f.grounded, u, x);
        assert ArmConditionEarly(arms, 0, c, u in f.grounded, u, x);
      }
      if exists k: nat, c :: ArmConditionEarly(arms.others, k, c, u in f.grounded, u, x) {
        var k: nat, c :| ArmConditionEarly(arms.others, k, c, u in f.grounded, u, x);
        var next := k + 1;
        assert ArmConditionEarly(arms, next, c, u in f.grounded, u, x);
      }
    }
  }

  lemma FirstOrLater(arms: Arms, f: Flow, u: Name, x: Name)
    requires arms.Arm?
    ensures ArmsDataWay(arms, f, true, u, x) ==> DataWay(arms.body, f, true, u, x) || ArmsDataWay(arms.others, f, true, u, x)
    ensures ArmsConditionWay(arms, f, u, x) ==> ConditionWay(arms.body, f, u, x) || ArmsConditionWay(arms.others, f, u, x)
  {
    if ArmsDataWay(arms, f, true, u, x) {
      var k: nat, c :| ArmDataEarly(arms, k, c, u in f.written, u, x);
      assert DataEarly(arms.body, c, u in f.written, u, x) || (k > 0 && ArmDataEarly(arms.others, k - 1, c, u in f.written, u, x));
    }
    if ArmsConditionWay(arms, f, u, x) {
      var k: nat, c :| ArmConditionEarly(arms, k, c, u in f.grounded, u, x);
      assert ConditionEarly(arms.body, c, u in f.grounded, u, x)
             || (k > 0 && ArmConditionEarly(arms.others, k - 1, c, u in f.grounded, u, x));
    }
  }

  lemma NoWay(f: Flow, strict: bool, u: Name, x: Name)
    ensures !DataWay(End, f, strict, u, x) && !ConditionWay(End, f, u, x)
  {
  }

  // ---- Ungrounded edges, exactly -------------------------------------------------------------------------

  predicate Ungrounded(edges: Edges, u: Name, x: Name) { (u, x) in edges && !edges[(u, x)] }

  /** Some enclosing condition read u before it was established. */
  predicate OpenFrame(conds: seq<Frame>, u: Name) {
    exists k :: 0 <= k < |conds| && u in conds[k] && !conds[k][u]
  }

  lemma OpenFrameLast(conds: seq<Frame>, frame: Frame, u: Name)
    ensures OpenFrame(conds + [frame], u) <==> OpenFrame(conds, u) || (u in frame && !frame[u])
  {
    var all := conds + [frame];
    if u in frame && !frame[u] { assert u in all[|conds|] && !all[|conds|][u]; }
    if OpenFrame(conds, u) {
      var k :| 0 <= k < |conds| && u in conds[k] && !conds[k][u];
      assert u in all[k] && !all[k][u];
    }
  }

  lemma JoinUngrounded(edges: Edges, frame: Frame, y: Name, u: Name, x: Name)
    ensures Ungrounded(Join(edges, frame, y), u, x) <==>
            Ungrounded(edges, u, x) || (x == y && u in frame && !frame[u])
  {
    hide Join;
    JoinAt(edges, frame, y, (u, x));
  }

  lemma {:induction false} JoinAllUngrounded(edges: Edges, conds: seq<Frame>, skip: set<Name>, y: Name, u: Name, x: Name)
    ensures Ungrounded(JoinAll(edges, conds, skip, y), u, x) <==>
            Ungrounded(edges, u, x) || (x == y && u !in skip && OpenFrame(conds, u))
    decreases |conds|
  {
    hide Join, Ungrounded;
    if conds != [] {
      var earlier, last := conds[..|conds| - 1], conds[|conds| - 1];
      JoinAllUngrounded(edges, earlier, skip, y, u, x);
      OpenFrameLast(earlier, last, u);
      assert earlier + [last] == conds;
      JoinUngrounded(JoinAll(edges, earlier, skip, y), last - skip, y, u, x);
    }
  }

  /** What one assignment adds. */
  lemma AssignUngrounded(t: Target, e: Expr, f: Flow, conds: seq<Frame>, edges: Edges, strict: bool, u: Name, x: Name)
    ensures Ungrounded(AssignEdges(t, e, f, conds, edges, strict), u, x) <==>
            Ungrounded(edges, u, x)
            || (t.name == x && !(u == x && x in f.written)
                && ((u in Idents(e) + IndexReads(t) && u !in DataBase(f, strict)) || OpenFrame(conds, u)))
  {
    hide Join, JoinAll, Ungrounded, OpenFrame, DataBase;
    var frame := Reads(Idents(e) + IndexReads(t), DataBase(f, strict)) - Skip(f, t.name);
    JoinUngrounded(edges, frame, t.name, u, x);
    JoinAllUngrounded(Join(edges, frame, t.name), conds, Skip(f, t.name), t.name, u, x);
  }

  lemma AssignStep(b: Block, f: Flow, conds: seq<Frame>, edges: Edges, strict: bool)
    requires b.Assign?
    ensures Scan(b, f, conds, edges, strict)
         == Scan(b.rest, Assigned(f, b.target.name), conds, AssignEdges(b.target, b.value, f, conds, edges, strict), strict)
  {
  }

  /** An enclosing condition leaves the edge to x ungrounded when b still gives x its first assignment, or another one. */
  ghost predicate FromFrame(b: Block, f: Flow, conds: seq<Frame>, u: Name, x: Name) {
    OpenFrame(conds, u) && Assigns(b, x) && !(u == x && x in f.written)
  }

  ghost predicate ArmsFromFrame(arms: Arms, f: Flow, conds: seq<Frame>, u: Name, x: Name) {
    OpenFrame(conds, u) && ArmsAssign(arms, x) && !(u == x && x in f.written)
  }

  /** An edge is ungrounded after a block exactly if it was before, or for an early read, or for an enclosing condition. */
  lemma {:induction false} ScanUngrounded(b: Block, f: Flow, conds: seq<Frame>, edges: Edges, strict: bool, u: Name, x: Name)
    requires Nested(f)
    ensures Ungrounded(Scan(b, f, conds, edges, strict).1, u, x) <==>
            Ungrounded(edges, u, x) || FromFrame(b, f, conds, u, x) || DataWay(b, f, strict, u, x) || ConditionWay(b, f, u, x)
    decreases b
  {
    hide Join, JoinAll, Ungrounded, OpenFrame, AssignEdges, DataWay, ConditionWay, ArmsDataWay, ArmsConditionWay;
    match b
    case End => NoWay(f, strict, u, x);
    case Assign(t, e, rest) =>
      AssignUngrounded(t, e, f, conds, edges, strict, u, x);
      AssignStep(b, f, conds, edges, strict);
      AssignWay(b, f, strict, u, x);
      ScanUngrounded(rest, Assigned(f, t.name), conds, AssignEdges(t, e, f, conds, edges, strict), strict, u, x);
    case Branch(scrut, _, arms, rest) =>
      var frame := Reads(Idents(scrut), f.grounded);
      var inner := conds + [frame];
      var r := ScanArms(arms, f, inner, edges, strict);
      OpenFrameLast(conds, frame, u);
      BranchDataWay(b, f, inner, edges, strict, u, x);
      BranchConditionWay(b, f, inner, edges, strict, u, x);
      ArmsUngrounded(arms, f, inner, edges, strict, u, x);
      ScanArmsNested(arms, f, inner, edges, strict);
      if x in r.0.written { ArmsMakeKnown(arms, f, inner, edges, strict, false, x); }
      ScanUngrounded(rest, r.0, conds, r.1, strict, u, x);
    case Loop(_, _, body, rest) =>
      var r := Scan(body, f, conds, edges, strict);
      LoopDataWay(b, f, conds, edges, strict, u, x);
      LoopConditionWay(b, f, conds, edges, strict, u, x);
      ScanNested(body, f, conds, edges, strict);
      ScanUngrounded(body, f, conds, edges, strict, u, x);
      ScanUngrounded(rest, Flow(f.written, r.0.ever, r.0.grounded), conds, r.1, strict, u, x);
  }

  lemma {:induction false} ArmsUngrounded(arms: Arms, f: Flow, conds: seq<Frame>, edges: Edges, strict: bool, u: Name, x: Name)
    requires Nested(f)
    ensures Ungrounded(ScanArms(arms, f, conds, edges, strict).1, u, x) <==>
            Ungrounded(edges, u, x) || ArmsFromFrame(arms, f, conds, u, x)
            || ArmsDataWay(arms, f, strict, u, x) || ArmsConditionWay(arms, f, u, x)
    decreases arms
  {
    hide Ungrounded, OpenFrame, DataWay, ConditionWay, ArmsDataWay, ArmsConditionWay;
    ArmsWay(arms, f, strict, u, x);
    if arms.Arm? {
      var first := Scan(arms.body, f, conds, edges, strict);
      ScanUngrounded(arms.body, f, conds, edges, strict, u, x);
      ArmsWay(arms.others, f, strict, u, x);
      ArmsUngrounded(arms.others, f, conds, first.1, strict, u, x);
    }
  }

  ghost predicate ReadsConditionEarly(b: Block, u: Name, x: Name) {
    exists c :: ConditionEarly(b, c, false, u, x)
  }

  ghost predicate ReadsDataEarly(b: Block, u: Name, x: Name) {
    exists c :: DataEarly(b, c, false, u, x)
  }

  /** The flags of a whole block, loops included. An edge is ungrounded exactly when, along some way with every loop body
      taken once, a condition around an assignment to its target reads its source before it is assigned, or an
      assignment to its target reads it too early: in the strict reading along some way, in the shipped one with no
      assignment to it anywhere before. */
  lemma UngroundedExactly(b: Block, strict: bool, u: Name, x: Name)
    ensures Ungrounded(BlockEdges(b, strict), u, x) <==>
            ReadsConditionEarly(b, u, x) || if strict then ReadsDataEarly(b, u, x) else DataUnset(b, false, u, x)
  {
    hide Ungrounded, Scan;
    FromNothing(b, u, x);
    ScanUngrounded(b, NOTHING, [], map[], strict, u, x);
    NothingUngrounded(u, x);
  }

  lemma FromNothing(b: Block, u: Name, x: Name)
    ensures ConditionWay(b, NOTHING, u, x) <==> ReadsConditionEarly(b, u, x)
    ensures DataWay(b, NOTHING, true, u, x) <==> ReadsDataEarly(b, u, x)
  {
    if ConditionWay(b, NOTHING, u, x) {
      var c :| ConditionEarly(b, c, u in NOTHING.grounded, u, x);
      assert ConditionEarly(b, c, false, u, x);
    }
    if ReadsConditionEarly(b, u, x) {
      var c :| ConditionEarly(b, c, false, u, x);
      assert ConditionEarly(b, c, u in NOTHING.grounded, u, x);
    }
    if DataWay(b, NOTHING, true, u, x) {
      var c :| DataEarly(b, c, u in NOTHING.written, u, x);
      assert DataEarly(b, c, false, u, x);
    }
    if ReadsDataEarly(b, u, x) {
      var c :| DataEarly(b, c, false, u, x);
      assert DataEarly(b, c, u in NOTHING.written, u, x);
    }
  }

  lemma NothingUngrounded(u: Name, x: Name)
    ensures !Ungrounded(map[], u, x) && !OpenFrame([], u)
  {
  }

  // ---- Self edges, exactly ---------------------------------------------------------------------------------

  /** Along c an assignment to x reads x, or stands under a condition that does, before x is assigned; `guarded` says
      whether a condition around b reads x. */
  predicate SelfRead(b: Block, c: Choices, known: bool, guarded: bool, x: Name) {
    match b
    case End => false
    case Assign(t, e, rest) =>
      (!known && t.name == x && (guarded || x in Idents(e) + IndexReads(t))) || SelfRead(rest, c, known || t.name == x, guarded, x)
    case Branch(scrut, _, arms, rest) =>
      ArmSelfRead(arms, c.K(), c.Inside(), known, guarded || x in Idents(scrut), x)
      || SelfRead(rest, c.After(), known || x in ArmAlong(arms, c.K(), c.Inside(), false), guarded, x)
    case Loop(_, _, body, rest) =>
      SelfRead(body, c.Inside(), known, guarded, x)
      || SelfRead(rest, c.After(), known || (c.K() != 0 && x in Along(body, c.Inside(), false)), guarded, x)
  }

  predicate ArmSelfRead(arms: Arms, k: nat, c: Choices, known: bool, guarded: bool, x: Name) {
    arms.Arm?
    && if k == 0 || arms.others.NoArms? then SelfRead(arms.body, c, known, guarded, x)
       else ArmSelfRead(arms.others, k - 1, c, known, guarded, x)
  }

  ghost predicate SelfWay(b: Block, known: bool, guarded: bool, x: Name) {
    exists c :: SelfRead(b, c, known, guarded, x)
  }

  ghost predicate ArmsSelfWay(arms: Arms, known: bool, guarded: bool, x: Name) {
    exists k: nat, c :: ArmSelfRead(arms, k, c, known, guarded, x)
  }

  lemma {:induction false} KnownIsNoSelf(b: Block, c: Choices, guarded: bool, x: Name)
    ensures !SelfRead(b, c, true, guarded, x)
  {
    match b
    case End =>
    case Assign(_, _, rest) => KnownIsNoSelf(rest, c, guarded, x);
    case Branch(scrut, _, arms, rest) =>
      ArmKnownIsNoSelf(arms, c.K(), c.Inside(), guarded || x in Idents(scrut), x);
      KnownIsNoSelf(rest, c.After(), guarded, x);
    case Loop(_, _, body, rest) =>
      KnownIsNoSelf(body, c.Inside(), guarded, x);
      KnownIsNoSelf(rest, c.After(), guarded, x);
  }

  lemma {:induction false} ArmKnownIsNoSelf(arms: Arms, k: nat, c: Choices, guarded: bool, x: Name)
    ensures !ArmSelfRead(arms, k, c, true, guarded, x)
  {
    if arms.Arm? {
      if k == 0 || arms.others.NoArms? { KnownIsNoSelf(arms.body, c, guarded, x); }
      else { ArmKnownIsNoSelf(arms.others, k - 1, c, guarded, x); }
    }
  }

  lemma BranchSelfWay(b: Block, f: Flow, conds: seq<Frame>, edges: Edges, strict: bool, guarded: bool, x: Name)
    requires b.Branch?
    ensures SelfWay(b, x in f.written, guarded, x) <==>
            ArmsSelfWay(b.arms, x in f.written, guarded || x in Idents(b.scrut), x)
            || SelfWay(b.rest, x in ScanArms(b.arms, f, conds, edges, strict).0.written, guarded, x)
  {
    hide Scan, ScanArms;
    var after := ScanArms(b.arms, f, conds, edges, strict).0;
    var inner := guarded || x in Idents(b.scrut);
    if SelfWay(b, x in f.written, guarded, x) {
      var c :| SelfRead(b, c, x in f.written, guarded, x);
      if !ArmSelfRead(b.arms, c.K(), c.Inside(), x in f.written, inner, x) {
        ArmKnownAlong(b.arms, f, conds, edges, strict, c.K(), c.Inside(), false);
        KnownIsNoSelf(b.rest, c.After(), guarded, x);
        assert SelfRead(b.rest, c.After(), x in after.written, guarded, x);
      }
    }
    if ArmsSelfWay(b.arms, x in f.written, inner, x) {
      var k: nat, c :| ArmSelfRead(b.arms, k, c, x in f.written, inner, x);
      assert SelfRead(b, Choice(k, c, Anyway), x in f.written, guarded, x);
    }
    if SelfWay(b.rest, x in after.written, guarded, x) {
      var c :| SelfRead(b.rest, c, x in after.written, guarded, x);
      KnownIsNoSelf(b.rest, c, guarded, x);
      var k, inside := MissingArm(b.arms, f, conds, edges, strict, x, false);
      assert SelfRead(b, Choice(k, inside, c), x in f.written, guarded, x);
    }
  }

  lemma LoopSelfWay(b: Block, known: bool, guarded: bool, x: Name)
    requires b.Loop?
    ensures SelfWay(b, known, guarded, x) <==> SelfWay(b.body, known, guarded, x) || SelfWay(b.rest, known, guarded, x)
  {
    if SelfWay(b, known, guarded, x) {
      var c :| SelfRead(b, c, known, guarded, x);
      KnownIsNoSelf(b.rest, c.After(), guarded, x);
      assert SelfRead(b.body, c.Inside(), known, guarded, x) || SelfRead(b.rest, c.After(), known, guarded, x);
    }
    if SelfWay(b.body, known, guarded, x) {
      var c :| SelfRead(b.body, c, known, guarded, x);
      assert SelfRead(b, Choice(0, c, Anyway), known, guarded, x);
    }
    if SelfWay(b.rest, known, guarded, x) {
      var c :| SelfRead(b.rest, c, known, guarded, x);
      assert SelfRead(b, Choice(0, Anyway, c), known, guarded, x);
    }
  }

  lemma AssignSelfWay(b: Block, known: bool, guarded: bool, x: Name)
    requires b.Assign?
    ensures SelfWay(b, known, guarded, x) <==>
            (!known && b.target.name == x && (guarded || x in Idents(b.value) + IndexReads(b.target)))
            || SelfWay(b.rest, known || b.target.name == x, guarded, x)
  {
    if SelfWay(b, known, guarded, x) {
      var c :| SelfRead(b, c, known, guarded, x);
      assert (!known && b.target.name == x && (guarded || x in Idents(b.value) + IndexReads(b.target)))
             || SelfRead(b.rest, c, known || b.target.name == x, guarded, x);
    }
    if !known && b.target.name == x && (guarded || x in Idents(b.value) + IndexReads(b.target)) {
      assert SelfRead(b, Anyway, known, guarded, x);
    }
    if SelfWay(b.rest, known || b.target.name == x, guarded, x) {
      var c :| SelfRead(b.rest, c, known || b.target.name == x, guarded, x);
      assert SelfRead(b, c, known, guarded, x);
    }
  }

  lemma ArmsSelf(arms: Arms, known: bool, guarded: bool, x: Name)
    ensures ArmsSelfWay(arms, known, guarded, x) <==>
            arms.Arm? && (SelfWay(arms.body, known, guarded, x) || ArmsSelfWay(arms.others, known, guarded, x))
  {
    if arms.Arm? {
      if ArmsSelfWay(arms, known, guarded, x) {
        var k: nat, c :| ArmSelfRead(arms, k, c, known, guarded, x);
        assert SelfRead(arms.body, c, known, guarded, x) || (k > 0 && ArmSelfRead(arms.others, k - 1, c, known, guarded, x));
      }
      if SelfWay(arms.body, known, guarded, x) {
        var c :| SelfRead(arms.body, c, known, guarded, x);
        assert ArmSelfRead(arms, 0, c, known, guarded, x);
      }
      if ArmsSelfWay(arms.others, known, guarded, x) {
        var k: nat, c :| ArmSelfRead(arms.others, k, c, known, guarded, x);
        var next := k + 1;
        assert ArmSelfRead(arms, next, c, known, guarded, x);
      }
    }
  }

  lemma AssignSelf(t: Target, e: Expr, f: Flow, conds: seq<Frame>, edges: Edges, strict: bool, x: Name)
    ensures (x, x) in AssignEdges(t, e, f, conds, edges, strict) <==>
            (x, x) in edges
            || (x !in f.written && t.name == x && (OnFrames(conds, x) || x in Idents(e) + IndexReads(t)))
  {
    hide Join, JoinAll, OnFrames, DataBase;
    var frame := Reads(Idents(e) + IndexReads(t), DataBase(f, strict)) - Skip(f, t.name);
    JoinKeys(edges, frame, t.name, x, x);
    if x in Skip(f, t.name) {
      SkippedSelf(Join(edges, frame, t.name), conds, Skip(f, t.name), t.name, x);
    } else {
      JoinAllKeys(Join(edges, frame, t.name), conds, Skip(f, t.name), t.name, x, x);
    }
  }

  lemma {:induction false} SkippedSelf(edges: Edges, conds: seq<Frame>, skip: set<Name>, y: Name, x: Name)
    requires x in skip
    ensures (x, x) in JoinAll(edges, conds, skip, y) <==> (x, x) in edges
    decreases |conds|
  {
    hide Join;
    if conds != [] {
      SkippedSelf(edges, conds[..|conds| - 1], skip, y, x);
      JoinKeys(JoinAll(edges, conds[..|conds| - 1], skip, y), conds[|conds| - 1] - skip, y, x, x);
    }
  }

  lemma {:induction false} ScanSelf(b: Block, f: Flow, conds: seq<Frame>, edges: Edges, strict: bool, x: Name)
    ensures (x, x) in Scan(b, f, conds, edges, strict).1 <==> (x, x) in edges || SelfWay(b, x in f.written, OnFrames(conds, x), x)
    decreases b
  {
    hide Join, JoinAll, OnFrames, AssignEdges, SelfWay, ArmsSelfWay, DataBase;
    match b
    case End => assert !SelfWay(End, x in f.written, OnFrames(conds, x), x) by { NoSelfWay(x in f.written, OnFrames(conds, x), x); }
    case Assign(t, e, rest) =>
      AssignSelf(t, e, f, conds, edges, strict, x);
      AssignStep(b, f, conds, edges, strict);
      AssignSelfWay(b, x in f.written, OnFrames(conds, x), x);
      ScanSelf(rest, Assigned(f, t.name), conds, AssignEdges(t, e, f, conds, edges, strict), strict, x);
    case Branch(scrut, _, arms, rest) =>
      var frame := Reads(Idents(scrut), f.grounded);
      var r := ScanArms(arms, f, conds + [frame], edges, strict);
      OnFramesLast(conds, frame, x);
      BranchSelfWay(b, f, conds + [frame], edges, strict, OnFrames(conds, x), x);
      ScanArmsSelf(arms, f, conds + [frame], edges, strict, x);
      ScanSelf(rest, r.0, conds, r.1, strict, x);
    case Loop(_, _, body, rest) =>
      var r := Scan(body, f, conds, edges, strict);
      LoopSelfWay(b, x in f.written, OnFrames(conds, x), x);
      ScanSelf(body, f, conds, edges, strict, x);
      ScanSelf(rest, Flow(f.written, r.0.ever, r.0.grounded), conds, r.1, strict, x);
  }

  lemma NoSelfWay(known: bool, guarded: bool, x: Name)
    ensures !SelfWay(End, known, guarded, x)
  {
  }

  lemma {:induction false} ScanArmsSelf(arms: Arms, f: Flow, conds: seq<Frame>, edges: Edges, strict: bool, x: Name)
    ensures (x, x) in ScanArms(arms, f, conds, edges, strict).1 <==>
            (x, x) in edges || ArmsSelfWay(arms, x in f.written, OnFrames(conds, x), x)
    decreases arms
  {
    hide OnFrames, SelfWay, ArmsSelfWay;
    ArmsSelf(arms, x in f.written, OnFrames(conds, x), x);
    if arms.Arm? {
      var first := Scan(arms.body, f, conds, edges, strict);
      ScanSelf(arms.body, f, conds, edges, strict, x);
      ArmsSelf(arms.others, x in f.written, OnFrames(conds, x), x);
      ScanArmsSelf(arms.others, f, conds, first.1, strict, x);
    }
  }

  /** A signal has an edge to itself exactly when along some way an assignment to it reads it, or stands under a condition
      that does, before it is assigned. */
  lemma SelfEdgeExactly(b: Block, strict: bool, x: Name)
    ensures (x, x) in BlockEdges(b, strict) <==> SelfWay(b, false, false, x)
  {
    hide Scan, SelfWay;
    ScanSelf(b, NOTHING, [], map[], strict, x);
  }

  // ---- The filter, exactly -------------------------------------------------------------------------------

  /** No way lets an assignment to a member, or a condition around one, read a member not yet assigned. */
  ghost predicate NoEarlyRead(b: Block, s: set<Name>) {
    forall u, x :: u in s && x in s ==> !ReadsDataEarly(b, u, x) && !ReadsConditionEarly(b, u, x)
  }

  /** The same for conditions, and no assignment to a member reads a member assigned nowhere before. */
  ghost predicate NoUnsetRead(b: Block, s: set<Name>) {
    forall u, x :: u in s && x in s ==> !DataUnset(b, false, u, x) && !ReadsConditionEarly(b, u, x)
  }

  ghost predicate HasInnerEdge(b: Block, s: set<Name>) {
    exists u, x :: u in s && x in s && Inner(b, u, x)
  }

  ghost predicate Inner(b: Block, u: Name, x: Name) {
    if u == x then SelfWay(b, false, false, x) else Feeds(b, u, x)
  }

  /** The strict filter refuses a component exactly for an early read among its members. */
  lemma StrictExactly(b: Block, s: set<Name>)
    ensures InnerGrounded(BlockEdges(b, true), s) <==> NoEarlyRead(b, s)
  {
    hide BlockEdges, ReadsDataEarly, ReadsConditionEarly;
    var g := BlockEdges(b, true);
    if InnerGrounded(g, s) {
      forall u, x | u in s && x in s ensures !ReadsDataEarly(b, u, x) && !ReadsConditionEarly(b, u, x) {
        UngroundedExactly(b, true, u, x);
      }
    }
    if NoEarlyRead(b, s) {
      forall k | k in g && k.0 in s && k.1 in s ensures g[k] {
        UngroundedExactly(b, true, k.0, k.1);
      }
    }
  }

  /** The shipped filter, for every block and every set of signals: it takes a set for an artifact exactly when some member
      is read for a member, and no read among members is early as it judges them. */
  lemma ShippedExactly(b: Block, s: set<Name>)
    ensures FoldArtifact(BlockEdges(b, false), s) <==> HasInnerEdge(b, s) && NoUnsetRead(b, s)
  {
    hide BlockEdges, DataUnset, ReadsConditionEarly, Inner;
    var g := BlockEdges(b, false);
    forall u, x ensures (u, x) in g <==> Inner(b, u, x) { InnerIs(b, u, x); }
    if InnerGrounded(g, s) {
      forall u, x | u in s && x in s ensures !DataUnset(b, false, u, x) && !ReadsConditionEarly(b, u, x) {
        UngroundedExactly(b, false, u, x);
      }
    }
    if NoUnsetRead(b, s) {
      forall k | k in g && k.0 in s && k.1 in s ensures g[k] { UngroundedExactly(b, false, k.0, k.1); }
    }
    if HasInnerEdge(b, s) {
      var u, x :| u in s && x in s && Inner(b, u, x);
      assert (u, x) in g && (u, x).0 in s && (u, x).1 in s;
    }
    if exists k :: k in g && k.0 in s && k.1 in s {
      var k :| k in g && k.0 in s && k.1 in s;
      assert (k.0, k.1) in g && Inner(b, k.0, k.1);
    }
  }

  lemma InnerIs(b: Block, u: Name, x: Name)
    ensures (u, x) in BlockEdges(b, false) <==> Inner(b, u, x)
  {
    hide SelfWay, BlockEdges;
    if u == x { SelfEdgeExactly(b, false, x); } else { BlockEdgesAreReads(b, false, u, x); }
  }

  /** Each name of the chain is read for the next. */
  ghost predicate ReadChain(b: Block, p: seq<Name>) {
    p != [] && forall k :: 0 <= k < |p| - 1 ==> Inner(b, p[k], p[k + 1])
  }

  ghost predicate ReadFrom(b: Block, x: Name, y: Name) {
    exists p :: ReadChain(b, p) && p[0] == x && p[|p| - 1] == y
  }

  /** A maximal set of names each of which is read, through others, for every other. */
  ghost predicate ReadComponent(b: Block, s: set<Name>) {
    s != {} && forall x, y :: x in s ==> (y in s <==> ReadFrom(b, x, y) && ReadFrom(b, y, x))
  }

  /** The false cycles of a block, by what its code reads: a component is one exactly when some member is read for a member,
      and no such read is early as the filter judges it. */
  ghost predicate FalseCycle(b: Block, s: set<Name>) {
    ReadComponent(b, s) && HasInnerEdge(b, s) && NoUnsetRead(b, s)
  }

  lemma LeadsIsRead(b: Block, x: Name, y: Name)
    ensures Leads(BlockEdges(b, false), x, y) <==> ReadFrom(b, x, y)
  {
    hide BlockEdges, Inner;
    var g := BlockEdges(b, false);
    forall u, v ensures (u, v) in g <==> Inner(b, u, v) { InnerIs(b, u, v); }
    forall p ensures IsPath(g, p) <==> ReadChain(b, p) {
    }
  }

  /** The filter over the walk's graph finds the false cycles of the code. */
  lemma FalseCycleExactly(b: Block, s: set<Name>)
    ensures Component(BlockEdges(b, false), s) && FoldArtifact(BlockEdges(b, false), s) <==> FalseCycle(b, s)
  {
    hide BlockEdges, Leads, ReadFrom, FoldArtifact, HasInnerEdge, NoUnsetRead;
    ShippedExactly(b, s);
    forall x, y ensures Leads(BlockEdges(b, false), x, y) <==> ReadFrom(b, x, y) { LeadsIsRead(b, x, y); }
  }

  lemma SameKeys(b: Block)
    ensures BlockEdges(b, false).Keys == BlockEdges(b, true).Keys
    ensures forall s :: Component(BlockEdges(b, false), s) <==> Component(BlockEdges(b, true), s)
  {
    hide Scan;
    StrictIsStricter(b, NOTHING, [], map[], map[]);
    assert BlockEdges(b, false).Keys == BlockEdges(b, true).Keys;
    SameComponents(BlockEdges(b, false), BlockEdges(b, true));
  }

  lemma SameComponents(g: Edges, h: Edges)
    requires g.Keys == h.Keys
    ensures forall s :: Component(g, s) <==> Component(h, s)
  {
    forall p ensures IsPath(g, p) <==> IsPath(h, p) {
    }
    assert forall x, y :: Leads(g, x, y) <==> Leads(h, x, y);
    hide Leads;
  }

  /** Where the shipped filter goes beyond the strict one: a component it accepts is accepted by the strict filter too
      exactly when no choice of arms reads a member early. */
  lemma ShippedExcess(b: Block, s: set<Name>)
    requires FoldArtifact(BlockEdges(b, false), s)
    ensures FoldArtifact(BlockEdges(b, true), s) <==> NoEarlyRead(b, s)
  {
    hide BlockEdges, NoEarlyRead;
    SameKeys(b);
    StrictExactly(b, s);
  }

  /** The shipped filter is sound on every component without an early read: what the assigned signals of the component
      end with does not depend on what its signals held before. */
  lemma ShippedSoundWithoutEarlyReads(b: Block, s: set<Name>, e1: Env, e2: Env)
    requires Plain(b) && Exhaustive(b) && Component(BlockEdges(b, false), s) && NoEarlyRead(b, s)
    requires forall x :: x !in s ==> e1(x) == e2(x)
    ensures forall x :: x in s && AlwaysAssigned(b, x, false) ==> Exec(b, e1)(x) == Exec(b, e2)(x)
  {
    hide BlockEdges, NoEarlyRead, Component, Exec, Scan, AlwaysAssigned;
    SameKeys(b);
    StrictExactly(b, s);
    StrictFilterSound(b, s, e1, e2);
    forall x | x in s && AlwaysAssigned(b, x, false) ensures Exec(b, e1)(x) == Exec(b, e2)(x) {
      WrittenExactly(b, true, x);
    }
  }

  // ---- Refused but harmless ------------------------------------------------------------------------------

  /** x = y;  y = 0;  x = y;  y = x. */
  const RESET_LATER := Assign(Whole("x"), Ident("y"), Assign(Whole("y"), Lit(0),
                              Assign(Whole("x"), Ident("y"), Assign(Whole("y"), Ident("x"), End))))

  /** No condition on reads and assignments is exact for values: this component has an early read, and both filters
      report it, yet what it ends with never depends on what it held before. */
  lemma EarlyReadMayBeHarmless(strict: bool, e1: Env, e2: Env)
    ensures Straight(RESET_LATER) && Component(BlockEdges(RESET_LATER, strict), {"x", "y"})
    ensures !InnerGrounded(BlockEdges(RESET_LATER, strict), {"x", "y"}) && !NoEarlyRead(RESET_LATER, {"x", "y"})
    ensures forall z :: z in {"x", "y"} ==> Exec(RESET_LATER, e1)(z) == Exec(RESET_LATER, e2)(z)
  {
    hide Scan, Exec, Component, DataEarly, InnerGrounded, NoEarlyRead, Feeds, Assigns, Straight;
    var b, s := RESET_LATER, {"x", "y"};
    ResetReads();
    BlockEdgesAreReads(b, strict, "y", "x");
    BlockEdgesAreReads(b, strict, "x", "y");
    forall k | k in BlockEdges(b, strict) ensures k.1 in s {
      EdgeTargets(b, NOTHING, [], map[], strict, k.0, k.1);
    }
    TwoCycle(BlockEdges(b, strict), "x", "y");
    StrictExactly(b, s);
    StraightSame(b, NOTHING, map[]);
    ResetIsEarly(s);
    ResetRun(e1);
    ResetRun(e2);
  }

  lemma ResetIsEarly(s: set<Name>)
    requires "x" in s && "y" in s
    ensures !NoEarlyRead(RESET_LATER, s)
  {
    ResetReads();
    hide DataEarly;
    assert ReadsDataEarly(RESET_LATER, "y", "x");
  }

  lemma ResetReads()
    ensures Straight(RESET_LATER) && LoopFree(RESET_LATER)
    ensures Feeds(RESET_LATER, "y", "x") && Feeds(RESET_LATER, "x", "y") && DataEarly(RESET_LATER, Anyway, false, "y", "x")
    ensures forall z :: Assigns(RESET_LATER, z) ==> z in {"x", "y"}
  {
    var last := RESET_LATER.rest.rest.rest;
    assert Straight(last) && LoopFree(last) && Feeds(last, "x", "y");
    assert DataEarly(RESET_LATER, Anyway, false, "y", "x") by { assert "y" in Idents(RESET_LATER.value); }
    assert Straight(RESET_LATER.rest.rest) && LoopFree(RESET_LATER.rest.rest) && Feeds(RESET_LATER.rest.rest, "x", "y");
    forall z | Assigns(RESET_LATER, z) ensures z in {"x", "y"} {
      assert Assigns(RESET_LATER, z) <==> z == "x" || Assigns(RESET_LATER.rest, z);
      assert Assigns(RESET_LATER.rest, z) <==> z == "y" || Assigns(RESET_LATER.rest.rest, z);
      assert Assigns(RESET_LATER.rest.rest, z) <==> z == "x" || Assigns(last, z);
      assert Assigns(last, z) <==> z == "y" || Assigns(End, z);
      assert !Assigns(End, z);
    }
  }

  lemma ResetRun(env: Env)
    ensures Exec(RESET_LATER, env)("x") == 0 && Exec(RESET_LATER, env)("y") == 0
  {
    var third, last := RESET_LATER.rest.rest, RESET_LATER.rest.rest.rest;
    var e1 := Set(env, "x", env("y"));
    var e2 := Set(e1, "y", 0);
    var e3 := Set(e2, "x", 0);
    assert Exec(RESET_LATER, env) == Exec(RESET_LATER.rest, e1) == Exec(third, e2);
    assert Exec(third, e2) == Exec(last, Set(e2, "x", e2("y")));
    assert Exec(last, e3) == Exec(End, Set(e3, "y", e3("x")));
  }

  lemma {:induction false} EdgeTargets(b: Block, f: Flow, conds: seq<Frame>, edges: Edges, strict: bool, u: Name, x: Name)
    requires Straight(b) && conds == [] && (u, x) in Scan(b, f, conds, edges, strict).1
    ensures (u, x) in edges || Assigns(b, x)
  {
    hide Join, Reads, DataBase, Skip;
    if b.Assign? {
      AssignStep(b, f, conds, edges, strict);
      var frame := Reads(Idents(b.value) + IndexReads(b.target), DataBase(f, strict)) - Skip(f, b.target.name);
      JoinKeys(edges, frame, b.target.name, u, x);
      EdgeTargets(b.rest, Assigned(f, b.target.name), conds, AssignEdges(b.target, b.value, f, conds, edges, strict), strict, u, x);
    }
  }
}
