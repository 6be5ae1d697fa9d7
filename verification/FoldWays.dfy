/** The ways through a block, and exactly which names the dataflow walk takes to be assigned along all of them. */
module FoldWays {
  import opened CombCode
  import opened FoldScan
  import opened FoldSound

  /** One way through a block: at each branch the arm taken, the way through it, and the way through what follows.
      A loop is skipped by 0 and its body taken once otherwise. */
  datatype Choices = Anyway | Choice(k: nat, inside: Choices, after: Choices)
  {
    function K(): nat { if Anyway? then 0 else k }

    function Inside(): Choices { if Anyway? then Anyway else inside }

    function After(): Choices { if Anyway? then Anyway else after }
  }

  /** The names assigned along a way through b; with `enter`, every loop body is taken once whatever the choice. */
  function Along(b: Block, c: Choices, enter: bool): set<Name> {
    match b
    case End => {}
    case Assign(t, _, rest) => {t.name} + Along(rest, c, enter)
    case Branch(_, _, arms, rest) => ArmAlong(arms, c.K(), c.Inside(), enter) + Along(rest, c.After(), enter)
    case Loop(_, _, body, rest) =>
      (if enter || c.K() != 0 then Along(body, c.Inside(), enter) else {}) + Along(rest, c.After(), enter)
  }

  /** Past the last arm the last one is meant; without arms nothing runs. */
  function ArmAlong(arms: Arms, k: nat, c: Choices, enter: bool): set<Name> {
    if arms.NoArms? then {}
    else if k == 0 || arms.others.NoArms? then Along(arms.body, c, enter)
    else ArmAlong(arms.others, k - 1, c, enter)
  }

  /** The choices a run makes. */
  function ChoicesOf(b: Block, env: Env): Choices
    decreases b, 0
  {
    match b
    case End => Anyway
    case Assign(t, e, rest) => ChoicesOf(rest, Set(env, t.name, Stored(t, Eval(e, env), env)))
    case Branch(scrut, pick, arms, rest) =>
      var k := pick(Eval(scrut, env));
      Choice(k, ArmChoices(arms, k, env), ChoicesOf(rest, ExecArm(arms, k, env)))
    case Loop(_, _, _, _) => Anyway
  }

  function ArmChoices(arms: Arms, k: nat, env: Env): Choices
    decreases arms, 0
  {
    if arms.NoArms? then Anyway
    else if k == 0 then ChoicesOf(arms.body, env)
    else ArmChoices(arms.others, k - 1, env)
  }

  /** Every run of loop-free code goes one of these ways. */
  lemma {:induction false} RunIsChoice(b: Block, env: Env)
    requires LoopFree(b) && Exhaustive(b)
    ensures Writes(b, env) == Along(b, ChoicesOf(b, env), false)
    decreases b, 0
  {
    match b
    case End =>
    case Assign(t, e, rest) => RunIsChoice(rest, Set(env, t.name, Stored(t, Eval(e, env), env)));
    case Branch(scrut, pick, arms, rest) =>
      var k := pick(Eval(scrut, env));
      ArmRunIsChoice(arms, k, env);
      RunIsChoice(rest, ExecArm(arms, k, env));
  }

  lemma {:induction false} ArmRunIsChoice(arms: Arms, k: nat, env: Env)
    requires LoopFreeArms(arms) && ArmsExhaustive(arms) && k < Count(arms)
    ensures ArmWrites(arms, k, env) == ArmAlong(arms, k, ArmChoices(arms, k, env), false)
    decreases arms, 0
  {
    if k == 0 { RunIsChoice(arms.body, env); } else { ArmRunIsChoice(arms.others, k - 1, env); }
  }

  // ---- The sets of the walk, exactly -----------------------------------------------------------------------

  /** The names taken to be assigned with loops skipped, and with loops entered. */
  function Known(f: Flow, enter: bool): set<Name> { if enter then f.grounded else f.written }

  /** What is known after a block is assigned along every way. */
  lemma {:induction false} KnownAlong(b: Block, f: Flow, conds: seq<Frame>, edges: Edges, strict: bool, c: Choices, enter: bool)
    ensures Known(Scan(b, f, conds, edges, strict).0, enter) <= Known(f, enter) + Along(b, c, enter)
  {
    hide Join, JoinAll, Reads, DataBase, Skip;
    match b
    case End =>
    case Assign(t, e, rest) =>
      KnownAlong(rest, Assigned(f, t.name), conds, AssignEdges(t, e, f, conds, edges, strict), strict, c, enter);
    case Branch(scrut, _, arms, rest) =>
      var inner := conds + [Reads(Idents(scrut), f.grounded)];
      ArmKnownAlong(arms, f, inner, edges, strict, c.K(), c.Inside(), enter);
      var r := ScanArms(arms, f, inner, edges, strict);
      KnownAlong(rest, r.0, conds, r.1, strict, c.After(), enter);
    case Loop(_, _, body, rest) =>
      var r := Scan(body, f, conds, edges, strict);
      KnownAlong(body, f, conds, edges, strict, c.Inside(), enter);
      KnownAlong(rest, Flow(f.written, r.0.ever, r.0.grounded), conds, r.1, strict, c.After(), enter);
  }

  lemma {:induction false} ArmKnownAlong(arms: Arms, f: Flow, conds: seq<Frame>, edges: Edges, strict: bool, k: nat,
                                         c: Choices, enter: bool)
    ensures Known(ScanArms(arms, f, conds, edges, strict).0, enter) <= Known(f, enter) + ArmAlong(arms, k, c, enter)
  {
    if arms.Arm? {
      if k == 0 || arms.others.NoArms? {
        KnownAlong(arms.body, f, conds, edges, strict, c, enter);
      } else {
        ArmKnownAlong(arms.others, f, conds, Scan(arms.body, f, conds, edges, strict).1, strict, k - 1, c, enter);
      }
    }
  }

  /** A way through b that leaves x unassigned. */
  lemma {:induction false} Missing(b: Block, f: Flow, conds: seq<Frame>, edges: Edges, strict: bool, x: Name, enter: bool)
    returns (c: Choices)
    requires x !in Known(Scan(b, f, conds, edges, strict).0, enter)
    ensures x !in Known(f, enter) && x !in Along(b, c, enter)
    decreases b
  {
    hide Join, JoinAll, Reads, DataBase, Skip;
    match b
    case End =>
      c := Anyway;
    case Assign(t, e, rest) =>
      c := Missing(rest, Assigned(f, t.name), conds, AssignEdges(t, e, f, conds, edges, strict), strict, x, enter);
    case Branch(scrut, _, arms, rest) =>
      var inner := conds + [Reads(Idents(scrut), f.grounded)];
      var r := ScanArms(arms, f, inner, edges, strict);
      var after := Missing(rest, r.0, conds, r.1, strict, x, enter);
      var k, inside := MissingArm(arms, f, inner, edges, strict, x, enter);
      c := Choice(k, inside, after);
    case Loop(_, _, body, rest) =>
      var r := Scan(body, f, conds, edges, strict);
      var after := Missing(rest, Flow(f.written, r.0.ever, r.0.grounded), conds, r.1, strict, x, enter);
      var inside := Anyway;
      if enter { inside := Missing(body, f, conds, edges, strict, x, enter); }
      c := Choice(0, inside, after);
  }

  lemma {:induction false} MissingArm(arms: Arms, f: Flow, conds: seq<Frame>, edges: Edges, strict: bool, x: Name, enter: bool)
    returns (k: nat, c: Choices)
    requires x !in Known(ScanArms(arms, f, conds, edges, strict).0, enter)
    ensures x !in Known(f, enter) && x !in ArmAlong(arms, k, c, enter)
    decreases arms
  {
    k, c := 0, Anyway;
    if arms.Arm? {
      var first := Scan(arms.body, f, conds, edges, strict);
      if x !in Known(first.0, enter) {
        c := Missing(arms.body, f, conds, edges, strict, x, enter);
      } else {
        k, c := MissingArm(arms.others, f, conds, first.1, strict, x, enter);
        k := k + 1;
      }
    }
  }

  ghost predicate AlwaysAssigned(b: Block, x: Name, enter: bool) {
    forall c :: x in Along(b, c, enter)
  }

  /** A name is definitely assigned at the end of a block exactly when every choice of arms assigns it, loops being
      skipped or entered; it is established there exactly when every choice assigns it with each loop body taken once. */
  lemma KnownExactly(b: Block, strict: bool, x: Name, enter: bool)
    ensures x in Known(Scan(b, NOTHING, [], map[], strict).0, enter) <==> AlwaysAssigned(b, x, enter)
  {
    if x in Known(Scan(b, NOTHING, [], map[], strict).0, enter) {
      forall c ensures x in Along(b, c, enter) { KnownAlong(b, NOTHING, [], map[], strict, c, enter); }
    } else {
      var c := Missing(b, NOTHING, [], map[], strict, x, enter);
    }
  }

  lemma WrittenExactly(b: Block, strict: bool, x: Name)
    ensures x in Scan(b, NOTHING, [], map[], strict).0.written <==> AlwaysAssigned(b, x, false)
  {
    KnownExactly(b, strict, x, false);
  }

  lemma GroundedExactly(b: Block, strict: bool, x: Name)
    ensures x in Scan(b, NOTHING, [], map[], strict).0.grounded <==> AlwaysAssigned(b, x, true)
  {
    KnownExactly(b, strict, x, true);
  }

  lemma {:induction false} AlongAssigns(b: Block, c: Choices, enter: bool, x: Name)
    requires x in Along(b, c, enter)
    ensures Assigns(b, x)
  {
    match b
    case Assign(t, _, rest) => if t.name != x { AlongAssigns(rest, c, enter, x); }
    case Branch(_, _, arms, rest) =>
      if x in ArmAlong(arms, c.K(), c.Inside(), enter) { ArmAlongAssigns(arms, c.K(), c.Inside(), enter, x); }
      else { AlongAssigns(rest, c.After(), enter, x); }
    case Loop(_, _, body, rest) =>
      if x in Along(rest, c.After(), enter) { AlongAssigns(rest, c.After(), enter, x); }
      else { AlongAssigns(body, c.Inside(), enter, x); }
  }

  lemma {:induction false} ArmAlongAssigns(arms: Arms, k: nat, c: Choices, enter: bool, x: Name)
    requires x in ArmAlong(arms, k, c, enter)
    ensures ArmsAssign(arms, x)
  {
    if k == 0 || arms.others.NoArms? { AlongAssigns(arms.body, c, enter, x); }
    else { ArmAlongAssigns(arms.others, k - 1, c, enter, x); }
  }

  /** What the arms of a branch make known was known before or is assigned in one of them. */
  lemma ArmsMakeKnown(arms: Arms, f: Flow, conds: seq<Frame>, edges: Edges, strict: bool, enter: bool, x: Name)
    requires x in Known(ScanArms(arms, f, conds, edges, strict).0, enter)
    ensures x in Known(f, enter) || ArmsAssign(arms, x)
  {
    ArmKnownAlong(arms, f, conds, edges, strict, 0, Anyway, enter);
    if x !in Known(f, enter) { ArmAlongAssigns(arms, 0, Anyway, enter, x); }
  }
}
