/** Combinational code: expressions, blocking assignments, branches and loops, and what they do to signal values.

    Every expression kind the analyses of src/comb_graph.rs walk into, other than an identifier, is a function
    of the values of its operands, so one constructor stands for all of them. An `if` is a branch with two arms.
    The loop variable is bound for the loop only. */
module CombCode {
  type Name = string
  type Env = Name -> int

  datatype Expr = Lit(v: int) | Ident(name: Name) | Node(apply: seq<int> -> int, args: Args)
  datatype Args = NoArgs | Arg(head: Expr, tail: Args)

  /** A whole signal, or a part of it selected by index expressions. */
  datatype Target = Whole(name: Name) | Part(name: Name, index: Args, store: (int, seq<int>, int) -> int)

  datatype Block = End
                 | Assign(target: Target, value: Expr, rest: Block)
                 | Branch(scrut: Expr, pick: int -> nat, arms: Arms, rest: Block)
                 | Loop(loopVar: Name, range: Expr, body: Block, rest: Block)
  datatype Arms = NoArms | Arm(body: Block, others: Arms)

  // ---- Meaning -----------------------------------------------------------------------------------------

  function Eval(e: Expr, env: Env): int {
    match e
    case Lit(v) => v
    case Ident(x) => env(x)
    case Node(f, args) => f(EvalAll(args, env))
  }

  function EvalAll(args: Args, env: Env): seq<int> {
    if args.NoArgs? then [] else [Eval(args.head, env)] + EvalAll(args.tail, env)
  }

  function Set(env: Env, x: Name, v: int): Env {
    y => if y == x then v else env(y)
  }

  function Stored(t: Target, v: int, env: Env): int {
    match t
    case Whole(_) => v
    case Part(x, index, store) => store(env(x), EvalAll(index, env), v)
  }

  function Trips(range: Expr, env: Env): nat {
    if Eval(range, env) < 0 then 0 else Eval(range, env)
  }

  function Exec(b: Block, env: Env): Env
    decreases b, 0
  {
    match b
    case End => env
    case Assign(t, e, rest) => Exec(rest, Set(env, t.name, Stored(t, Eval(e, env), env)))
    case Branch(scrut, pick, arms, rest) => Exec(rest, ExecArm(arms, pick(Eval(scrut, env)), env))
    case Loop(x, range, body, rest) => Exec(rest, Set(Iterate(body, x, Trips(range, env), env), x, env(x)))
  }

  /** Runs arm k; past the last arm nothing runs. */
  function ExecArm(arms: Arms, k: nat, env: Env): Env
    decreases arms, 0
  {
    if arms.NoArms? then env else if k == 0 then Exec(arms.body, env) else ExecArm(arms.others, k - 1, env)
  }

  function Iterate(body: Block, x: Name, n: nat, env: Env): Env
    decreases body, n + 1
  {
    if n == 0 then env else Exec(body, Set(Iterate(body, x, n - 1, env), x, n - 1))
  }

  /** A loop over v runs its body for 0, 1, ..., v - 1, not at all for v <= 0, and leaves its variable as it was. */
  lemma LoopRuns(x: Name, range: Expr, body: Block, rest: Block, env: Env, v: int)
    requires Eval(range, env) == v
    ensures v <= 0 ==> Exec(Loop(x, range, body, rest), env) == Exec(rest, Set(env, x, env(x)))
    ensures v == 1 ==> Exec(Loop(x, range, body, rest), env) == Exec(rest, Set(Exec(body, Set(env, x, 0)), x, env(x)))
    ensures v > 1 ==>
              (var before := Iterate(body, x, v - 1, env);
               Exec(Loop(x, range, body, rest), env) == Exec(rest, Set(Exec(body, Set(before, x, v - 1)), x, env(x))))
    ensures Iterate(body, x, 1, env) == Exec(body, Set(env, x, 0))
  {
    assert Iterate(body, x, 0, env) == env;
    assert Iterate(body, x, 1, env) == Exec(body, Set(Iterate(body, x, 0, env), x, 0));
  }

  // ---- What code reads and writes ----------------------------------------------------------------------

  function Idents(e: Expr): set<Name> {
    match e
    case Lit(_) => {}
    case Ident(x) => {x}
    case Node(_, args) => IdentsAll(args)
  }

  function IdentsAll(args: Args): set<Name> {
    if args.NoArgs? then {} else Idents(args.head) + IdentsAll(args.tail)
  }

  function IndexReads(t: Target): set<Name> { if t.Part? then IdentsAll(t.index) else {} }

  predicate Assigns(b: Block, x: Name) {
    match b
    case End => false
    case Assign(t, _, rest) => t.name == x || Assigns(rest, x)
    case Branch(_, _, arms, rest) => ArmsAssign(arms, x) || Assigns(rest, x)
    case Loop(_, _, body, rest) => Assigns(body, x) || Assigns(rest, x)
  }

  predicate ArmsAssign(arms: Arms, x: Name) {
    arms.Arm? && (Assigns(arms.body, x) || ArmsAssign(arms.others, x))
  }

  /** Some assignment to x reads id: in its value, in its target's indices, or in a condition around it. */
  predicate Feeds(b: Block, id: Name, x: Name) {
    match b
    case End => false
    case Assign(t, e, rest) => (t.name == x && id in Idents(e) + IndexReads(t)) || Feeds(rest, id, x)
    case Branch(scrut, _, arms, rest) =>
      (id in Idents(scrut) && ArmsAssign(arms, x)) || ArmsFeed(arms, id, x) || Feeds(rest, id, x)
    case Loop(_, _, body, rest) => Feeds(body, id, x) || Feeds(rest, id, x)
  }

  predicate ArmsFeed(arms: Arms, id: Name, x: Name) {
    arms.Arm? && (Feeds(arms.body, id, x) || ArmsFeed(arms.others, id, x))
  }

  /** Some loop whose body assigns x reads id in its range. */
  predicate RangeFeeds(b: Block, id: Name, x: Name) {
    match b
    case End => false
    case Assign(_, _, rest) => RangeFeeds(rest, id, x)
    case Branch(_, _, arms, rest) => ArmsRangeFeed(arms, id, x) || RangeFeeds(rest, id, x)
    case Loop(_, range, body, rest) =>
      (id in Idents(range) && Assigns(body, x)) || RangeFeeds(body, id, x) || RangeFeeds(rest, id, x)
  }

  predicate ArmsRangeFeed(arms: Arms, id: Name, x: Name) {
    arms.Arm? && (RangeFeeds(arms.body, id, x) || ArmsRangeFeed(arms.others, id, x))
  }

  // ---- Values depend on reads only ---------------------------------------------------------------------

  ghost predicate Agree(e1: Env, e2: Env, a: iset<Name>) {
    forall x :: x in a ==> e1(x) == e2(x)
  }

  lemma {:induction false} EvalAgrees(e: Expr, e1: Env, e2: Env)
    requires forall x :: x in Idents(e) ==> e1(x) == e2(x)
    ensures Eval(e, e1) == Eval(e, e2)
  {
    if e.Node? {
      EvalAllAgrees(e.args, e1, e2);
    }
  }

  lemma {:induction false} EvalAllAgrees(args: Args, e1: Env, e2: Env)
    requires forall x :: x in IdentsAll(args) ==> e1(x) == e2(x)
    ensures EvalAll(args, e1) == EvalAll(args, e2)
  {
    if args.Arg? {
      EvalAgrees(args.head, e1, e2);
      EvalAllAgrees(args.tail, e1, e2);
    }
  }

  /** The same expression but for the functions its inner nodes apply. */
  ghost predicate SameShape(e: Expr, d: Expr) {
    match e
    case Lit(v) => d == Lit(v)
    case Ident(x) => d == Ident(x)
    case Node(_, args) => d.Node? && SameShapes(args, d.args)
  }

  ghost predicate SameShapes(a: Args, b: Args) {
    if a.NoArgs? then b.NoArgs? else b.Arg? && SameShape(a.head, b.head) && SameShapes(a.tail, b.tail)
  }

  /** No smaller set of names would do: for every name collected, some expression of the same shape tells two states apart
      that differ in that name only. */
  lemma {:induction false} IdentsNeeded(e: Expr, id: Name, env: Env) returns (d: Expr)
    requires id in Idents(e)
    ensures SameShape(e, d) && forall v :: Eval(d, Set(env, id, v)) == v
    decreases e
  {
    match e
    case Ident(_) => d := e;
    case Node(_, args) =>
      var k, more := ArgNeeded(args, id, env);
      d := Node((vs: seq<int>) => if k < |vs| then vs[k] else 0, more);
      forall v ensures Eval(d, Set(env, id, v)) == v {
        assert EvalAll(more, Set(env, id, v))[k] == v;
      }
  }

  lemma {:induction false} ArgNeeded(args: Args, id: Name, env: Env) returns (k: nat, more: Args)
    requires id in IdentsAll(args)
    ensures SameShapes(args, more)
    ensures forall v :: var vs := EvalAll(more, Set(env, id, v)); k < |vs| && vs[k] == v
    decreases args
  {
    if id in Idents(args.head) {
      var head := IdentsNeeded(args.head, id, env);
      k, more := 0, Arg(head, args.tail);
      SameArgs(args.tail);
    } else {
      var j, tail := ArgNeeded(args.tail, id, env);
      k, more := j + 1, Arg(args.head, tail);
      SameExpr(args.head);
      forall v ensures var vs := EvalAll(more, Set(env, id, v)); k < |vs| && vs[k] == v {
        var rest := EvalAll(tail, Set(env, id, v));
        assert j < |rest| && rest[j] == v;
        assert EvalAll(more, Set(env, id, v)) == [Eval(args.head, Set(env, id, v))] + rest;
      }
    }
  }

  lemma {:induction false} SameExpr(e: Expr)
    ensures SameShape(e, e)
    decreases e
  {
    if e.Node? { SameArgs(e.args); }
  }

  lemma {:induction false} SameArgs(args: Args)
    ensures SameShapes(args, args)
    decreases args
  {
    if args.Arg? {
      SameExpr(args.head);
      SameArgs(args.tail);
    }
  }

  lemma {:induction false} ExecKeeps(b: Block, env: Env, x: Name)
    requires !Assigns(b, x)
    ensures Exec(b, env)(x) == env(x)
    decreases b, 0
  {
    match b
    case End =>
    case Assign(t, e, rest) => ExecKeeps(rest, Set(env, t.name, Stored(t, Eval(e, env), env)), x);
    case Branch(scrut, pick, arms, rest) =>
      ArmKeeps(arms, pick(Eval(scrut, env)), env, x);
      ExecKeeps(rest, ExecArm(arms, pick(Eval(scrut, env)), env), x);
    case Loop(v, range, body, rest) =>
      IterateKeeps(body, v, Trips(range, env), env, x);
      ExecKeeps(rest, Set(Iterate(body, v, Trips(range, env), env), v, env(v)), x);
  }

  lemma {:induction false} ArmKeeps(arms: Arms, k: nat, env: Env, x: Name)
    requires !ArmsAssign(arms, x)
    ensures ExecArm(arms, k, env)(x) == env(x)
    decreases arms, 0
  {
    if arms.Arm? {
      if k == 0 { ExecKeeps(arms.body, env, x); } else { ArmKeeps(arms.others, k - 1, env, x); }
    }
  }

  lemma {:induction false} IterateKeeps(body: Block, v: Name, n: nat, env: Env, x: Name)
    requires !Assigns(body, x)
    ensures x != v ==> Iterate(body, v, n, env)(x) == env(x)
    decreases body, n + 1
  {
    if n > 0 {
      IterateKeeps(body, v, n - 1, env, x);
      ExecKeeps(body, Set(Iterate(body, v, n - 1, env), v, n - 1), x);
    }
  }

  /** a holds everything read for the assignments to its members, ranges of loops around them included. */
  ghost predicate Closed(b: Block, a: iset<Name>) {
    forall id, x :: x in a && (Feeds(b, id, x) || RangeFeeds(b, id, x)) ==> id in a
  }

  ghost predicate ArmsClosed(arms: Arms, a: iset<Name>) {
    forall id, x :: x in a && (ArmsFeed(arms, id, x) || ArmsRangeFeed(arms, id, x)) ==> id in a
  }

  /** Runs of a block that agree on a closed set of signals keep agreeing on it. */
  lemma {:induction false} ExecAgrees(b: Block, e1: Env, e2: Env, a: iset<Name>)
    requires Closed(b, a) && Agree(e1, e2, a)
    ensures Agree(Exec(b, e1), Exec(b, e2), a)
    decreases b, 3
  {
    match b
    case End =>
    case Assign(t, e, rest) =>
      var n1, n2 := Set(e1, t.name, Stored(t, Eval(e, e1), e1)), Set(e2, t.name, Stored(t, Eval(e, e2), e2));
      if t.name in a {
        assert forall id :: id in Idents(e) + IndexReads(t) ==> Feeds(b, id, t.name);
        EvalAgrees(e, e1, e2);
        if t.Part? { EvalAllAgrees(t.index, e1, e2); }
      }
      ClosedParts(b, a);
      ExecAgrees(rest, n1, n2, a);
    case Branch(scrut, pick, arms, rest) =>
      BranchAgrees(b, e1, e2, a);
      ClosedParts(b, a);
      ExecAgrees(rest, ExecArm(arms, pick(Eval(scrut, e1)), e1), ExecArm(arms, pick(Eval(scrut, e2)), e2), a);
    case Loop(v, range, body, rest) =>
      LoopAgrees(b, e1, e2, a);
      ClosedParts(b, a);
      ExecAgrees(rest, AfterLoop(b, e1), AfterLoop(b, e2), a);
  }

  /** A set closed under a block's reads is closed under those of its parts. */
  lemma ClosedParts(b: Block, a: iset<Name>)
    requires Closed(b, a) && !b.End?
    ensures Closed(b.rest, a) && (b.Branch? ==> ArmsClosed(b.arms, a)) && (b.Loop? ==> Closed(b.body, a))
  {
    assert forall id, x :: Feeds(b.rest, id, x) ==> Feeds(b, id, x);
    assert forall id, x :: RangeFeeds(b.rest, id, x) ==> RangeFeeds(b, id, x);
    if b.Branch? {
      assert forall id, x :: ArmsFeed(b.arms, id, x) ==> Feeds(b, id, x);
      assert forall id, x :: ArmsRangeFeed(b.arms, id, x) ==> RangeFeeds(b, id, x);
    }
    if b.Loop? {
      assert forall id, x :: Feeds(b.body, id, x) ==> Feeds(b, id, x);
      assert forall id, x :: RangeFeeds(b.body, id, x) ==> RangeFeeds(b, id, x);
    }
  }

  /** The state when a loop ends: its variable is what it was before. */
  function AfterLoop(b: Block, env: Env): Env
    requires b.Loop?
  {
    Set(Iterate(b.body, b.loopVar, Trips(b.range, env), env), b.loopVar, env(b.loopVar))
  }

  /** Loops that run a different number of times change nothing in the set. */
  lemma {:induction false} LoopAgrees(b: Block, e1: Env, e2: Env, a: iset<Name>)
    requires b.Loop? && Closed(b, a) && Agree(e1, e2, a)
    ensures Agree(AfterLoop(b, e1), AfterLoop(b, e2), a)
    decreases b, 2
  {
    if forall id :: id in Idents(b.range) ==> id in a {
      EvalAgrees(b.range, e1, e2);
      ClosedParts(b, a);
      IterateAgrees(b.body, b.loopVar, Trips(b.range, e1), e1, e2, a);
    } else {
      var z :| z in Idents(b.range) && z !in a;
      forall x | x in a ensures AfterLoop(b, e1)(x) == e1(x) && AfterLoop(b, e2)(x) == e2(x) {
        assert !RangeFeeds(b, z, x);
        IterateKeeps(b.body, b.loopVar, Trips(b.range, e1), e1, x);
        IterateKeeps(b.body, b.loopVar, Trips(b.range, e2), e2, x);
      }
    }
  }

  /** Runs that take different arms change nothing in the set. */
  lemma {:induction false} BranchAgrees(b: Block, e1: Env, e2: Env, a: iset<Name>)
    requires b.Branch? && Closed(b, a) && Agree(e1, e2, a)
    ensures Agree(ExecArm(b.arms, b.pick(Eval(b.scrut, e1)), e1), ExecArm(b.arms, b.pick(Eval(b.scrut, e2)), e2), a)
    decreases b, 2
  {
    if forall id :: id in Idents(b.scrut) ==> id in a {
      EvalAgrees(b.scrut, e1, e2);
      ClosedParts(b, a);
      ArmAgrees(b.arms, b.pick(Eval(b.scrut, e1)), e1, e2, a);
    } else {
      var z :| z in Idents(b.scrut) && z !in a;
      forall x | x in a ensures ExecArm(b.arms, b.pick(Eval(b.scrut, e1)), e1)(x) == e1(x)
                              && ExecArm(b.arms, b.pick(Eval(b.scrut, e2)), e2)(x) == e2(x) {
        assert !Feeds(b, z, x);
        ArmKeeps(b.arms, b.pick(Eval(b.scrut, e1)), e1, x);
        ArmKeeps(b.arms, b.pick(Eval(b.scrut, e2)), e2, x);
      }
    }
  }

  lemma {:induction false} ArmAgrees(arms: Arms, k: nat, e1: Env, e2: Env, a: iset<Name>)
    requires ArmsClosed(arms, a) && Agree(e1, e2, a)
    ensures Agree(ExecArm(arms, k, e1), ExecArm(arms, k, e2), a)
    decreases arms, 4
  {
    if arms.Arm? {
      if k == 0 {
        assert forall id, x :: Feeds(arms.body, id, x) ==> ArmsFeed(arms, id, x);
        assert forall id, x :: RangeFeeds(arms.body, id, x) ==> ArmsRangeFeed(arms, id, x);
        ExecAgrees(arms.body, e1, e2, a);
      } else {
        assert forall id, x :: ArmsFeed(arms.others, id, x) ==> ArmsFeed(arms, id, x);
        assert forall id, x :: ArmsRangeFeed(arms.others, id, x) ==> ArmsRangeFeed(arms, id, x);
        ArmAgrees(arms.others, k - 1, e1, e2, a);
      }
    }
  }

  lemma {:induction false} IterateAgrees(body: Block, v: Name, n: nat, e1: Env, e2: Env, a: iset<Name>)
    requires Closed(body, a) && Agree(e1, e2, a)
    ensures Agree(Iterate(body, v, n, e1), Iterate(body, v, n, e2), a)
    decreases body, n + 4
  {
    if n > 0 {
      IterateAgrees(body, v, n - 1, e1, e2, a);
      ExecAgrees(body, Set(Iterate(body, v, n - 1, e1), v, n - 1), Set(Iterate(body, v, n - 1, e2), v, n - 1), a);
    }
  }
}
