/** The dataflow walk over one comb block of src/comb_graph.rs: which names are assigned by now, and the
    dependency edges with their `grounded` flags. */
module FoldScan {
  import opened CombCode

  /** The three sets carried along the walk: definitely assigned, possibly assigned, established for conditions. */
  datatype Flow = Flow(written: set<Name>, ever: set<Name>, grounded: set<Name>)

  /** Edges with their grounded flag. */
  type Edges = map<(Name, Name), bool>

  /** Names read together, each with the flag its edges get. */
  type Frame = map<Name, bool>

  function Reads(ids: set<Name>, established: set<Name>): Frame { map id | id in ids :: id in established }

  /** Adds edges from every read name to x; a repeated edge stays grounded only if every occurrence is. */
  function Join(edges: Edges, frame: Frame, x: Name): Edges {
    map k | k in edges.Keys + (set id | id in frame :: (id, x))
      :: (k in edges ==> edges[k]) && (k.1 == x && k.0 in frame ==> frame[k.0])
  }

  function JoinAll(edges: Edges, conds: seq<Frame>, skip: set<Name>, x: Name): Edges {
    if conds == [] then edges
    else Join(JoinAll(edges, conds[..|conds| - 1], skip, x), conds[|conds| - 1] - skip, x)
  }

  /** A name read by its own assignment is no dependency once it is definitely assigned. */
  function Skip(f: Flow, x: Name): set<Name> { if x in f.written then {x} else {} }

  function Assigned(f: Flow, x: Name): Flow { Flow(f.written + {x}, f.ever + {x}, f.grounded + {x}) }

  function Merge(a: Flow, b: Flow): Flow { Flow(a.written * b.written, a.ever + b.ever, a.grounded * b.grounded) }

  /** How the reads of plain data are judged: by the shipped filter, against the possibly assigned names; by the
      strict one, against the definitely assigned names. */
  function DataBase(f: Flow, strict: bool): set<Name> { if strict then f.written else f.ever }

  function Scan(b: Block, f: Flow, conds: seq<Frame>, edges: Edges, strict: bool): (Flow, Edges) {
    match b
    case End => (f, edges)
    case Assign(t, e, rest) =>
      var frame := Reads(Idents(e) + IndexReads(t), DataBase(f, strict)) - Skip(f, t.name);
      Scan(rest, Assigned(f, t.name), conds, JoinAll(Join(edges, frame, t.name), conds, Skip(f, t.name), t.name), strict)
    case Branch(scrut, _, arms, rest) =>
      var r := ScanArms(arms, f, conds + [Reads(Idents(scrut), f.grounded)], edges, strict);
      Scan(rest, r.0, conds, r.1, strict)
    case Loop(_, _, body, rest) =>
      var r := Scan(body, f, conds, edges, strict);
      Scan(rest, Flow(f.written, r.0.ever, r.0.grounded), conds, r.1, strict)
  }

  function ScanArms(arms: Arms, f: Flow, conds: seq<Frame>, edges: Edges, strict: bool): (Flow, Edges) {
    if arms.NoArms? then (f, edges)
    else
      var first := Scan(arms.body, f, conds, edges, strict);
      if arms.others.NoArms? then first
      else
        var more := ScanArms(arms.others, f, conds, first.1, strict);
        (Merge(first.0, more.0), more.1)
  }

  const NOTHING := Flow({}, {}, {})

  /** The edges of a whole block. */
  function BlockEdges(b: Block, strict: bool): Edges { Scan(b, NOTHING, [], map[], strict).1 }

  /** An edge is there if it was or is added, and grounded if every occurrence is. */
  lemma JoinAt(edges: Edges, frame: Frame, x: Name, k: (Name, Name))
    ensures k in Join(edges, frame, x) <==> k in edges || (k.1 == x && k.0 in frame)
    ensures k in Join(edges, frame, x) ==>
              Join(edges, frame, x)[k] == ((k in edges ==> edges[k]) && (k.1 == x && k.0 in frame ==> frame[k.0]))
  {
    assert k in (set id | id in frame :: (id, x)) <==> k.1 == x && k.0 in frame;
  }

  // ---- What the three sets mean ------------------------------------------------------------------------

  predicate Nested(f: Flow) { f.written <= f.grounded <= f.ever }

  /** Along the whole walk, definitely assigned names are established and established names possibly assigned. */
  lemma {:induction false} ScanNested(b: Block, f: Flow, conds: seq<Frame>, edges: Edges, strict: bool)
    requires Nested(f)
    ensures Nested(Scan(b, f, conds, edges, strict).0)
    ensures f.ever <= Scan(b, f, conds, edges, strict).0.ever
    ensures f.written <= Scan(b, f, conds, edges, strict).0.written
    ensures f.grounded <= Scan(b, f, conds, edges, strict).0.grounded
  {
    hide Join, JoinAll;
    match b
    case End =>
    case Assign(t, e, rest) =>
      var frame := Reads(Idents(e) + IndexReads(t), DataBase(f, strict)) - Skip(f, t.name);
      ScanNested(rest, Assigned(f, t.name), conds,
                 JoinAll(Join(edges, frame, t.name), conds, Skip(f, t.name), t.name), strict);
    case Branch(scrut, _, arms, rest) =>
      var inner := conds + [Reads(Idents(scrut), f.grounded)];
      ScanArmsNested(arms, f, inner, edges, strict);
      var r := ScanArms(arms, f, inner, edges, strict);
      ScanNested(rest, r.0, conds, r.1, strict);
    case Loop(_, _, body, rest) =>
      ScanNested(body, f, conds, edges, strict);
      var r := Scan(body, f, conds, edges, strict);
      ScanNested(rest, Flow(f.written, r.0.ever, r.0.grounded), conds, r.1, strict);
  }

  lemma {:induction false} ScanArmsNested(arms: Arms, f: Flow, conds: seq<Frame>, edges: Edges, strict: bool)
    requires Nested(f)
    ensures Nested(ScanArms(arms, f, conds, edges, strict).0)
    ensures f.ever <= ScanArms(arms, f, conds, edges, strict).0.ever
    ensures f.written <= ScanArms(arms, f, conds, edges, strict).0.written
    ensures f.grounded <= ScanArms(arms, f, conds, edges, strict).0.grounded
  {
    if arms.Arm? {
      ScanNested(arms.body, f, conds, edges, strict);
      ScanArmsNested(arms.others, f, conds, Scan(arms.body, f, conds, edges, strict).1, strict);
    }
  }

  function Count(arms: Arms): nat { if arms.NoArms? then 0 else 1 + Count(arms.others) }

  /** Every branch taken in a run has an arm. */
  ghost predicate Exhaustive(b: Block) {
    match b
    case End => true
    case Assign(_, _, rest) => Exhaustive(rest)
    case Branch(_, pick, arms, rest) => (forall v :: pick(v) < Count(arms)) && ArmsExhaustive(arms) && Exhaustive(rest)
    case Loop(_, _, body, rest) => Exhaustive(body) && Exhaustive(rest)
  }

  ghost predicate ArmsExhaustive(arms: Arms) {
    arms.Arm? ==> Exhaustive(arms.body) && ArmsExhaustive(arms.others)
  }

  /** The names a run from env assigns. */
  function Writes(b: Block, env: Env): set<Name>
    decreases b, 0
  {
    match b
    case End => {}
    case Assign(t, e, rest) => {t.name} + Writes(rest, Set(env, t.name, Stored(t, Eval(e, env), env)))
    case Branch(scrut, pick, arms, rest) =>
      var k := pick(Eval(scrut, env));
      ArmWrites(arms, k, env) + Writes(rest, ExecArm(arms, k, env))
    case Loop(x, range, body, rest) =>
      var n := Trips(range, env);
      IterWrites(body, x, n, env) + Writes(rest, Set(Iterate(body, x, n, env), x, env(x)))
  }

  function ArmWrites(arms: Arms, k: nat, env: Env): set<Name>
    decreases arms, 0
  {
    if arms.NoArms? then {} else if k == 0 then Writes(arms.body, env) else ArmWrites(arms.others, k - 1, env)
  }

  function IterWrites(body: Block, x: Name, n: nat, env: Env): set<Name>
    decreases body, n + 1
  {
    if n == 0 then {} else IterWrites(body, x, n - 1, env) + Writes(body, Set(Iterate(body, x, n - 1, env), x, n - 1))
  }

  /** A definitely assigned name is assigned on every execution path that reaches the end of the block. */
  lemma {:induction false} WrittenOnEveryPath(b: Block, f: Flow, conds: seq<Frame>, edges: Edges, strict: bool, env: Env)
    requires Exhaustive(b)
    ensures Scan(b, f, conds, edges, strict).0.written <= f.written + Writes(b, env)
    decreases b, 0
  {
    hide Join, JoinAll, Reads;
    match b
    case End =>
    case Assign(t, e, rest) =>
      var frame := Reads(Idents(e) + IndexReads(t), DataBase(f, strict)) - Skip(f, t.name);
      WrittenOnEveryPath(rest, Assigned(f, t.name), conds,
                         JoinAll(Join(edges, frame, t.name), conds, Skip(f, t.name), t.name), strict,
                         Set(env, t.name, Stored(t, Eval(e, env), env)));
    case Branch(scrut, pick, arms, rest) =>
      var inner := conds + [Reads(Idents(scrut), f.grounded)];
      var k := pick(Eval(scrut, env));
      WrittenOnArm(arms, k, f, inner, edges, strict, env);
      var r := ScanArms(arms, f, inner, edges, strict);
      WrittenOnEveryPath(rest, r.0, conds, r.1, strict, ExecArm(arms, k, env));
    case Loop(x, range, body, rest) =>
      var r := Scan(body, f, conds, edges, strict);
      WrittenOnEveryPath(rest, Flow(f.written, r.0.ever, r.0.grounded), conds, r.1, strict,
                         Set(Iterate(body, x, Trips(range, env), env), x, env(x)));
  }

  lemma {:induction false} WrittenOnArm(arms: Arms, k: nat, f: Flow, conds: seq<Frame>, edges: Edges, strict: bool, env: Env)
    requires ArmsExhaustive(arms) && k < Count(arms)
    ensures ScanArms(arms, f, conds, edges, strict).0.written <= f.written + ArmWrites(arms, k, env)
    decreases arms, 0
  {
    hide Join, JoinAll;
    if k == 0 {
      WrittenOnEveryPath(arms.body, f, conds, edges, strict, env);
    } else {
      WrittenOnArm(arms.others, k - 1, f, conds, Scan(arms.body, f, conds, edges, strict).1, strict, env);
    }
  }

  /** The names a block assigns on some path are all possibly assigned, and nothing else becomes so. */
  lemma {:induction false} EverIsAssigned(b: Block, f: Flow, conds: seq<Frame>, edges: Edges, strict: bool)
    ensures forall x :: x in Scan(b, f, conds, edges, strict).0.ever <==> x in f.ever || Assigns(b, x)
  {
    hide Join, JoinAll, Reads;
    match b
    case End =>
    case Assign(t, e, rest) =>
      var frame := Reads(Idents(e) + IndexReads(t), DataBase(f, strict)) - Skip(f, t.name);
      EverIsAssigned(rest, Assigned(f, t.name), conds,
                     JoinAll(Join(edges, frame, t.name), conds, Skip(f, t.name), t.name), strict);
    case Branch(scrut, _, arms, rest) =>
      var inner := conds + [Reads(Idents(scrut), f.grounded)];
      ArmsEverIsAssigned(arms, f, inner, edges, strict);
      var r := ScanArms(arms, f, inner, edges, strict);
      EverIsAssigned(rest, r.0, conds, r.1, strict);
    case Loop(_, _, body, rest) =>
      EverIsAssigned(body, f, conds, edges, strict);
      var r := Scan(body, f, conds, edges, strict);
      EverIsAssigned(rest, Flow(f.written, r.0.ever, r.0.grounded), conds, r.1, strict);
  }

  lemma {:induction false} ArmsEverIsAssigned(arms: Arms, f: Flow, conds: seq<Frame>, edges: Edges, strict: bool)
    ensures forall x :: x in ScanArms(arms, f, conds, edges, strict).0.ever <==> x in f.ever || ArmsAssign(arms, x)
  {
    hide Join, JoinAll;
    if arms.Arm? {
      EverIsAssigned(arms.body, f, conds, edges, strict);
      ArmsEverIsAssigned(arms.others, f, conds, Scan(arms.body, f, conds, edges, strict).1, strict);
    }
  }

  lemma {:induction false} WritesAreAssigned(b: Block, env: Env, x: Name)
    requires x in Writes(b, env)
    ensures Assigns(b, x)
    decreases b, 0
  {
    match b
    case End =>
    case Assign(t, e, rest) =>
      var next := Set(env, t.name, Stored(t, Eval(e, env), env));
      if x in Writes(rest, next) { WritesAreAssigned(rest, next, x); }
    case Branch(scrut, pick, arms, rest) =>
      var k := pick(Eval(scrut, env));
      if x in ArmWrites(arms, k, env) { ArmWritesAreAssigned(arms, k, env, x); }
      if x in Writes(rest, ExecArm(arms, k, env)) { WritesAreAssigned(rest, ExecArm(arms, k, env), x); }
    case Loop(v, range, body, rest) =>
      var n := Trips(range, env);
      var next := Set(Iterate(body, v, n, env), v, env(v));
      if x in IterWrites(body, v, n, env) { IterWritesAreAssigned(body, v, n, env, x); }
      if x in Writes(rest, next) { WritesAreAssigned(rest, next, x); }
  }

  lemma {:induction false} ArmWritesAreAssigned(arms: Arms, k: nat, env: Env, x: Name)
    requires x in ArmWrites(arms, k, env)
    ensures ArmsAssign(arms, x)
    decreases arms, 0
  {
    if k == 0 { WritesAreAssigned(arms.body, env, x); } else { ArmWritesAreAssigned(arms.others, k - 1, env, x); }
  }

  lemma {:induction false} IterWritesAreAssigned(body: Block, v: Name, n: nat, env: Env, x: Name)
    requires x in IterWrites(body, v, n, env)
    ensures Assigns(body, x)
    decreases body, n + 1
  {
    if x in IterWrites(body, v, n - 1, env) {
      IterWritesAreAssigned(body, v, n - 1, env, x);
    } else {
      WritesAreAssigned(body, Set(Iterate(body, v, n - 1, env), v, n - 1), x);
    }
  }

  /** A whole walk: what is definitely assigned is written by every run, and what a run writes is possibly assigned. */
  lemma DataflowBounds(b: Block, strict: bool, env: Env)
    requires Exhaustive(b)
    ensures var f := Scan(b, NOTHING, [], map[], strict).0;
            f.written <= Writes(b, env) <= f.ever && f.written <= f.grounded <= f.ever
  {
    WrittenOnEveryPath(b, NOTHING, [], map[], strict, env);
    EverIsAssigned(b, NOTHING, [], map[], strict);
    ScanNested(b, NOTHING, [], map[], strict);
    forall x | x in Writes(b, env) ensures x in Scan(b, NOTHING, [], map[], strict).0.ever {
      WritesAreAssigned(b, env, x);
    }
  }
}
