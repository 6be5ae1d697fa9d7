/** The per-output combinational dependency analysis of src/comb_graph.rs. */
module CombDeps {
  import opened CombCode

  type Deps = map<Name, set<Name>>

  function Get(d: Deps, x: Name): set<Name> { if x in d then d[x] else {} }

  /** A comb block or a let binding of a module body. */
  datatype Item = Comb(code: Block) | Let(name: Name, value: Expr)

  predicate ItemAssigns(item: Item, x: Name) {
    match item
    case Comb(b) => Assigns(b, x)
    case Let(y, _) => x == y
  }

  predicate ItemFeeds(item: Item, id: Name, x: Name) {
    match item
    case Comb(b) => Feeds(b, id, x)
    case Let(y, e) => x == y && id in Idents(e)
  }

  ghost predicate Driven(items: seq<Item>, x: Name) {
    exists k :: 0 <= k < |items| && ItemAssigns(items[k], x)
  }

  ghost predicate Fed(items: seq<Item>, id: Name, x: Name) {
    exists k :: 0 <= k < |items| && ItemFeeds(items[k], id, x)
  }

  predicate ItemRangeFeeds(item: Item, id: Name, x: Name) { item.Comb? && RangeFeeds(item.code, id, x) }

  ghost predicate RangeFed(items: seq<Item>, id: Name, x: Name) {
    exists k :: 0 <= k < |items| && ItemRangeFeeds(items[k], id, x)
  }

  // ---- Direct dependencies -----------------------------------------------------------------------------

  predicate OnStack(conds: seq<set<Name>>, id: Name) {
    exists k :: 0 <= k < |conds| && id in conds[k]
  }

  /** What code b adds to the dependencies of x, under the given enclosing conditions. */
  predicate Adds(b: Block, conds: seq<set<Name>>, id: Name, x: Name) {
    Feeds(b, id, x) || (Assigns(b, x) && OnStack(conds, id))
  }

  predicate ArmsAdd(arms: Arms, conds: seq<set<Name>>, id: Name, x: Name) {
    ArmsFeed(arms, id, x) || (ArmsAssign(arms, x) && OnStack(conds, id))
  }

  function Extend(d: Deps, x: Name, ids: set<Name>): Deps { d[x := Get(d, x) + ids] }

  method StackedIds(conds: seq<set<Name>>) returns (ids: set<Name>)
    ensures forall id :: id in ids <==> OnStack(conds, id)
  {
    ids := {};
    for k := 0 to |conds|
      invariant forall id :: id in ids <==> OnStack(conds[..k], id)
    {
      ids := ids + conds[k];
      assert conds[..k + 1] == conds[..k] + [conds[k]];
    }
    assert conds[..|conds|] == conds;
  }

  method CollectCombDeps(b: Block, direct0: Deps, conds: seq<set<Name>>) returns (direct: Deps)
    ensures forall x :: x in direct <==> x in direct0 || Assigns(b, x)
    ensures forall id, x :: id in Get(direct, x) <==> id in Get(direct0, x) || Adds(b, conds, id, x)
    decreases b, 1
  {
    hide OnStack;
    direct := direct0;
    var s := b;
    while !s.End?
      invariant forall x :: x in direct || Assigns(s, x) <==> x in direct0 || Assigns(b, x)
      invariant forall id, x :: (id in Get(direct, x) || Adds(s, conds, id, x)
                                 <==> id in Get(direct0, x) || Adds(b, conds, id, x))
      invariant b == s || (b decreases to s)
      decreases s
    {
      match s {
        case Assign(t, e, rest) =>
          var rhs := Idents(e) + IndexReads(t);
          var ids := StackedIds(conds);
          direct := Extend(direct, t.name, rhs + ids);
          s := rest;
        case Branch(scrut, _, arms, rest) =>
          PushedOnStack(conds, Idents(scrut));
          direct := CollectArms(arms, direct, conds + [Idents(scrut)]);
          s := rest;
        case Loop(_, _, body, rest) =>
          direct := CollectCombDeps(body, direct, conds);
          s := rest;
      }
    }
  }

  method CollectArms(arms: Arms, direct0: Deps, conds: seq<set<Name>>) returns (direct: Deps)
    ensures forall x :: x in direct <==> x in direct0 || ArmsAssign(arms, x)
    ensures forall id, x :: id in Get(direct, x) <==> id in Get(direct0, x) || ArmsAdd(arms, conds, id, x)
    decreases arms, 1
  {
    hide OnStack;
    direct := direct0;
    var s := arms;
    while !s.NoArms?
      invariant forall x :: x in direct || ArmsAssign(s, x) <==> x in direct0 || ArmsAssign(arms, x)
      invariant forall id, x :: (id in Get(direct, x) || ArmsAdd(s, conds, id, x)
                                 <==> id in Get(direct0, x) || ArmsAdd(arms, conds, id, x))
      invariant arms == s || (arms decreases to s)
      decreases s
    {
      direct := CollectCombDeps(s.body, direct, conds);
      s := s.others;
    }
  }

  lemma PushedOnStack(conds: seq<set<Name>>, frame: set<Name>)
    ensures forall id :: OnStack(conds + [frame], id) <==> OnStack(conds, id) || id in frame
  {
    forall id | OnStack(conds, id) || id in frame ensures OnStack(conds + [frame], id) {
      if id in frame {
        assert id in (conds + [frame])[|conds|];
      } else {
        var k :| 0 <= k < |conds| && id in conds[k];
        assert id in (conds + [frame])[k];
      }
    }
  }

  method AddItem(item: Item, direct0: Deps) returns (direct: Deps)
    ensures forall x :: x in direct <==> x in direct0 || ItemAssigns(item, x)
    ensures forall id, x :: id in Get(direct, x) <==> id in Get(direct0, x) || ItemFeeds(item, id, x)
  {
    match item {
      case Comb(b) =>
        direct := CollectCombDeps(b, direct0, []);
        assert forall id, x :: Adds(b, [], id, x) <==> ItemFeeds(item, id, x);
      case Let(y, e) =>
        direct := Extend(direct0, y, Idents(e));
    }
  }

  method DirectDeps(items: seq<Item>) returns (direct: Deps)
    ensures forall x :: x in direct <==> Driven(items, x)
    ensures forall id, x :: id in Get(direct, x) <==> Fed(items, id, x)
  {
    hide ItemAssigns, ItemFeeds;
    direct := map[];
    for n := 0 to |items|
      invariant forall x :: x in direct <==> Driven(items[..n], x)
      invariant forall id, x :: id in Get(direct, x) <==> Fed(items[..n], id, x)
    {
      ItemsGrow(items, n);
      direct := AddItem(items[n], direct);
    }
    assert items[..|items|] == items;
  }

  lemma ItemsGrow(items: seq<Item>, n: nat)
    requires n < |items|
    ensures forall x :: Driven(items[..n + 1], x) <==> Driven(items[..n], x) || ItemAssigns(items[n], x)
    ensures forall id, x :: Fed(items[..n + 1], id, x) <==> Fed(items[..n], id, x) || ItemFeeds(items[n], id, x)
  {
    var a, b := items[..n], items[..n + 1];
    assert b[n] == items[n] && forall k :: 0 <= k < n ==> a[k] == b[k];
    forall x | ItemAssigns(items[n], x) ensures Driven(b, x) { assert ItemAssigns(b[n], x); }
    forall id, x | ItemFeeds(items[n], id, x) ensures Fed(b, id, x) { assert ItemFeeds(b[n], id, x); }
    forall x | Driven(a, x) ensures Driven(b, x) { var k :| 0 <= k < |a| && ItemAssigns(a[k], x); assert ItemAssigns(b[k], x); }
    forall id, x | Fed(a, id, x) ensures Fed(b, id, x) {
      var k :| 0 <= k < |a| && ItemFeeds(a[k], id, x);
      assert ItemFeeds(b[k], id, x);
    }
    forall x | Driven(b, x) && !ItemAssigns(items[n], x) ensures Driven(a, x) {
      var k :| 0 <= k < |b| && ItemAssigns(b[k], x);
      assert ItemAssigns(a[k], x);
    }
    forall id, x | Fed(b, id, x) && !ItemFeeds(items[n], id, x) ensures Fed(a, id, x) {
      var k :| 0 <= k < |b| && ItemFeeds(b[k], id, x);
      assert ItemFeeds(a[k], id, x);
    }
  }

  // ---- Backward closure --------------------------------------------------------------------------------

  /** x directly depends on id; with `ranges`, also because a loop around an assignment to x reads id in its range. */
  ghost predicate Sees(items: seq<Item>, ranges: bool, id: Name, x: Name) {
    Fed(items, id, x) || (ranges && RangeFed(items, id, x))
  }

  /** A chain of direct dependencies, starting at p[0], that passes no input before its end. */
  ghost predicate IsChain(items: seq<Item>, inputs: set<Name>, ranges: bool, p: seq<Name>) {
    p != [] && (forall k :: 0 <= k < |p| - 1 ==> Sees(items, ranges, p[k + 1], p[k]))
    && forall k :: 0 < k < |p| - 1 ==> p[k] !in inputs
  }

  /** id lies upstream of x: a non-empty chain of dependencies leads from x back to id. */
  ghost predicate Upstream(items: seq<Item>, inputs: set<Name>, ranges: bool, x: Name, id: Name) {
    exists p :: IsChain(items, inputs, ranges, p) && |p| > 1 && p[0] == x && p[|p| - 1] == id
  }

  lemma UpstreamEdge(items: seq<Item>, inputs: set<Name>, ranges: bool, x: Name, id: Name)
    requires Sees(items, ranges, id, x)
    ensures Upstream(items, inputs, ranges, x, id)
  {
    assert IsChain(items, inputs, ranges, [x, id]);
  }

  lemma UpstreamStep(items: seq<Item>, inputs: set<Name>, ranges: bool, x: Name, y: Name, id: Name)
    requires Upstream(items, inputs, ranges, x, y) && y !in inputs && Sees(items, ranges, id, y)
    ensures Upstream(items, inputs, ranges, x, id)
  {
    var p :| IsChain(items, inputs, ranges, p) && |p| > 1 && p[0] == x && p[|p| - 1] == y;
    var q := p + [id];
    forall k | 0 <= k < |q| - 1 ensures Sees(items, ranges, q[k + 1], q[k]) {
      if k < |p| - 1 { assert q[k + 1] == p[k + 1] && q[k] == p[k]; }
    }
    assert IsChain(items, inputs, ranges, q);
  }

  /** The names the search has looked at or still holds are the output and names upstream of it. */
  ghost predicate Found(items: seq<Item>, inputs: set<Name>, out: Name, x: Name) {
    x == out || (Upstream(items, inputs, false, out, x) && x !in inputs)
  }

  ghost predicate SearchInv(items: seq<Item>, inputs: set<Name>, direct: Deps, out: Name,
                            visited: set<Name>, stack: seq<Name>, deps: set<Name>) {
    && (forall x :: x in visited || x in stack ==> x in direct && Found(items, inputs, out, x))
    && (out in visited || out in stack)
    && (forall x, id :: x in visited && Fed(items, id, x) && id in inputs ==> id in deps)
    && (forall x, id :: x in visited && Fed(items, id, x) && id !in inputs && id in direct ==> id in visited || id in stack)
    && (forall id :: id in deps ==> id in inputs && Upstream(items, inputs, false, out, id))
  }

  ghost predicate DirectOf(items: seq<Item>, direct: Deps) {
    (forall x :: x in direct <==> Driven(items, x)) && forall id, x :: id in Get(direct, x) <==> Fed(items, id, x)
  }

  lemma FoundEdge(items: seq<Item>, inputs: set<Name>, out: Name, x: Name, id: Name)
    requires Found(items, inputs, out, x) && Fed(items, id, x)
    ensures Upstream(items, inputs, false, out, id)
  {
    if x == out { UpstreamEdge(items, inputs, false, out, id); }
    if x != out { UpstreamStep(items, inputs, false, out, x, id); }
  }

  /** The inputs upstream of one output. */
  ghost predicate IsDeps(items: seq<Item>, inputs: set<Name>, out: Name, deps: set<Name>) {
    forall id :: id in deps <==> id in inputs && Upstream(items, inputs, false, out, id)
  }

  /** The inputs that reach one output, found by a worklist over the direct dependencies. */
  method InputsOf(items: seq<Item>, inputs: set<Name>, direct: Deps, out: Name) returns (deps: set<Name>)
    requires DirectOf(items, direct) && out in direct
    ensures IsDeps(items, inputs, out, deps)
  {
    hide Upstream, Fed, Driven, Found, DirectOf;
    deps := {};
    var visited: set<Name> := {};
    var stack := [out];
    assert Found(items, inputs, out, out) by { SelfFound(items, inputs, out); }
    while stack != []
      invariant visited <= direct.Keys && SearchInv(items, inputs, direct, out, visited, stack, deps)
      decreases |direct.Keys - visited|, |stack|
    {
      ghost var stack0, visited0, deps0 := stack, visited, deps;
      var cur := stack[|stack| - 1];
      stack := stack[..|stack| - 1];
      assert stack0 == stack + [cur];
      if cur !in visited {
        Shrinks(direct.Keys, visited, cur);
        visited := visited + {cur};
        deps, stack := Expand(items, inputs, direct, out, cur, deps, stack);
      }
    }
    forall id | id in inputs && Upstream(items, inputs, false, out, id) ensures id in deps {
      SearchComplete(items, inputs, direct, out, visited, deps, id);
    }
  }

  lemma Shrinks(keys: set<Name>, visited: set<Name>, cur: Name)
    requires cur in keys && cur !in visited
    ensures |keys - (visited + {cur})| < |keys - visited|
  {
    assert keys - visited == (keys - (visited + {cur})) + {cur};
  }

  lemma SelfFound(items: seq<Item>, inputs: set<Name>, out: Name)
    ensures Found(items, inputs, out, out)
  {
  }

  /** Looks at everything the current name reads: inputs are results, driven names are pushed. */
  method Expand(items: seq<Item>, inputs: set<Name>, direct: Deps, out: Name, cur: Name, deps0: set<Name>, stack0: seq<Name>)
    returns (deps: set<Name>, stack: seq<Name>)
    requires DirectOf(items, direct) && cur in direct && Found(items, inputs, out, cur)
    ensures deps0 <= deps && forall id :: id in deps ==> id in deps0 || (id in inputs && Upstream(items, inputs, false, out, id))
    ensures forall x :: x in stack0 ==> x in stack
    ensures forall x :: x in stack ==> x in stack0 || (x in direct && Found(items, inputs, out, x))
    ensures forall id :: Fed(items, id, cur) ==> if id in inputs then id in deps else id in direct ==> id in stack
  {
    hide Upstream, Fed, Driven, Found;
    deps, stack := deps0, stack0;
    var todo := direct[cur];
    assert forall id :: id in todo <==> Fed(items, id, cur) by { assert todo == Get(direct, cur); }
    while todo != {}
      invariant todo <= direct[cur] && deps0 <= deps
      invariant forall id :: id in deps ==> id in deps0 || (id in inputs && Upstream(items, inputs, false, out, id))
      invariant forall x :: x in stack0 ==> x in stack
      invariant forall x :: x in stack ==> x in stack0 || (x in direct && Found(items, inputs, out, x))
      invariant forall id :: id in direct[cur] - todo ==> if id in inputs then id in deps else id in direct ==> id in stack
      decreases |todo|
    {
      var id :| id in todo;
      todo := todo - {id};
      FoundEdge(items, inputs, out, cur, id);
      if id in inputs {
        deps := deps + {id};
      } else if id in direct {
        FoundIs(items, inputs, out, id);
        stack := stack + [id];
      }
    }
  }

  lemma FoundIs(items: seq<Item>, inputs: set<Name>, out: Name, x: Name)
    requires Upstream(items, inputs, false, out, x) && x !in inputs
    ensures Found(items, inputs, out, x)
  {
  }

  lemma SearchComplete(items: seq<Item>, inputs: set<Name>, direct: Deps, out: Name, visited: set<Name>,
                       deps: set<Name>, id: Name)
    requires DirectOf(items, direct) && SearchInv(items, inputs, direct, out, visited, [], deps)
    requires id in inputs && Upstream(items, inputs, false, out, id)
    ensures id in deps
  {
    hide Fed, Driven, Found, DirectOf;
    var p :| IsChain(items, inputs, false, p) && |p| > 1 && p[0] == out && p[|p| - 1] == id;
    ChainVisited(items, inputs, direct, out, visited, deps, p, |p| - 2);
    assert Sees(items, false, p[|p| - 2 + 1], p[|p| - 2]);
  }

  lemma {:induction false} ChainVisited(items: seq<Item>, inputs: set<Name>, direct: Deps, out: Name, visited: set<Name>,
                                        deps: set<Name>, p: seq<Name>, k: nat)
    requires DirectOf(items, direct) && SearchInv(items, inputs, direct, out, visited, [], deps)
    requires IsChain(items, inputs, false, p) && p[0] == out && k < |p| - 1
    ensures p[k] in visited
    decreases k
  {
    hide Fed, Driven, Found;
    if k > 0 {
      ChainVisited(items, inputs, direct, out, visited, deps, p, k - 1);
      assert Sees(items, false, p[k - 1 + 1], p[k - 1]);
      assert Sees(items, false, p[k + 1], p[k]) && p[k + 1] in Get(direct, p[k]);
    }
  }

  method PerOutputCombDeps(inputs: set<Name>, outputs: set<Name>, items: seq<Item>) returns (deps: Deps)
    ensures deps.Keys == outputs
    ensures forall o :: o in outputs ==> IsDeps(items, inputs, o, deps[o])
  {
    hide Upstream, Fed, Driven, DirectOf, IsDeps;
    var direct := DirectDeps(items);
    assert DirectOf(items, direct) by { IsDirect(items, direct); }
    deps := map[];
    var todo := outputs;
    while todo != {}
      invariant todo <= outputs && deps.Keys == outputs - todo
      invariant forall o :: o in deps ==> IsDeps(items, inputs, o, deps[o])
      decreases |todo|
    {
      var o :| o in todo;
      todo := todo - {o};
      var found: set<Name> := {};
      if o in direct {
        found := InputsOf(items, inputs, direct, o);
      } else {
        NoneUpstream(items, inputs, direct, o);
      }
      deps := deps[o := found];
    }
  }

  lemma IsDirect(items: seq<Item>, direct: Deps)
    requires forall x :: x in direct <==> Driven(items, x)
    requires forall id, x :: id in Get(direct, x) <==> Fed(items, id, x)
    ensures DirectOf(items, direct)
  {
  }

  lemma NoneUpstream(items: seq<Item>, inputs: set<Name>, direct: Deps, o: Name)
    requires DirectOf(items, direct) && o !in direct
    ensures IsDeps(items, inputs, o, {})
  {
    hide Upstream, DirectOf;
    forall id ensures !Upstream(items, inputs, false, o, id) { UndrivenHasNone(items, inputs, direct, o, id); }
  }

  lemma UndrivenHasNone(items: seq<Item>, inputs: set<Name>, direct: Deps, o: Name, id: Name)
    requires DirectOf(items, direct) && o !in direct
    ensures !Upstream(items, inputs, false, o, id)
  {
    hide Fed, Driven;
    forall p: seq<Name> | |p| > 1 && p[0] == o ensures !IsChain(items, inputs, false, p) {
      assert p[0 + 1] !in Get(direct, o);
    }
  }

  // ---- Non-interference --------------------------------------------------------------------------------

  function RunItem(item: Item, env: Env): Env {
    match item
    case Comb(b) => Exec(b, env)
    case Let(x, e) => Set(env, x, Eval(e, env))
  }

  /** Re-evaluates items in the given order, as often as the order says. */
  function Run(items: seq<Item>, order: seq<nat>, env: Env): Env
    requires forall k :: 0 <= k < |order| ==> order[k] < |items|
  {
    if order == [] then env
    else RunItem(items[order[|order| - 1]], Run(items, order[..|order| - 1], env))
  }

  /** No port is both read from outside and driven here. */
  ghost predicate WellFormed(items: seq<Item>, inputs: set<Name>) {
    forall x :: x in inputs ==> !Driven(items, x)
  }

  /** The signals that matter to an output: itself, whatever lies upstream, and the constants. */
  ghost function Relevant(items: seq<Item>, inputs: set<Name>, ranges: bool, out: Name): iset<Name> {
    iset x: Name | x == out || Upstream(items, inputs, ranges, out, x) || (x !in inputs && !Driven(items, x))
  }

  lemma RelevantClosed(items: seq<Item>, inputs: set<Name>, ranges: bool, out: Name, id: Name, x: Name)
    requires WellFormed(items, inputs) && x in Relevant(items, inputs, ranges, out) && Sees(items, ranges, id, x)
    ensures id in Relevant(items, inputs, ranges, out)
  {
    hide Upstream, Sees;
    SeesIsDriven(items, ranges, id, x);
    if x == out { UpstreamEdge(items, inputs, ranges, out, id); }
    if x != out { UpstreamStep(items, inputs, ranges, out, x, id); }
  }

  lemma SeesIsDriven(items: seq<Item>, ranges: bool, id: Name, x: Name)
    requires Sees(items, ranges, id, x)
    ensures Driven(items, x)
  {
    if Fed(items, id, x) {
      var k :| 0 <= k < |items| && ItemFeeds(items[k], id, x);
      FedIsDriven(items[k], id, x);
    } else {
      var k :| 0 <= k < |items| && ItemRangeFeeds(items[k], id, x);
      FedIsDriven(items[k], id, x);
    }
  }

  lemma FedIsDriven(item: Item, id: Name, x: Name)
    requires ItemFeeds(item, id, x) || ItemRangeFeeds(item, id, x)
    ensures ItemAssigns(item, x)
  {
    if item.Comb? { FeedsAssigns(item.code, id, x); }
  }

  lemma {:induction false} FeedsAssigns(b: Block, id: Name, x: Name)
    requires Feeds(b, id, x) || RangeFeeds(b, id, x)
    ensures Assigns(b, x)
  {
    match b
    case Assign(t, e, rest) => if !(t.name == x) { FeedsAssigns(rest, id, x); }
    case Branch(scrut, pick, arms, rest) =>
      if ArmsFeed(arms, id, x) || ArmsRangeFeed(arms, id, x) { ArmsFeedAssign(arms, id, x); }
      if Feeds(rest, id, x) || RangeFeeds(rest, id, x) { FeedsAssigns(rest, id, x); }
    case Loop(v, range, body, rest) =>
      if Feeds(body, id, x) || RangeFeeds(body, id, x) { FeedsAssigns(body, id, x); }
      if Feeds(rest, id, x) || RangeFeeds(rest, id, x) { FeedsAssigns(rest, id, x); }
  }

  lemma {:induction false} ArmsFeedAssign(arms: Arms, id: Name, x: Name)
    requires ArmsFeed(arms, id, x) || ArmsRangeFeed(arms, id, x)
    ensures ArmsAssign(arms, x)
  {
    if Feeds(arms.body, id, x) || RangeFeeds(arms.body, id, x) {
      FeedsAssigns(arms.body, id, x);
    } else {
      ArmsFeedAssign(arms.others, id, x);
    }
  }

  /** Runs that agree on everything relevant, loop ranges counted as reads, keep agreeing on it. */
  lemma {:induction false} RunAgrees(items: seq<Item>, order: seq<nat>, e1: Env, e2: Env, inputs: set<Name>, out: Name)
    requires forall k :: 0 <= k < |order| ==> order[k] < |items|
    requires WellFormed(items, inputs) && Agree(e1, e2, Relevant(items, inputs, true, out))
    ensures Agree(Run(items, order, e1), Run(items, order, e2), Relevant(items, inputs, true, out))
    decreases |order|
  {
    hide Upstream, Relevant;
    if order != [] {
      var earlier, k := order[..|order| - 1], order[|order| - 1];
      RunAgrees(items, earlier, e1, e2, inputs, out);
      ItemAgrees(items, k, Run(items, earlier, e1), Run(items, earlier, e2), inputs, out);
    }
  }

  lemma ItemAgrees(items: seq<Item>, k: nat, e1: Env, e2: Env, inputs: set<Name>, out: Name)
    requires k < |items| && WellFormed(items, inputs) && Agree(e1, e2, Relevant(items, inputs, true, out))
    ensures Agree(RunItem(items[k], e1), RunItem(items[k], e2), Relevant(items, inputs, true, out))
  {
    hide Upstream, Feeds, RangeFeeds, Relevant;
    var a := Relevant(items, inputs, true, out);
    forall id, x | x in a && (ItemFeeds(items[k], id, x) || ItemRangeFeeds(items[k], id, x)) ensures id in a {
      assert Sees(items, true, id, x);
      RelevantClosed(items, inputs, true, out, id, x);
    }
    match items[k]
    case Comb(b) =>
      assert forall id, x :: Feeds(b, id, x) ==> ItemFeeds(items[k], id, x);
      assert forall id, x :: RangeFeeds(b, id, x) ==> ItemRangeFeeds(items[k], id, x);
      ExecAgrees(b, e1, e2, a);
    case Let(y, e) =>
      if y in a {
        assert forall id :: id in Idents(e) ==> ItemFeeds(items[k], id, y);
        EvalAgrees(e, e1, e2);
      }
  }

  /** With loop ranges counted as reads there is no exception: two runs that agree on the inputs upstream of an output
      and on everything that is not an input give the output the same value. */
  lemma FullNonInterference(items: seq<Item>, inputs: set<Name>, out: Name, order: seq<nat>, e1: Env, e2: Env)
    requires forall k :: 0 <= k < |order| ==> order[k] < |items|
    requires WellFormed(items, inputs) && out !in inputs
    requires forall x :: x !in inputs || Upstream(items, inputs, true, out, x) ==> e1(x) == e2(x)
    ensures Run(items, order, e1)(out) == Run(items, order, e2)(out)
  {
    hide Upstream;
    RunAgrees(items, order, e1, e2, inputs, out);
  }

  /** The ranges of loops around assignments reach back to no input the output does not depend on anyway. */
  ghost predicate RangesAddNoInput(items: seq<Item>, inputs: set<Name>, out: Name) {
    forall i :: i in inputs && Upstream(items, inputs, true, out, i) ==> Upstream(items, inputs, false, out, i)
  }

  /** Two runs that agree on an output's dependencies and on everything that is not an input give the output the
      same value, in whatever order and however often the items are evaluated. Only this output's loop ranges matter. */
  lemma NonInterference(items: seq<Item>, inputs: set<Name>, out: Name, order: seq<nat>, e1: Env, e2: Env, deps: set<Name>)
    requires forall k :: 0 <= k < |order| ==> order[k] < |items|
    requires WellFormed(items, inputs) && out !in inputs && RangesAddNoInput(items, inputs, out)
    requires IsDeps(items, inputs, out, deps)
    requires forall x :: x in deps || x !in inputs ==> e1(x) == e2(x)
    ensures Run(items, order, e1)(out) == Run(items, order, e2)(out)
  {
    hide Upstream;
    FullNonInterference(items, inputs, out, order, e1, e2);
  }

  // ---- Loop ranges -------------------------------------------------------------------------------------

  /** Every loop that assigns a signal relevant to the output reads only relevant signals in its range. */
  ghost predicate RangesCovered(items: seq<Item>, inputs: set<Name>, out: Name) {
    forall id, x :: x in Relevant(items, inputs, false, out) && RangeFed(items, id, x) ==>
                      id in Relevant(items, inputs, false, out)
  }

  lemma {:induction false} CoveredChain(items: seq<Item>, inputs: set<Name>, out: Name, p: seq<Name>, k: nat)
    requires WellFormed(items, inputs) && RangesCovered(items, inputs, out)
    requires IsChain(items, inputs, true, p) && p[0] == out && k < |p|
    ensures p[k] in Relevant(items, inputs, false, out)
    decreases k
  {
    hide Upstream, Relevant, Fed, RangeFed;
    if k == 0 {
      OutIsRelevant(items, inputs, out);
    } else {
      CoveredChain(items, inputs, out, p, k - 1);
      assert Sees(items, true, p[k - 1 + 1], p[k - 1]);
      if Fed(items, p[k], p[k - 1]) { RelevantClosed(items, inputs, false, out, p[k], p[k - 1]); }
    }
  }

  lemma OutIsRelevant(items: seq<Item>, inputs: set<Name>, out: Name)
    ensures out in Relevant(items, inputs, false, out)
  {
    hide Upstream;
  }

  /** A chain of plain reads is a chain when ranges count as well. */
  lemma MoreUpstream(items: seq<Item>, inputs: set<Name>, x: Name, id: Name)
    requires Upstream(items, inputs, false, x, id)
    ensures Upstream(items, inputs, true, x, id)
  {
    hide Fed, RangeFed;
    var p :| IsChain(items, inputs, false, p) && |p| > 1 && p[0] == x && p[|p| - 1] == id;
    forall k | 0 <= k < |p| - 1 ensures Sees(items, true, p[k + 1], p[k]) { assert Sees(items, false, p[k + 1], p[k]); }
    assert IsChain(items, inputs, true, p);
  }

  /** The local condition is exact: it holds if and only if counting range reads makes no further signal relevant to
      the output. */
  lemma CoveredExactly(items: seq<Item>, inputs: set<Name>, out: Name)
    requires WellFormed(items, inputs)
    ensures RangesCovered(items, inputs, out) <==>
            Relevant(items, inputs, true, out) == Relevant(items, inputs, false, out)
  {
    hide Fed, RangeFed, Driven, IsChain;
    if RangesCovered(items, inputs, out) {
      forall x | Upstream(items, inputs, true, out, x) ensures x in Relevant(items, inputs, false, out) {
        var p :| IsChain(items, inputs, true, p) && |p| > 1 && p[0] == out && p[|p| - 1] == x;
        CoveredChain(items, inputs, out, p, |p| - 1);
      }
      forall x | Upstream(items, inputs, false, out, x) ensures Upstream(items, inputs, true, out, x) {
        MoreUpstream(items, inputs, out, x);
      }
    }
    if Relevant(items, inputs, true, out) == Relevant(items, inputs, false, out) {
      forall id, x | x in Relevant(items, inputs, false, out) && RangeFed(items, id, x)
        ensures id in Relevant(items, inputs, false, out)
      {
        RelevantClosed(items, inputs, true, out, id, x);
      }
    }
  }

  /** The local condition is enough for the theorem. */
  lemma CoveredAddsNoInput(items: seq<Item>, inputs: set<Name>, out: Name)
    requires WellFormed(items, inputs) && out !in inputs && RangesCovered(items, inputs, out)
    ensures RangesAddNoInput(items, inputs, out)
  {
    hide Upstream;
    CoveredExactly(items, inputs, out);
    forall i | i in inputs && Upstream(items, inputs, true, out, i) ensures Upstream(items, inputs, false, out, i) {
      assert i in Relevant(items, inputs, true, out);
    }
  }

  /** Some condition on ranges is needed: the analysis does not see a range, so an input that only sets a trip
      count is missing from the dependencies although the output follows it. */
  lemma LoopRangeIsMissed(zero: Env)
    requires forall x :: zero(x) == 0
    ensures var items := [Comb(Loop("k", Ident("n"), Assign(Whole("y"), Lit(1), End), End))];
            !Upstream(items, {"n"}, false, "y", "n") && Upstream(items, {"n"}, true, "y", "n")
            && Run(items, [0], zero)("y") == 0 && Run(items, [0], Set(zero, "n", 1))("y") == 1
  {
    var loop := Loop("k", Ident("n"), Assign(Whole("y"), Lit(1), End), End);
    var items := [Comb(loop)];
    forall id, x ensures !Fed(items, id, x) {
      ConstantReadsNothing("y", 1, End, id, x);
    }
    forall p: seq<Name> | |p| > 1 ensures !IsChain(items, {"n"}, false, p) {
      assert !Sees(items, false, p[0 + 1], p[0]);
    }
    assert ItemRangeFeeds(items[0], "n", "y");
    UpstreamEdge(items, {"n"}, true, "y", "n");
    OneItem(items, zero);
    OneItem(items, Set(zero, "n", 1));
    var one := Set(zero, "n", 1);
    assert Trips(Ident("n"), one) == 1;
    assert Iterate(loop.body, "k", 0, one) == one;
    assert Exec(loop.body, Set(one, "k", 0))("y") == 1;
  }

  lemma OneItem(items: seq<Item>, env: Env)
    requires |items| == 1
    ensures Run(items, [0], env) == RunItem(items[0], env)
  {
    assert [0][..0] == [];
    assert Run(items, [], env) == env;
  }

  /** No condition on reads alone can be exact for values: here the range reaches back to a further input, yet the
      output ignores it, because what the loop assigns is overwritten. */
  lemma RangeMayBeHarmless(order: seq<nat>, e1: Env, e2: Env)
    requires forall k :: 0 <= k < |order| ==> order[k] < 1
    requires forall x :: x != "n" ==> e1(x) == e2(x)
    ensures var items := [Comb(OVERWRITTEN)];
            !RangesAddNoInput(items, {"n"}, "y") && Run(items, order, e1)("y") == Run(items, order, e2)("y")
  {
    var items := [Comb(OVERWRITTEN)];
    forall id, x ensures !Fed(items, id, x) {
      ConstantReadsNothing("y", 1, End, id, x);
      ConstantReadsNothing("y", 2, End, id, x);
    }
    forall p: seq<Name> | |p| > 1 ensures !IsChain(items, {"n"}, false, p) {
      assert !Sees(items, false, p[0 + 1], p[0]);
    }
    assert ItemRangeFeeds(items[0], "n", "y");
    UpstreamEdge(items, {"n"}, true, "y", "n");
    if order != [] {
      Overwrites(Run(items, order[..|order| - 1], e1));
      Overwrites(Run(items, order[..|order| - 1], e2));
    }
  }

  lemma ConstantReadsNothing(y: Name, v: int, rest: Block, id: Name, x: Name)
    ensures Feeds(Assign(Whole(y), Lit(v), rest), id, x) <==> Feeds(rest, id, x)
    ensures !Feeds(End, id, x)
  {
    assert Idents(Lit(v)) + IndexReads(Whole(y)) == {};
  }

  /** for k in 0..n { y = 1 }  y = 2. */
  const OVERWRITTEN := Loop("k", Ident("n"), Assign(Whole("y"), Lit(1), End), Assign(Whole("y"), Lit(2), End))

  lemma Overwrites(env: Env)
    ensures Exec(OVERWRITTEN, env)("y") == 2
  {
    hide Iterate;
    var after, last := AfterLoop(OVERWRITTEN, env), OVERWRITTEN.rest;
    assert Exec(OVERWRITTEN, env) == Exec(last, after);
    assert Exec(last, after)("y") == Exec(last.rest, Set(after, "y", 2))("y");
  }
}
