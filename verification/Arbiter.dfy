/** The arbiter grants of src/construct_formal_ir.rs: fixed priority, and round robin with its rotating start. */
module Arbiter {
  import opened BitVec

  type Bits = seq<bool>

  function Zero(n: nat): Bits { seq(n, _ => false) }

  function OneHot(n: nat, idx: nat): Bits { seq(n, i => i == idx) }

  /** The first requested index of an order, or its length. */
  function FirstIn(req: Bits, order: seq<nat>): (k: nat)
    requires forall i :: 0 <= i < |order| ==> order[i] < |req|
    ensures k <= |order| && (k < |order| ==> req[order[k]]) && forall i :: 0 <= i < k ==> !req[order[i]]
  {
    if order == [] then 0 else if req[order[0]] then 0 else FirstIn(req, order[1..]) + 1
  }

  function GrantOf(req: Bits, order: seq<nat>): Bits
    requires forall i :: 0 <= i < |order| ==> order[i] < |req|
  {
    if FirstIn(req, order) < |order| then OneHot(|req|, order[FirstIn(req, order)]) else Zero(|req|)
  }

  lemma FirstShift(req: Bits, order: seq<nat>, k: nat)
    requires k < |order| && forall i :: 0 <= i < |order| ==> order[i] < |req|
    ensures GrantOf(req, order[k..]) == if req[order[k]] then OneHot(|req|, order[k]) else GrantOf(req, order[k + 1..])
  {
    assert order[k..][1..] == order[k + 1..];
  }

  /** The nested conditionals, built from the last candidate to the first. */
  method PriorityGrant(req: Bits, order: seq<nat>) returns (grant: Bits)
    requires forall i :: 0 <= i < |order| ==> order[i] < |req|
    ensures grant == GrantOf(req, order)
  {
    hide GrantOf;
    grant := Zero(|req|);
    var k := |order|;
    assert GrantOf(req, order[k..]) == grant by { EmptyOrder(req, order); }
    while k > 0
      invariant k <= |order| && grant == GrantOf(req, order[k..])
    {
      k := k - 1;
      FirstShift(req, order, k);
      if req[order[k]] {
        grant := OneHot(|req|, order[k]);
      }
    }
    assert order[0..] == order;
  }

  lemma EmptyOrder(req: Bits, order: seq<nat>)
    requires forall i :: 0 <= i < |order| ==> order[i] < |req|
    ensures GrantOf(req, order[|order|..]) == Zero(|req|)
  {
  }

  /** The candidates of a round, from the start around. */
  function Rotation(n: nat, start: nat): (order: seq<nat>)
    ensures |order| == n && forall i :: 0 <= i < n ==> order[i] < n
  {
    seq(n, off requires 0 <= off < n => (start + off) % n)
  }

  /** One conditional per start, from the last start to the first. */
  method RoundRobinGrant(req: Bits, start: nat) returns (grant: Bits)
    ensures grant == if start < |req| then GrantOf(req, Rotation(|req|, start)) else Zero(|req|)
  {
    hide GrantOf, Rotation;
    var n := |req|;
    grant := Zero(n);
    var s := n;
    while s > 0
      invariant s <= n && grant == if s <= start < n then GrantOf(req, Rotation(n, start)) else Zero(n)
    {
      s := s - 1;
      var g := PriorityGrant(req, Rotation(n, s));
      if start == s {
        grant := g;
      }
    }
  }

  /** Every index has a place in the rotation. */
  function Offset(n: nat, start: nat, idx: nat): (off: nat)
    requires start < n && idx < n
    ensures off < n && Rotation(n, start)[off] == idx
  {
    if idx >= start then RotationAt(n, start, idx - start); idx - start
    else RotationAt(n, start, idx + n - start); idx + n - start
  }

  lemma RotationAt(n: nat, start: nat, off: nat)
    requires start < n && off < n
    ensures Rotation(n, start)[off] == if start + off < n then start + off else start + off - n
  {
    if start + off < n {
      DivModUnique(start + off, n, 0, start + off);
    } else {
      DivModUnique(start + off, n, 1, start + off - n);
    }
  }

  /** The grant is one-hot or empty, within the requests, empty only without requests, and first from the start. */
  lemma GrantIsExact(req: Bits, start: nat)
    requires start < |req|
    ensures var g := GrantOf(req, Rotation(|req|, start));
            |g| == |req|
            && (forall i :: 0 <= i < |req| && g[i] ==> req[i])
            && (forall i, j :: 0 <= i < |req| && 0 <= j < |req| && g[i] && g[j] ==> i == j)
            && ((exists i :: 0 <= i < |req| && g[i]) <==> exists i :: 0 <= i < |req| && req[i])
            && forall i, j :: 0 <= i < |req| && 0 <= j < |req| && g[i] && req[j] ==> Offset(|req|, start, i) <= Offset(|req|, start, j)
  {
    hide Rotation;
    var n, order := |req|, Rotation(|req|, start);
    var k := FirstIn(req, order);
    var g := GrantOf(req, order);
    forall j | 0 <= j < n && req[j] ensures k <= Offset(n, start, j) && k < n && g[order[k]] {
      assert order[Offset(n, start, j)] == j;
    }
    forall i | 0 <= i < n && g[i] ensures k < n && i == order[k] && Offset(n, start, i) == k {
      OffsetOf(n, start, k);
    }
  }

  lemma OffsetOf(n: nat, start: nat, k: nat)
    requires start < n && k < n
    ensures Offset(n, start, Rotation(n, start)[k]) == k
  {
    RotationAt(n, start, k);
  }

  // ---- Starvation --------------------------------------------------------------------------------------

  /** The start after a grant. */
  function NextPtr(n: nat, idx: nat): nat
    requires n > 0
  {
    if idx + 1 == n then 0 else (idx + 1) % n
  }

  /** The granted index of a cycle that has a request. */
  function Granted(req: Bits, start: nat): (idx: nat)
    requires start < |req| && exists i :: 0 <= i < |req| && req[i]
    ensures idx < |req|
  {
    var order := Rotation(|req|, start);
    RequestFound(req, start);
    order[FirstIn(req, order)]
  }

  lemma RequestFound(req: Bits, start: nat)
    requires start < |req| && exists i :: 0 <= i < |req| && req[i]
    ensures FirstIn(req, Rotation(|req|, start)) < |req|
  {
    var i :| 0 <= i < |req| && req[i];
    assert Rotation(|req|, start)[Offset(|req|, start, i)] == i;
  }

  /** The start after serving the given request vectors one by one. */
  function StartAfter(reqs: seq<Bits>, n: nat, start: nat, i: nat): (s: nat)
    requires start < n && i < n && forall k :: 0 <= k < |reqs| ==> |reqs[k]| == n && reqs[k][i]
    ensures s < n
  {
    if reqs == [] then start
    else StartAfter(reqs[1..], n, NextPtr(n, Granted(reqs[0], start)), i)
  }

  /** Each grant to someone else brings a waiting requester strictly nearer to the start. */
  lemma GrantApproaches(req: Bits, start: nat, i: nat)
    requires start < |req| && i < |req| && req[i] && Granted(req, start) != i
    ensures NextPtr(|req|, Granted(req, start)) < |req|
    ensures Offset(|req|, NextPtr(|req|, Granted(req, start)), i) < Offset(|req|, start, i)
  {
    hide Rotation;
    var n, order := |req|, Rotation(|req|, start);
    var k, g := FirstIn(req, order), Granted(req, start);
    assert order[Offset(n, start, i)] == i;
    RotationAt(n, start, k);
    if g + 1 < n { DivModUnique(g + 1, n, 0, g + 1); }
  }

  /** A requester that keeps requesting is granted within as many grants as there are requesters. */
  lemma {:induction false} NoStarvation(reqs: seq<Bits>, n: nat, start: nat, i: nat) returns (k: nat)
    requires start < n && i < n && forall k :: 0 <= k < |reqs| ==> |reqs[k]| == n && reqs[k][i]
    requires |reqs| > Offset(n, start, i)
    ensures k <= Offset(n, start, i) && Granted(reqs[k], StartAfter(reqs[..k], n, start, i)) == i
    decreases |reqs|
  {
    if Granted(reqs[0], start) == i {
      k := 0;
    } else {
      GrantApproaches(reqs[0], start, i);
      var next := NextPtr(n, Granted(reqs[0], start));
      var j := NoStarvation(reqs[1..], n, next, i);
      k := j + 1;
      assert reqs[..k][1..] == reqs[1..][..j];
    }
  }
}
