/** What it means for bracketed semaphore operations to have happened in some order.
    Nothing here mentions either audit: no FIFO, no clock inside a bracket, and the
    credit a wait consumes is any outstanding one. */
module Linearization {
  import opened Options
  import opened SemaphoreJournal

  /** An order of the operations that never reverses two strictly disjoint brackets. */
  ghost predicate Linearizes(ops: seq<Op>, order: seq<Op>) {
    && multiset(order) == multiset(ops)
    && forall i, j :: 0 <= i < j < |order| ==> !(order[j].exit < order[i].entry)
  }

  /** Outstanding credits, each named by the release that produced it. */
  type Pool = multiset<nat>

  /** Credits an epoch is created with; they carry no release ID (IDs are positive). */
  ghost function Initial(count: nat): Pool { multiset{}[0 := count] }

  /** Whether the semaphore allows this observed outcome when these credits are outstanding. */
  ghost predicate Enabled(op: Op, pool: Pool, maximum: nat, uses: map<nat, nat>) {
    match op.payload
    case Release(count, success, previous, _) =>
      success == Some(false) ||
      (success == Some(true) && previous == Some(|pool|) && |pool| + count <= maximum)
    case Wait(result) =>
      if result == Some(WaitSuccess) then op.id in uses && uses[op.id] in pool
      else if result == Some(WaitTimeout) then |pool| == 0
      else result == Some(WaitApc) || result == Some(WaitAlerted)
    case Other(_) => false
  }

  ghost function After(op: Op, pool: Pool, uses: map<nat, nat>): Pool {
    if op.Released() then pool + multiset{}[op.id := op.payload.count]
    else if op.Consumed() && op.id in uses then pool - multiset{uses[op.id]}
    else pool
  }

  ghost function Outstanding(order: seq<Op>, pool: Pool, uses: map<nat, nat>): Pool {
    if order == [] then pool
    else After(order[|order|-1], Outstanding(order[..|order|-1], pool, uses), uses)
  }

  /** Every step of the order is allowed; `uses` says which release each success consumed. */
  ghost predicate Legal(order: seq<Op>, pool: Pool, maximum: nat, uses: map<nat, nat>) {
    order == [] ||
    (var front := order[..|order|-1];
     Legal(front, pool, maximum, uses) &&
     Enabled(order[|order|-1], Outstanding(front, pool, uses), maximum, uses))
  }

  lemma {:induction false} SplitByMembership(early: seq<Op>, late: seq<Op>, head: seq<Op>, tail: seq<Op>)
    requires multiset(head) + multiset(tail) == multiset(early) + multiset(late)
    requires forall x :: x in early ==> x !in late
    requires forall x :: x in head ==> x !in late
    requires forall x :: x in tail ==> x in late
    ensures multiset(head) == multiset(early) && multiset(tail) == multiset(late)
    ensures |head| == |early|
  {
    forall x ensures multiset(head)[x] == multiset(early)[x] && multiset(tail)[x] == multiset(late)[x] {
      assert (multiset(head) + multiset(tail))[x] == (multiset(early) + multiset(late))[x];
      assert x in head <==> x in multiset(head);
      assert x in tail <==> x in multiset(tail);
      assert x in early <==> x in multiset(early);
      assert x in late <==> x in multiset(late);
    }
    assert |head| == |multiset(head)|;
    assert |early| == |multiset(early)|;
  }

  lemma {:induction false} BoundaryOf(early: seq<Op>, late: seq<Op>, order: seq<Op>) returns (k: nat)
    requires Linearizes(early + late, order)
    requires forall a, b :: a in early && b in late ==> a.exit < b.entry
    ensures k <= |order|
    ensures forall i :: 0 <= i < k ==> order[i] !in late
    ensures forall i :: k <= i < |order| ==> order[i] in late
  {
    k := 0;
    while k < |order| && order[k] !in late
      invariant 0 <= k <= |order|
      invariant forall i :: 0 <= i < k ==> order[i] !in late
    {
      k := k + 1;
    }
    SameElements(order, early + late);
    forall i | k <= i < |order| ensures order[i] in late {
      assert order[i] in early + late;
      assert order[i] in early ==> order[i].exit < order[k].entry;
    }
  }

  /** Operations that all end before others begin come first in every linearization. */
  lemma {:induction false} EarlierFirst(early: seq<Op>, late: seq<Op>, order: seq<Op>)
    requires Linearizes(early + late, order)
    requires forall a, b :: a in early && b in late ==> a.exit < b.entry
    requires WellBracketed(early)
    ensures |order| == |early| + |late|
    ensures Linearizes(early, order[..|early|])
    ensures multiset(order[|early|..]) == multiset(late)
  {
    var k := BoundaryOf(early, late, order);
    assert order == order[..k] + order[k..];
    assert multiset(early + late) == multiset(early) + multiset(late);
    SplitByMembership(early, late, order[..k], order[k..]);
    assert |order| == |multiset(order)| == |multiset(early + late)| == |early + late|;
  }

  /** Legality of a whole order is legality of every beginning of it. */
  lemma {:induction false} LegalBeginning(order: seq<Op>, pool: Pool, maximum: nat, uses: map<nat, nat>, k: nat)
    requires k <= |order| && Legal(order, pool, maximum, uses)
    ensures Legal(order[..k], pool, maximum, uses)
  {
    if k == |order| {
      assert order[..k] == order;
    } else {
      var front := order[..|order|-1];
      LegalBeginning(front, pool, maximum, uses, k);
      assert front[..k] == order[..k];
    }
  }
}
