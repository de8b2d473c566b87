/** What an undisturbed START press ends as, told from the clocks of its calls alone, and what a first
    disturbance does to it. */
module LatchOutcome {
  import opened Options
  import opened AutostartLatch

  // ---------------------------------------------------------------- undisturbed presses

  predicate Ticks(c: Call) { c.Read? || c.Poll? }

  /** One arming, then only reads and polls, on a clock that never goes back and leaves room for both
      deadlines; reads and polls may come before the arming too. */
  ghost predicate Undisturbed(before: seq<Call>, p: Time, after: seq<Call>) {
    && (forall c :: c in before ==> Ticks(c) && c.now <= p) && (forall c :: c in after ==> Ticks(c) && p <= c.now)
    && Steady(before) && Steady(after)
    && p + 10000 <= MAX_TIME && |before| + |after| < MAX_TIME
  }

  ghost predicate Steady(calls: seq<Call>) {
    forall i, k :: 0 <= i < k < |calls| ==> calls[i].now <= calls[k].now
  }

  /** A read in the first five seconds. */
  ghost predicate Down(p: Time, after: seq<Call>) { exists c :: c in after && c.Read? && c.now < p + 5000 }

  /** Any call once those are over. */
  ghost predicate Released(p: Time, after: seq<Call>) { exists c :: c in after && c.now >= p + 5000 }

  /** A read in the next five seconds. */
  ghost predicate Neutral(p: Time, after: seq<Call>) {
    exists c :: c in after && c.Read? && p + 5000 <= c.now < p + 10000
  }

  /** Any call once those are over too. */
  ghost predicate Expired(p: Time, after: seq<Call>) { exists c :: c in after && c.now >= p + 10000 }

  ghost function OutcomeOf(p: Time, after: seq<Call>): (Status, Error) {
    if !Released(p, after) then (HoldingStart, NoError)
    else if !Down(p, after) then (Failed, MissingDownAck)
    else if Neutral(p, after) then (Succeeded, NoError)
    else if Expired(p, after) then (Failed, MissingNeutralAck)
    else (WaitingNeutralAck, NoError)
  }

  ghost predicate Stands(s: Snapshot, p: Time, after: seq<Call>, count: nat) {
    && (s.status, s.error) == OutcomeOf(p, after) && s.published == Some(p)
    && s.last == Some(if after == [] then p else after[|after|-1].now)
    && (s.downAck.Some? <==> Down(p, after))
    && s.readCount <= count && s.pollCount <= count && s.downCount + s.neutralCount == s.readCount
  }

  lemma {:induction false} LatestIsLast(after: seq<Call>, c: Call)
    requires Steady(after + [c])
    ensures Steady(after) && forall x :: x in after ==> x.now <= c.now
  {
    var all := after + [c];
    forall x | x in after ensures x.now <= c.now {
      var k :| 0 <= k < |after| && after[k] == x;
      assert all[k].now <= all[|after|].now;
    }
    assert forall i :: 0 <= i < |after| ==> all[i] == after[i];
  }

  lemma {:induction false} FactsSnoc(p: Time, after: seq<Call>, c: Call)
    ensures Down(p, after + [c]) <==> Down(p, after) || (c.Read? && c.now < p + 5000)
    ensures Released(p, after + [c]) <==> Released(p, after) || c.now >= p + 5000
    ensures Neutral(p, after + [c]) <==> Neutral(p, after) || (c.Read? && p + 5000 <= c.now < p + 10000)
    ensures Expired(p, after + [c]) <==> Expired(p, after) || c.now >= p + 10000
  {
    assert c in after + [c];
    assert forall x :: x in after + [c] <==> x in after || x == c;
    assert forall x :: x in after ==> x in after + [c];
  }

  /** Times that have passed stay passed. */
  lemma {:induction false} FactsOrdered(p: Time, after: seq<Call>, c: Call)
    requires forall x :: x in after ==> x.now <= c.now
    ensures Released(p, after) ==> c.now >= p + 5000
    ensures Expired(p, after) ==> c.now >= p + 10000
    ensures Neutral(p, after) ==> Released(p, after)
    ensures Expired(p, after) ==> Released(p, after)
  {
  }

  lemma {:induction false} PollStands(s: Snapshot, p: Time, after: seq<Call>, c: Call, count: nat)
    requires Stands(s, p, after, count) && c.Poll? && p <= c.now && Steady(after + [c])
    requires count < MAX_TIME && p + 10000 <= MAX_TIME
    ensures Stands(Apply(s, c).0, p, after + [c], count + 1) && Apply(s, c).1 == 0
  {
    LatestIsLast(after, c);
    FactsSnoc(p, after, c);
    FactsOrdered(p, after, c);
    assert after != [] ==> after[|after|-1] in after;
    hide Down, Released, Neutral, Expired, Steady;
  }

  /** What a good read does at each status, with the deadlines told from the publication. */
  lemma {:induction false} ReadEffect(s: Snapshot, p: Time, c: Call)
    requires c.Read? && s.published == Some(p) && p + 10000 <= MAX_TIME && s.status != Idle
    requires s.last.Some? && s.last.value <= c.now && s.readCount < MAX_TIME
    requires s.downCount + s.neutralCount == s.readCount && (s.error != NoError <==> s.status == Failed)
    ensures var r, held := Apply(s, c).0, s.status == HoldingStart && c.now < p + 5000;
            var over := s.status == HoldingStart && !held;
            && r.published == s.published && r.last == Some(c.now) && r.pollCount == s.pollCount
            && r.readCount == s.readCount + 1 && r.downCount + r.neutralCount == r.readCount
            && (Apply(s, c).1 == if held then START_BUTTON else 0)
            && (r.downAck.Some? <==> s.downAck.Some? || held)
            && ((r.status, r.error) ==
                if held then (HoldingStart, s.error)
                else if over && s.downAck.None? then (Failed, MissingDownAck)
                else if over || s.status == WaitingNeutralAck then
                  if c.now < p + 10000 then (Succeeded, s.error) else (Failed, MissingNeutralAck)
                else (s.status, s.error))
  {
  }

  lemma {:induction false} ReadStands(s: Snapshot, p: Time, after: seq<Call>, c: Call, count: nat)
    requires Stands(s, p, after, count) && c.Read? && p <= c.now && Steady(after + [c])
    requires count < MAX_TIME && p + 10000 <= MAX_TIME
    ensures Stands(Apply(s, c).0, p, after + [c], count + 1)
    ensures Apply(s, c).1 == if c.now < p + 5000 then START_BUTTON else 0
  {
    LatestIsLast(after, c);
    FactsSnoc(p, after, c);
    FactsOrdered(p, after, c);
    assert after != [] ==> after[|after|-1] in after;
    hide Down, Released, Neutral, Expired, Steady, Apply;
    ReadEffect(s, p, c);
  }

  /** Before the arming nothing happens but counting. */
  ghost predicate Waits(s: Snapshot, before: seq<Call>) {
    && s.status == Idle && s.error == NoError && s.published.None? && s.downAck.None? && s.released.None?
    && s.readCount <= |before| && s.pollCount <= |before| && s.downCount == 0 && s.neutralCount == s.readCount
    && (before == [] ==> s.last.None?) && (before != [] ==> s.last == Some(before[|before|-1].now))
  }

  lemma {:induction false} WaitsOn(s: Snapshot, before: seq<Call>, c: Call)
    requires Waits(s, before) && Ticks(c) && (before != [] ==> before[|before|-1].now <= c.now) && |before| < MAX_TIME
    ensures Waits(Apply(s, c).0, before + [c])
  {
  }

  lemma {:induction false} BeforeArming(before: seq<Call>)
    requires (forall c :: c in before ==> Ticks(c)) && Steady(before) && |before| < MAX_TIME
    ensures Waits(Run(before), before)
  {
    if before != [] {
      var front, c := before[..|before|-1], before[|before|-1];
      assert before == front + [c] && c in before;
      assert forall x :: x in front ==> x in before;
      LatestIsLast(front, c);
      BeforeArming(front);
      assert front != [] ==> front[|front|-1] in front;
      RunSnoc(front, c);
      hide Steady, Waits, Apply, Ticks, Run;
      WaitsOn(Run(front), front, c);
    }
  }

  lemma {:induction false} ArmingStands(before: seq<Call>, p: Time)
    requires Undisturbed(before, p, [])
    ensures Stands(Run(before + [Arm(p)]), p, [], |before| + 1)
  {
    BeforeArming(before);
    assert (before + [Arm(p)])[..|before|] == before;
    assert before != [] ==> before[|before|-1] in before;
    hide Steady;
  }

  lemma {:induction false} UndisturbedFront(before: seq<Call>, p: Time, after: seq<Call>, i: nat)
    requires Undisturbed(before, p, after) && i < |after|
    ensures Undisturbed(before, p, after[..i]) && Steady(after[..i] + [after[i]]) && p <= after[i].now && Ticks(after[i])
    ensures p + 10000 <= MAX_TIME && |before| + 1 + i < MAX_TIME
  {
    assert after[i] in after;
  }

  lemma {:induction false} RunSnoc(calls: seq<Call>, c: Call)
    ensures Run(calls + [c]) == Apply(Run(calls), c).0
  {
    assert (calls + [c])[..|calls|] == calls;
    hide Apply;
  }

  lemma {:induction false} AfterArming(before: seq<Call>, p: Time, after: seq<Call>)
    requires Undisturbed(before, p, after)
    ensures Stands(Run(before + [Arm(p)] + after), p, after, |before| + 1 + |after|)
  {
    hide *;
    if after == [] {
      ArmingStands(before, p);
      assert before + [Arm(p)] + [] == before + [Arm(p)];
    } else {
      var n := |after| - 1;
      var front, c := after[..n], after[n];
      UndisturbedFront(before, p, after, n);
      AfterArming(before, p, front);
      assert before + [Arm(p)] + after == (before + [Arm(p)] + front) + [c];
      RunSnoc(before + [Arm(p)] + front, c);
      assert front + [c] == after;
      TickKinds(c);
      if c.Read? {
        ReadStands(Run(before + [Arm(p)] + front), p, front, c, |before| + 1 + |front|);
      } else {
        PollStands(Run(before + [Arm(p)] + front), p, front, c, |before| + 1 + |front|);
      }
    }
  }

  lemma {:induction false} TickKinds(c: Call)
    ensures Ticks(c) <==> c.Read? || c.Poll?
  {
  }

  /** OUTCOME. An undisturbed press armed at p is held until some call at p+5000 or later. It then fails
      unless some read came before p+5000, succeeds exactly when some read also came in the next five
      seconds, fails once a call came at p+10000 without one, and waits otherwise. */
  lemma {:induction false} PressEndsAs(before: seq<Call>, p: Time, after: seq<Call>)
    requires Undisturbed(before, p, after)
    ensures var s := Run(before + [Arm(p)] + after); (s.status, s.error) == OutcomeOf(p, after)
    ensures Run(before + [Arm(p)] + after).status == Succeeded <==>
            Released(p, after) && Down(p, after) && Neutral(p, after)
  {
    AfterArming(before, p, after);
    hide Run, Down, Released, Neutral, Expired;
  }

  /** BUTTONS. A read of an undisturbed press returns START exactly when its clock is before p+5000. */
  lemma {:induction false} ReadReturns(before: seq<Call>, p: Time, after: seq<Call>, i: nat)
    requires Undisturbed(before, p, after) && i < |after| && after[i].Read?
    ensures Buttons(before + [Arm(p)] + after, |before| + 1 + i) == if after[i].now < p + 5000 then START_BUTTON else 0
  {
    UndisturbedFront(before, p, after, i);
    AfterArming(before, p, after[..i]);
    var all := before + [Arm(p)] + after;
    assert all[..|before| + 1 + i] == before + [Arm(p)] + after[..i];
    assert all[|before| + 1 + i] == after[i];
    hide Run, Apply, Stands, Steady;
    ReadStands(Run(before + [Arm(p)] + after[..i]), p, after[..i], after[i], |before| + 1 + i);
  }

  // --------------------------------------------------------------------- disturbances

  /** The fault of a call by itself: the clock went back, a second or too late arming, a cancellation, an
      explicit failure. Full counters are the remaining one. */
  function FaultOf(s: Snapshot, c: Call): Option<Error> {
    if s.last.Some? && c.now < s.last.value then Some(ClockRollback)
    else
      match c
      case Arm(now) =>
        if s.status != Idle then Some(RepeatedArm) else if now + 10000 > MAX_TIME then Some(DeadlineOverflow) else None
      case Cancel(_) => Some(Cancelled)
      case Fail(_) => Some(ExplicitFailure)
      case Read(_) => if s.readCount == MAX_TIME then Some(CounterOverflow) else None
      case Poll(_) => if s.pollCount == MAX_TIME then Some(CounterOverflow) else None
  }

  /** DISTURBED. A faulty call always leaves the latch failed, with its own fault if it had none, and
      returns no button; the release is stamped with the last good clock. */
  lemma {:induction false} FaultFails(s: Snapshot, c: Call)
    requires FaultOf(s, c).Some?
    ensures var r := Apply(s, c);
            && r.0.status == Failed && r.1 == 0
            && r.0.error == (if s.error == NoError then FaultOf(s, c).value else s.error)
            && (s.status == HoldingStart && s.released.None? ==>
                  r.0.released == Some(if FaultOf(s, c).value == ClockRollback then s.last.value else c.now))
            && (s.status != HoldingStart ==> r.0.released == s.released)
  {
  }

  /** Any other call keeps a latch that had not failed from failing, but for the two missed deadlines. */
  lemma {:induction false} OnlyDeadlinesFail(s: Snapshot, c: Call)
    requires Consistent(s) && s.status != Failed && FaultOf(s, c).None? && Apply(s, c).0.status == Failed
    ensures Ticks(c) && s.published.Some?
    ensures Apply(s, c).0.error ==
            if s.status == HoldingStart && s.downAck.None? then MissingDownAck else MissingNeutralAck
    ensures c.now >= s.published.value + (if s.status == HoldingStart && s.downAck.None? then 5000 else 10000)
  {
    if c.Read? { ReadNeverFull(s, c.now); }
    hide Consistent;
  }

  lemma {:induction false} ReadNeverFull(s: Snapshot, now: Time)
    requires Consistent(s) && Admitted(s, now) && s.readCount < MAX_TIME
    ensures var r := Advanced(Observed(s, now).(readCount := s.readCount + 1), now);
            r.downCount < MAX_TIME && r.neutralCount < MAX_TIME
    ensures s.status == HoldingStart || s.status == WaitingNeutralAck ==> s.published.Some?
  {
    ObservedKeeps(s, now);
    ReadCounted(Observed(s, now), now);
  }
}
