/** The one-shot START latch: one bounded press, acknowledged down and then neutral. */
module AutostartLatch {
  import opened Options

  const MAX_TIME: nat := 0xFFFF_FFFF_FFFF_FFFF
  const START_BUTTON: nat := 0x0010
  const HOLD: nat := 5000
  const NEUTRAL: nat := 5000

  datatype Status = Idle | HoldingStart | WaitingNeutralAck | Succeeded | Failed
  datatype Error =
    | NoError | RepeatedArm | ClockRollback | DeadlineOverflow | MissingDownAck | MissingNeutralAck
    | Cancelled | ExplicitFailure | CounterOverflow

  type Time = n: nat | n <= MAX_TIME

  datatype Snapshot = Snapshot(status: Status, error: Error, last: Option<Time>, published: Option<Time>,
                               released: Option<Time>, downAck: Option<Time>, neutralAck: Option<Time>,
                               readCount: nat, pollCount: nat, downCount: nat, neutralCount: nat)

  const BLANK := Snapshot(Idle, NoError, None, None, None, None, None, 0, 0, 0, 0)

  datatype Call = Arm(now: Time) | Read(now: Time) | Poll(now: Time) | Cancel(now: Time) | Fail(now: Time)

  function Failing(s: Snapshot, error: Error, now: Time): Snapshot {
    s.(status := Failed, error := if s.error == NoError then error else s.error,
       released := if s.status == HoldingStart && s.released.None? then Some(now) else s.released)
  }

  /** A clock before the last one fails the latch at the last one. */
  function Observed(s: Snapshot, now: Time): Snapshot {
    if s.last.Some? && now < s.last.value then Failing(s, ClockRollback, s.last.value) else s.(last := Some(now))
  }

  predicate Admitted(s: Snapshot, now: Time) { s.last.Some? ==> s.last.value <= now }

  /** The deadlines stay anchored to publication, whenever they are first observed. */
  function Advanced(s: Snapshot, now: Time): Snapshot {
    var r :=
      if s.status == HoldingStart && s.published.Some? && now >= s.published.value + HOLD then
        var t := s.(released := Some(now));
        if t.downAck.None? then Failing(t, MissingDownAck, now) else t.(status := WaitingNeutralAck)
      else s;
    if r.status == WaitingNeutralAck && r.published.Some? && now >= r.published.value + HOLD + NEUTRAL
    then Failing(r, MissingNeutralAck, now) else r
  }

  function Armed(s: Snapshot, now: Time): Snapshot {
    if s.status != Idle then Failing(s, RepeatedArm, now)
    else if now > MAX_TIME - HOLD - NEUTRAL then Failing(s, DeadlineOverflow, now)
    else s.(published := Some(now), status := HoldingStart)
  }

  function ReadOf(s: Snapshot, now: Time): (Snapshot, nat) {
    if s.readCount == MAX_TIME then (Failing(s, CounterOverflow, now), 0)
    else
      var r := Advanced(s.(readCount := s.readCount + 1), now);
      if r.status == HoldingStart then
        if r.downCount == MAX_TIME then (Failing(r, CounterOverflow, now), 0)
        else (r.(downCount := r.downCount + 1, downAck := if r.downAck.None? then Some(now) else r.downAck), START_BUTTON)
      else if r.neutralCount == MAX_TIME then (Failing(r, CounterOverflow, now), 0)
      else if r.status == WaitingNeutralAck then
        (r.(neutralCount := r.neutralCount + 1, neutralAck := Some(now), status := Succeeded), 0)
      else (r.(neutralCount := r.neutralCount + 1), 0)
  }

  function Apply(s: Snapshot, c: Call): (Snapshot, nat) {
    var o := Observed(s, c.now);
    if !Admitted(s, c.now) then (o, 0)
    else
      match c
      case Arm(now) => (Armed(o, now), 0)
      case Read(now) => ReadOf(o, now)
      case Poll(now) =>
        if o.pollCount == MAX_TIME then (Failing(o, CounterOverflow, now), 0)
        else (Advanced(o.(pollCount := o.pollCount + 1), now), 0)
      case Cancel(now) => (Failing(o, Cancelled, now), 0)
      case Fail(now) => (Failing(o, ExplicitFailure, now), 0)
  }

  class StartLatch {
    var state: Snapshot

    constructor ()
      ensures state == BLANK
    {
      state := BLANK;
    }

    method SetFailure(error: Error, now: Time)
      modifies this
      ensures state == Failing(old(state), error, now)
    {
      if state.status == HoldingStart && state.released.None? { state := state.(released := Some(now)); }
      if state.error == NoError { state := state.(error := error); }
      state := state.(status := Failed);
    }

    method Observe(now: Time) returns (ok: bool)
      modifies this
      ensures ok == Admitted(old(state), now) && state == Observed(old(state), now)
    {
      if state.last.Some? && now < state.last.value {
        SetFailure(ClockRollback, state.last.value);
        return false;
      }
      state := state.(last := Some(now));
      ok := true;
    }

    method Advance(now: Time)
      modifies this
      ensures state == Advanced(old(state), now)
    {
      if state.status == HoldingStart && state.published.Some? && now >= state.published.value + HOLD {
        state := state.(released := Some(now));
        if state.downAck.None? {
          SetFailure(MissingDownAck, now);
          return;
        }
        state := state.(status := WaitingNeutralAck);
      }
      if state.status == WaitingNeutralAck && state.published.Some? && now >= state.published.value + HOLD + NEUTRAL {
        SetFailure(MissingNeutralAck, now);
      }
    }

    method Arm(now: Time) returns (ok: bool)
      modifies this
      ensures state == Apply(old(state), Call.Arm(now)).0
      ensures ok <==> Admitted(old(state), now) && old(state).status == Idle && now <= MAX_TIME - HOLD - NEUTRAL
    {
      ok := Observe(now);
      if !ok { return; }
      if state.status != Idle {
        SetFailure(RepeatedArm, now);
        return false;
      }
      if now > MAX_TIME - HOLD - NEUTRAL {
        SetFailure(DeadlineOverflow, now);
        return false;
      }
      state := state.(published := Some(now), status := HoldingStart);
    }

    method Read(now: Time) returns (buttons: nat)
      modifies this
      ensures (state, buttons) == Apply(old(state), Call.Read(now))
    {
      hide Failing, Advanced, Observed, Admitted;
      var ok := Observe(now);
      if !ok { return 0; }
      if state.readCount == MAX_TIME {
        SetFailure(CounterOverflow, now);
        return 0;
      }
      state := state.(readCount := state.readCount + 1);
      Advance(now);
      if state.status == HoldingStart {
        if state.downCount == MAX_TIME {
          SetFailure(CounterOverflow, now);
          return 0;
        }
        state := state.(downCount := state.downCount + 1, downAck := if state.downAck.None? then Some(now) else state.downAck);
        return START_BUTTON;
      }
      if state.neutralCount == MAX_TIME {
        SetFailure(CounterOverflow, now);
        return 0;
      }
      state := state.(neutralCount := state.neutralCount + 1);
      if state.status == WaitingNeutralAck {
        state := state.(neutralAck := Some(now), status := Succeeded);
      }
      buttons := 0;
    }

    method Poll(now: Time)
      modifies this
      ensures state == Apply(old(state), Call.Poll(now)).0
    {
      var ok := Observe(now);
      if !ok { return; }
      if state.pollCount == MAX_TIME {
        SetFailure(CounterOverflow, now);
        return;
      }
      state := state.(pollCount := state.pollCount + 1);
      Advance(now);
    }

    method Cancel(now: Time)
      modifies this
      ensures state == Apply(old(state), Call.Cancel(now)).0
    {
      var ok := Observe(now);
      if ok { SetFailure(Cancelled, now); }
    }

    method Fail(now: Time)
      modifies this
      ensures state == Apply(old(state), Call.Fail(now)).0
    {
      var ok := Observe(now);
      if ok { SetFailure(ExplicitFailure, now); }
    }
  }

  // ------------------------------------------------------------------- whole histories

  function Run(calls: seq<Call>): Snapshot {
    if calls == [] then BLANK else Apply(Run(calls[..|calls|-1]), calls[|calls|-1]).0
  }

  /** The buttons the i-th call returned. */
  function Buttons(calls: seq<Call>, i: nat): nat
    requires i < |calls|
  {
    Apply(Run(calls[..i]), calls[i]).1
  }

  /** Everything the latch keeps true between calls. */
  ghost predicate Consistent(s: Snapshot) {
    && s.downCount + s.neutralCount == s.readCount <= MAX_TIME && s.pollCount <= MAX_TIME
    && (s.status == Idle ==> s == Snapshot(Idle, NoError, s.last, None, None, None, None, s.readCount, s.pollCount, 0, s.neutralCount))
    && (s.status == Failed <==> s.error != NoError)
    && (s.published.Some? ==> s.last.Some? && s.published.value <= s.last.value && s.published.value + HOLD + NEUTRAL <= MAX_TIME)
    && (s.downAck.Some? ==> s.published.Some? && s.published.value <= s.downAck.value < s.published.value + HOLD &&
                            s.downAck.value <= s.last.value)
    && (s.downCount > 0 <==> s.downAck.Some?)
    && (s.status == HoldingStart ==> s.published.Some? && s.released.None? && s.neutralAck.None?)
    && (s.status == WaitingNeutralAck ==>
          s.downAck.Some? && s.released.Some? && s.released.value >= s.published.value + HOLD &&
          s.released.value <= s.last.value && s.neutralAck.None?)
    && (s.status == Succeeded ==> Acknowledged(s))
  }

  /** The whole protocol, in clock order and inside both windows. */
  predicate Acknowledged(s: Snapshot) {
    s.published.Some? && s.downAck.Some? && s.released.Some? && s.neutralAck.Some? &&
    s.published.value <= s.downAck.value < s.published.value + HOLD <= s.released.value <= s.neutralAck.value <
    s.published.value + HOLD + NEUTRAL
  }

  lemma {:induction false} FailingKeeps(s: Snapshot, error: Error, now: Time)
    requires Consistent(s) && error != NoError && s.last.Some?
    ensures Consistent(Failing(s, error, now))
  {
  }

  lemma {:induction false} ObservedKeeps(s: Snapshot, now: Time)
    requires Consistent(s)
    ensures Consistent(Observed(s, now)) && Observed(s, now).last.Some?
  {
    if !Admitted(s, now) { FailingKeeps(s, ClockRollback, s.last.value); }
  }

  lemma {:induction false} AdvancedKeeps(s: Snapshot, now: Time)
    requires Consistent(s) && s.last == Some(now)
    ensures Consistent(Advanced(s, now)) && Advanced(s, now).last == s.last && Advanced(s, now).readCount == s.readCount
    ensures var r := Advanced(s, now);
            r.downCount == s.downCount && r.neutralCount == s.neutralCount &&
            (r.status == HoldingStart ==> r == s && now < s.published.value + HOLD) &&
            (r.status == WaitingNeutralAck ==> now < r.published.value + HOLD + NEUTRAL)
  {
  }

  lemma {:induction false} ReadKeeps(s: Snapshot, now: Time)
    requires Consistent(s) && s.last == Some(now)
    ensures Consistent(ReadOf(s, now).0)
  {
    if s.readCount < MAX_TIME { ReadCounted(s, now); } else { FailingKeeps(s, CounterOverflow, now); }
  }

  /** Between counting a read and classifying it, one read is still to be classified, so neither
      inner counter can be full. */
  lemma {:induction false} ReadCounted(s: Snapshot, now: Time)
    requires Consistent(s) && s.last == Some(now) && s.readCount < MAX_TIME
    ensures var r := Advanced(s.(readCount := s.readCount + 1), now); r.downCount < MAX_TIME && r.neutralCount < MAX_TIME
    ensures Consistent(ReadOf(s, now).0)
  {
    AdvancedKeeps(s, now);
    CountCommutes(s, now);
  }

  lemma {:induction false} CountCommutes(s: Snapshot, now: Time)
    ensures Advanced(s.(readCount := s.readCount + 1), now) == Advanced(s, now).(readCount := s.readCount + 1)
  {
  }

  lemma {:induction false} ApplyKeeps(s: Snapshot, c: Call)
    requires Consistent(s)
    ensures Consistent(Apply(s, c).0)
  {
    ObservedKeeps(s, c.now);
    var o := Observed(s, c.now);
    if Admitted(s, c.now) {
      hide Consistent, Failing, Advanced, ReadOf;
      match c
      case Arm(now) => ArmedKeeps(o, now);
      case Read(now) => ReadKeeps(o, now);
      case Poll(now) => PollKeeps(o, now);
      case Cancel(now) => FailingKeeps(o, Cancelled, now);
      case Fail(now) => FailingKeeps(o, ExplicitFailure, now);
    }
  }

  lemma {:induction false} ArmedKeeps(s: Snapshot, now: Time)
    requires Consistent(s) && s.last == Some(now)
    ensures Consistent(Armed(s, now))
  {
  }

  lemma {:induction false} PollKeeps(s: Snapshot, now: Time)
    requires Consistent(s) && s.last == Some(now)
    ensures s.pollCount == MAX_TIME ==> Consistent(Failing(s, CounterOverflow, now))
    ensures s.pollCount < MAX_TIME ==> Consistent(Advanced(s.(pollCount := s.pollCount + 1), now))
  {
    if s.pollCount < MAX_TIME {
      AdvancedKeeps(s.(pollCount := s.pollCount + 1), now);
    } else {
      FailingKeeps(s, CounterOverflow, now);
    }
    hide Advanced, Failing;
  }

  lemma {:induction false} AlwaysConsistent(calls: seq<Call>)
    ensures Consistent(Run(calls))
  {
    if calls != [] {
      AlwaysConsistent(calls[..|calls|-1]);
      ApplyKeeps(Run(calls[..|calls|-1]), calls[|calls|-1]);
    }
    hide Apply, Consistent;
  }

  /** BOUNDED PRESS. START is returned only at a clock in [published, published + 5000), every read is
      counted once as down or neutral, and success means the whole acknowledged protocol. */
  lemma {:induction false} PressIsBounded(calls: seq<Call>, i: nat)
    requires i < |calls|
    ensures Buttons(calls, i) != 0 ==>
              Buttons(calls, i) == START_BUTTON && calls[i].Read? &&
              var s := Run(calls[..i+1]);
              s.published.Some? && s.published.value <= calls[i].now < s.published.value + HOLD
    ensures Run(calls).downCount + Run(calls).neutralCount == Run(calls).readCount
    ensures Run(calls).status == Succeeded ==> Acknowledged(Run(calls))
  {
    AlwaysConsistent(calls[..i]);
    AlwaysConsistent(calls);
    assert calls[..i+1][..i] == calls[..i];
    var s, c := Run(calls[..i]), calls[i];
    assert Run(calls[..i+1]) == Apply(s, c).0;
    hide Run;
    StartInWindow(s, c);
    hide Apply, Consistent;
  }

  lemma {:induction false} StartInWindow(s: Snapshot, c: Call)
    requires Consistent(s)
    ensures Apply(s, c).1 != 0 ==>
              Apply(s, c).1 == START_BUTTON && c.Read? && Apply(s, c).0.status == HoldingStart &&
              Apply(s, c).0.published.Some? &&
              Apply(s, c).0.published.value <= c.now < Apply(s, c).0.published.value + HOLD
    ensures Consistent(Apply(s, c).0)
  {
    ApplyKeeps(s, c);
    ObservedKeeps(s, c.now);
    if Admitted(s, c.now) && c.Read? {
      AdvancedKeeps(Observed(s, c.now), c.now);
      CountCommutes(Observed(s, c.now), c.now);
    }
    hide Consistent, Advanced;
  }

  /** How far the one press has got. */
  function Rank(s: Status): nat {
    match s case Idle => 0 case HoldingStart => 1 case WaitingNeutralAck => 2 case Succeeded => 3 case Failed => 4
  }

  lemma {:induction false} RankRises(s: Snapshot, c: Call)
    ensures Rank(s.status) <= Rank(Apply(s, c).0.status)
    ensures s.status == Failed ==> Apply(s, c).0.error == s.error || s.error == NoError
    ensures Apply(s, c).1 != 0 ==> Rank(Apply(s, c).0.status) == 1
  {
  }

  lemma {:induction false} RankGrows(calls: seq<Call>, i: nat)
    requires i <= |calls|
    ensures Rank(Run(calls[..i]).status) <= Rank(Run(calls).status)
    ensures Run(calls[..i]).status == Failed ==> Run(calls).status == Failed && Run(calls).error == Run(calls[..i]).error
  {
    if i == |calls| {
      assert calls[..i] == calls;
    } else {
      var front := calls[..|calls|-1];
      assert front[..i] == calls[..i];
      RankGrows(front, i);
      RankRises(Run(front), calls[|calls|-1]);
      AlwaysConsistent(front);
      hide Apply;
    }
  }

  /** ONE PRESS. Between two reads that return START every read returns START, and a failure is
      permanent and keeps its first error. */
  lemma {:induction false} PressIsContiguous(calls: seq<Call>, i: nat, j: nat, k: nat)
    requires i < j < k < |calls| && calls[j].Read?
    requires Buttons(calls, i) != 0 && Buttons(calls, k) != 0
    ensures Buttons(calls, j) == START_BUTTON
  {
    hide *;
    RunStep(calls, i);
    RunStep(calls, j);
    RunStep(calls, k);
    RankBetween(calls, i + 1, j);
    RankBetween(calls, j, j + 1);
    RankBetween(calls, j + 1, k + 1);
    OnlyHolding(Run(calls[..j]).status);
    OnlyHolding(Run(calls[..j+1]).status);
    AlwaysConsistent(calls[..j]);
    HoldingReads(Run(calls[..j]), calls[j]);
  }

  lemma {:induction false} RunStep(calls: seq<Call>, i: nat)
    requires i < |calls|
    ensures Run(calls[..i+1]) == Apply(Run(calls[..i]), calls[i]).0 && Buttons(calls, i) == Apply(Run(calls[..i]), calls[i]).1
    ensures Buttons(calls, i) != 0 ==> Rank(Run(calls[..i+1]).status) == 1
  {
    assert calls[..i+1][..i] == calls[..i];
    RankRises(Run(calls[..i]), calls[i]);
    hide Apply;
  }

  lemma {:induction false} RankBetween(calls: seq<Call>, a: nat, b: nat)
    requires a <= b <= |calls|
    ensures Rank(Run(calls[..a]).status) <= Rank(Run(calls[..b]).status)
  {
    RankGrows(calls[..b], a);
    assert calls[..b][..a] == calls[..a];
    hide Run;
  }

  lemma {:induction false} OnlyHolding(s: Status)
    ensures Rank(s) == 1 ==> s == HoldingStart
  {
  }

  lemma {:induction false} HoldingReads(s: Snapshot, c: Call)
    requires Consistent(s) && c.Read? && s.status == HoldingStart && Apply(s, c).0.status == HoldingStart
    ensures Apply(s, c).1 == START_BUTTON
  {
  }
}
