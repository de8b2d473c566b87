/** The three-publication checkout journal: its event state machine, the binding of samples to it,
    and the sequential fixture model replayed after both. */
module ContentQueue {
  import opened Options
  import opened FixtureIdentity
  import opened FixtureSession

  const PUBLICATIONS: nat := 3
  const MAX_POLLS: nat := 1000

  datatype Kind = Create | Arm | Ack | Null | Checkout | Read | Release | Close
  datatype Owner = Owner(process: nat, birth: nat, window: nat)
  datatype Event = Event(kind: Kind, tick: nat, slot: nat, checkout: nat, session: nat, pool: nat, owner: Owner)

  // ------------------------------------------------------- the order of kinds, by itself

  /** What the state machine reads of an event. */
  datatype Label = Label(kind: Kind, slot: nat, checkout: nat)
  function LabelOf(ev: Event): Label { Label(ev.kind, ev.slot, ev.checkout) }

  datatype Phase = ToCreate | ToArm | ToAck | ToPoll | ToRead | ToRelease | ToClose | Finished

  /** `nulls` remembers how many empty polls each finished slot took. */
  datatype Place = Place(slot: nat, phase: Phase, polls: nat, nulls: seq<nat>)

  const START := Place(0, ToCreate, 0, [])

  function Move(p: Place, x: Label): Option<Place> {
    if x.slot != p.slot then None
    else
      match p.phase
      case ToCreate => if x.kind.Create? && x.checkout == 0 then Some(p.(phase := ToArm)) else None
      case ToArm => if x.kind.Arm? && x.checkout == 0 then Some(p.(phase := ToAck, polls := 0)) else None
      case ToAck => if x.kind.Ack? && x.checkout == 0 then Some(p.(phase := ToPoll)) else None
      case ToPoll =>
        if p.polls + 1 > MAX_POLLS then None
        else if x.kind.Null? && x.checkout == 0 then Some(p.(polls := p.polls + 1))
        else if x.kind.Checkout? && x.checkout == p.slot + 1 then Some(p.(polls := p.polls + 1, phase := ToRead))
        else None
      case ToRead => if x.kind.Read? && x.checkout == p.slot + 1 then Some(p.(phase := ToRelease)) else None
      case ToRelease =>
        if x.kind.Release? && x.checkout == p.slot + 1
        then Some(Place(p.slot + 1, if p.slot + 1 == PUBLICATIONS then ToClose else ToArm, p.polls, p.nulls + [Previous(p.polls)]))
        else None
      case ToClose => if x.kind.Close? && x.checkout == 0 then Some(p.(phase := Finished)) else None
      case Finished => None
  }

  function Previous(n: nat): nat { if n == 0 then 0 else n - 1 }

  function Walk(labels: seq<Label>): Option<Place> {
    if labels == [] then Some(START)
    else
      var p := Walk(labels[..|labels|-1]);
      if p.None? then None else Move(p.value, labels[|labels|-1])
  }

  function Nulls(slot: nat, n: nat): seq<Label> {
    if n == 0 then [] else Nulls(slot, n - 1) + [Label(Null, slot, 0)]
  }

  /** One slot: arm, acknowledge, n empty polls, then check out, read and release its frame. */
  function SlotScript(slot: nat, n: nat): seq<Label> {
    [Label(Arm, slot, 0), Label(Ack, slot, 0)] + Nulls(slot, n) +
    [Label(Checkout, slot, slot + 1), Label(Read, slot, slot + 1), Label(Release, slot, slot + 1)]
  }

  function Slots(nulls: seq<nat>): seq<Label> {
    if nulls == [] then [] else Slots(nulls[..|nulls|-1]) + SlotScript(|nulls| - 1, nulls[|nulls|-1])
  }

  /** A complete journal: create, three slots, close. */
  function Script(nulls: seq<nat>): seq<Label> {
    [Label(Create, 0, 0)] + Slots(nulls) + [Label(Close, PUBLICATIONS, 0)]
  }

  ghost predicate Reachable(p: Place) {
    && |p.nulls| == p.slot && (forall n :: n in p.nulls ==> n < MAX_POLLS)
    && match p.phase
       case ToCreate => p == START
       case ToArm => p.slot < PUBLICATIONS && p.polls == LastPolls(p.nulls)
       case ToAck => p.slot < PUBLICATIONS && p.polls == 0
       case ToPoll => p.slot < PUBLICATIONS && p.polls <= MAX_POLLS
       case ToRead => p.slot < PUBLICATIONS && 1 <= p.polls <= MAX_POLLS
       case ToRelease => p.slot < PUBLICATIONS && 1 <= p.polls <= MAX_POLLS
       case ToClose => p.slot == PUBLICATIONS && p.polls == LastPolls(p.nulls)
       case Finished => p.slot == PUBLICATIONS && p.polls == LastPolls(p.nulls)
  }

  function LastPolls(nulls: seq<nat>): nat { if nulls == [] then 0 else nulls[|nulls|-1] + 1 }

  /** The only labels that lead to a place. */
  function Trail(p: Place): seq<Label> {
    var done := [Label(Create, 0, 0)] + Slots(p.nulls);
    var armed, acked := Label(Arm, p.slot, 0), Label(Ack, p.slot, 0);
    var out, read := Label(Checkout, p.slot, p.slot + 1), Label(Read, p.slot, p.slot + 1);
    match p.phase
    case ToCreate => []
    case ToArm => done
    case ToAck => done + [armed]
    case ToPoll => done + [armed, acked] + Nulls(p.slot, p.polls)
    case ToRead => done + [armed, acked] + Nulls(p.slot, Previous(p.polls)) + [out]
    case ToRelease => done + [armed, acked] + Nulls(p.slot, Previous(p.polls)) + [out, read]
    case ToClose => done
    case Finished => done + [Label(Close, PUBLICATIONS, 0)]
  }

  lemma {:induction false} SlotsSnoc(nulls: seq<nat>, n: nat)
    ensures Slots(nulls + [n]) == Slots(nulls) + SlotScript(|nulls|, n)
  {
    assert (nulls + [n])[..|nulls|] == nulls;
  }

  lemma {:induction false} MoveReachable(p: Place, x: Label)
    requires Reachable(p) && Move(p, x).Some?
    ensures Reachable(Move(p, x).value)
  {
  }

  lemma {:induction false} PollTrail(p: Place, x: Label)
    requires Reachable(p) && Move(p, x).Some? && p.phase.ToPoll?
    ensures Trail(Move(p, x).value) == Trail(p) + [x]
  {
    hide Slots;
  }

  lemma {:induction false} ReleaseTrail(p: Place, x: Label)
    requires Reachable(p) && Move(p, x).Some? && p.phase.ToRelease?
    ensures Trail(Move(p, x).value) == Trail(p) + [x]
  {
    var n := Previous(p.polls);
    SlotsSnoc(p.nulls, n);
    hide Slots, Nulls;
    assert Move(p, x).value.nulls == p.nulls + [n];
    assert Trail(Move(p, x).value) == [Label(Create, 0, 0)] + (Slots(p.nulls) + SlotScript(p.slot, n));
    assert SlotScript(p.slot, n) ==
      [Label(Arm, p.slot, 0), Label(Ack, p.slot, 0)] + Nulls(p.slot, n) +
      [Label(Checkout, p.slot, p.slot + 1), Label(Read, p.slot, p.slot + 1)] + [x];
  }

  /** The moves that neither poll nor release. */
  lemma {:induction false} PlainMove(p: Place, x: Label)
    requires Reachable(p) && Move(p, x).Some? && !p.phase.ToPoll? && !p.phase.ToRelease?
    ensures var q := Move(p, x).value;
            q.slot == p.slot && q.nulls == p.nulls && x.slot == p.slot &&
            match p.phase
            case ToCreate => p == START && q.phase.ToArm? && x == Label(Create, 0, 0)
            case ToArm => q.phase.ToAck? && x == Label(Arm, p.slot, 0)
            case ToAck => p.polls == q.polls == 0 && q.phase.ToPoll? && x == Label(Ack, p.slot, 0)
            case ToRead => q.polls == p.polls && q.phase.ToRelease? && x == Label(Read, p.slot, p.slot + 1)
            case _ => p.phase.ToClose? && q.phase.Finished? && x == Label(Close, PUBLICATIONS, 0)
  {
  }

  lemma {:induction false} OtherTrail(p: Place, x: Label)
    requires Reachable(p) && Move(p, x).Some? && !p.phase.ToPoll? && !p.phase.ToRelease?
    ensures Trail(Move(p, x).value) == Trail(p) + [x]
  {
    PlainMove(p, x);
    assert Slots([]) == [] && Nulls(p.slot, 0) == [];
    hide Slots, Nulls, Move, Reachable;
  }

  lemma {:induction false} MoveTrail(p: Place, x: Label)
    requires Reachable(p) && Move(p, x).Some?
    ensures Reachable(Move(p, x).value) && Trail(Move(p, x).value) == Trail(p) + [x]
  {
    MoveReachable(p, x);
    hide Trail, Move, Reachable;
    if p.phase.ToPoll? { PollTrail(p, x); }
    else if p.phase.ToRelease? { ReleaseTrail(p, x); }
    else { OtherTrail(p, x); }
  }

  lemma {:induction false} WalkTrail(labels: seq<Label>)
    requires Walk(labels).Some?
    ensures Reachable(Walk(labels).value) && Trail(Walk(labels).value) == labels
  {
    if labels != [] {
      var front, x := labels[..|labels|-1], labels[|labels|-1];
      WalkTrail(front);
      MoveTrail(Walk(front).value, x);
      assert labels == front + [x];
    }
  }

  /** The place before, and the label between. */
  lemma {:induction false} Before(p: Place) returns (q: Place, x: Label)
    requires Reachable(p) && !p.phase.ToCreate?
    ensures Reachable(q) && Move(q, x) == Some(p)
  {
    match p.phase
    case ToCreate =>
    case ToArm =>
      if p.slot == 0 {
        q, x := START, Label(Create, 0, 0);
      } else {
        q, x := BeforeRelease(p);
      }
    case ToAck => q, x := p.(phase := ToArm, polls := LastPolls(p.nulls)), Label(Arm, p.slot, 0);
    case ToPoll =>
      if p.polls == 0 {
        q, x := p.(phase := ToAck), Label(Ack, p.slot, 0);
      } else {
        q, x := p.(polls := p.polls - 1), Label(Null, p.slot, 0);
      }
    case ToRead => q, x := p.(phase := ToPoll, polls := p.polls - 1), Label(Checkout, p.slot, p.slot + 1);
    case ToRelease => q, x := p.(phase := ToRead), Label(Read, p.slot, p.slot + 1);
    case ToClose => q, x := BeforeRelease(p);
    case Finished => q, x := p.(phase := ToClose), Label(Close, p.slot, 0);
  }

  lemma {:induction false} BeforeRelease(p: Place) returns (q: Place, x: Label)
    requires Reachable(p) && p.slot > 0 && (p.phase.ToArm? || p.phase.ToClose?)
    ensures Reachable(q) && Move(q, x) == Some(p)
  {
    var front, n := p.nulls[..p.slot-1], p.nulls[p.slot-1];
    assert p.nulls == front + [n] && n in p.nulls;
    assert forall m :: m in front ==> m in p.nulls;
    hide Trail;
    q, x := Place(p.slot - 1, ToRelease, n + 1, front), Label(Release, p.slot - 1, p.slot);
  }

  lemma {:induction false} WalkSnoc(labels: seq<Label>, x: Label)
    ensures Walk(labels + [x]) == if Walk(labels).None? then None else Move(Walk(labels).value, x)
  {
    assert (labels + [x])[..|labels|] == labels;
  }

  lemma {:induction false} TrailWalks(p: Place)
    requires Reachable(p)
    ensures Walk(Trail(p)) == Some(p)
    decreases |Trail(p)|
  {
    if !p.phase.ToCreate? {
      var q, x := Before(p);
      MoveTrail(q, x);
      hide Trail, Walk, Move, Reachable;
      TrailWalks(q);
      WalkSnoc(Trail(q), x);
    }
  }

  ghost predicate Budgeted(nulls: seq<nat>) {
    |nulls| == PUBLICATIONS && forall n :: n in nulls ==> n < MAX_POLLS
  }

  /** The state machine finishes on exactly the complete scripts within the poll budget. */
  lemma {:induction false} FinishedExactly(labels: seq<Label>)
    ensures Walk(labels).Some? && Walk(labels).value.phase.Finished? <==>
            exists nulls :: Budgeted(nulls) && labels == Script(nulls)
  {
    if Walk(labels).Some? && Walk(labels).value.phase.Finished? {
      WalkTrail(labels);
      assert Budgeted(Walk(labels).value.nulls) && labels == Script(Walk(labels).value.nulls);
    }
    forall nulls | Budgeted(nulls) && labels == Script(nulls)
      ensures Walk(labels).Some? && Walk(labels).value.phase.Finished?
    {
      TrailWalks(Place(PUBLICATIONS, Finished, LastPolls(nulls), nulls));
    }
  }

  // --------------------------------------------------------------------- the whole journal

  datatype Record = Record(arm: nat, ack: nat, checkout: nat, read: nat, release: nat)
  const NO_RECORD := Record(0, 0, 0, 0, 0)

  datatype State = State(place: Place, records: seq<Record>, current: Record, tick: nat)

  const BEGIN := State(START, [], NO_RECORD, 0)

  predicate Named(first: Event) {
    1 <= first.session <= U64 && 1 <= first.pool <= U64 &&
    1 <= first.owner.process <= U64 && 1 <= first.owner.birth <= U64 && 1 <= first.owner.window <= U64
  }

  /** The same resources and owner throughout, and strictly later than the event before. */
  predicate Follows(first: Event, tick: nat, ev: Event) {
    tick < ev.tick <= U64 && ev.session == first.session && ev.pool == first.pool && ev.owner == first.owner
  }

  function Noted(s: State, ev: Event): (seq<Record>, Record) {
    match s.place.phase
    case ToArm => (s.records, NO_RECORD.(arm := ev.tick))
    case ToAck => (s.records, s.current.(ack := ev.tick))
    case ToPoll => (s.records, if ev.kind.Checkout? then s.current.(checkout := ev.tick) else s.current)
    case ToRead => (s.records, s.current.(read := ev.tick))
    case ToRelease =>
      var whole := s.current.(release := ev.tick);
      (s.records + [whole], whole)
    case _ => (s.records, s.current)
  }

  function Step(first: Event, s: State, ev: Event): Option<State> {
    var place := Move(s.place, LabelOf(ev));
    if !Follows(first, s.tick, ev) || place.None? then None
    else Some(State(place.value, Noted(s, ev).0, Noted(s, ev).1, ev.tick))
  }

  function Run(first: Event, events: seq<Event>): Option<State> {
    if events == [] then Some(BEGIN)
    else
      var s := Run(first, events[..|events|-1]);
      if s.None? then None else Step(first, s.value, events[|events|-1])
  }

  /** The journal's records when it is accepted. */
  function JournalOf(events: seq<Event>): Option<seq<Record>> {
    if |events| < 17 || |events| > 17 + 3 * MAX_POLLS || !Named(events[0]) then None
    else
      var s := Run(events[0], events);
      if s.None? || !s.value.place.phase.Finished? then None else Some(s.value.records)
  }

  lemma {:induction false} RunFails(first: Event, events: seq<Event>, i: nat)
    requires i <= |events| && Run(first, events[..i]).None?
    ensures Run(first, events).None?
  {
    if i == |events| {
      assert events[..i] == events;
    } else {
      assert events[..|events|-1][..i] == events[..i];
      RunFails(first, events[..|events|-1], i);
    }
  }

  lemma {:induction false} RunSnoc(first: Event, events: seq<Event>, i: nat)
    requires i < |events|
    ensures Run(first, events[..i+1]) ==
            if Run(first, events[..i]).None? then None else Step(first, Run(first, events[..i]).value, events[i])
  {
    assert events[..i+1][..i] == events[..i];
  }

  /** One event of the journal loop, on the loop's own variables. */
  method Advance(slot: nat, state: Phase, polls: nat, records: seq<Record>, current: Record, ghost s: State,
                 ghost first: Event, ev: Event)
    returns (ok: bool, slot2: nat, state2: Phase, polls2: nat, records2: seq<Record>, current2: Record)
    requires s.place.slot == slot && s.place.phase == state && s.place.polls == polls
    requires s.records == records && s.current == current && Follows(first, s.tick, ev)
    ensures ok <==> Step(first, s, ev).Some?
    ensures ok ==>
              var t := Step(first, s, ev).value;
              t.place.slot == slot2 && t.place.phase == state2 && t.place.polls == polls2 &&
              t.records == records2 && t.current == current2 && t.tick == ev.tick
  {
    hide Follows;
    slot2, state2, polls2, records2, current2, ok := slot, state, polls, records, current, true;
    if ev.slot != slot { return false, slot2, state2, polls2, records2, current2; }
    match state
    case ToCreate =>
      ok := ev.kind.Create? && ev.checkout == 0;
      state2 := ToArm;
    case ToArm =>
      ok := ev.kind.Arm? && ev.checkout == 0;
      current2, polls2, state2 := NO_RECORD.(arm := ev.tick), 0, ToAck;
    case ToAck =>
      ok := ev.kind.Ack? && ev.checkout == 0;
      current2, state2 := current2.(ack := ev.tick), ToPoll;
    case ToPoll =>
      polls2 := polls2 + 1;
      ok := (ev.kind.Null? || ev.kind.Checkout?) && polls2 <= MAX_POLLS;
      if ev.kind.Null? {
        ok := ok && ev.checkout == 0;
      } else {
        ok := ok && ev.checkout == slot + 1;
        current2, state2 := current2.(checkout := ev.tick), ToRead;
      }
    case ToRead =>
      ok := ev.kind.Read? && ev.checkout == slot + 1;
      current2, state2 := current2.(read := ev.tick), ToRelease;
    case ToRelease =>
      ok := ev.kind.Release? && ev.checkout == slot + 1;
      current2 := current2.(release := ev.tick);
      records2 := records2 + [current2];
      slot2 := slot2 + 1;
      state2 := if slot2 == PUBLICATIONS then ToClose else ToArm;
    case ToClose =>
      ok := ev.kind.Close? && ev.checkout == 0;
      state2 := Finished;
    case Finished =>
      ok := false;
  }

  /** The journal loop. */
  method ValidateJournal(events: seq<Event>) returns (ok: bool, records: seq<Record>)
    ensures JournalOf(events) == if ok then Some(records) else None
  {
    if |events| < 17 || |events| > 17 + 3 * MAX_POLLS || !Named(events[0]) { return false, []; }
    var first := events[0];
    var slot: nat, state, polls: nat, current := 0, ToCreate, 0, NO_RECORD;
    var previous: nat := 0;
    records, ok := [], true;
    ghost var s := BEGIN;
    for i := 0 to |events|
      invariant Run(first, events[..i]) == Some(s)
      invariant s.place.slot == slot && s.place.phase == state && s.place.polls == polls
      invariant s.records == records && s.current == current && s.tick == previous
    {
      hide Run, Step, Named;
      var ev := events[i];
      RunSnoc(first, events, i);
      if Step(first, s, ev).None? { RunFails(first, events, i + 1); }
      StepFollows(first, s, ev);
      if !Follows(first, previous, ev) { return false, []; }
      ok, slot, state, polls, records, current := Advance(slot, state, polls, records, current, s, first, ev);
      if !ok { return false, []; }
      previous := ev.tick;
      s := Step(first, s, ev).value;
    }
    assert events[..|events|] == events;
    ok := state.Finished?;
    if !ok { records := []; }
  }

  lemma {:induction false} StepFollows(first: Event, s: State, ev: Event)
    ensures Step(first, s, ev).Some? ==> Follows(first, s.tick, ev)
  {
  }

  // ----------------------------------------------------------- what an accepted journal is

  function Labels(events: seq<Event>): seq<Label> {
    if events == [] then [] else Labels(events[..|events|-1]) + [LabelOf(events[|events|-1])]
  }

  /** Positive, strictly increasing ticks over one session, pool and owner. */
  ghost predicate Continuous(first: Event, events: seq<Event>) {
    && (forall i :: 0 <= i < |events| ==>
          1 <= events[i].tick <= U64 && events[i].session == first.session && events[i].pool == first.pool &&
          events[i].owner == first.owner)
    && (forall i, k :: 0 <= i < k < |events| ==> events[i].tick < events[k].tick)
  }

  lemma {:induction false} RunExactly(first: Event, events: seq<Event>)
    ensures Run(first, events).Some? <==> Walk(Labels(events)).Some? && Continuous(first, events)
    ensures Run(first, events).Some? ==>
              Run(first, events).value.place == Walk(Labels(events)).value &&
              Run(first, events).value.tick == (if events == [] then 0 else events[|events|-1].tick)
  {
    if events == [] {
      assert Labels([]) == [] && Walk([]) == Some(START);
    } else {
      RunExactly(first, events[..|events|-1]);
      RunExactlyNext(first, events);
    }
    hide *;
  }

  lemma {:induction false} RunExactlyNext(first: Event, events: seq<Event>)
    requires events != []
    requires var front := events[..|events|-1];
             (Run(first, front).Some? <==> Walk(Labels(front)).Some? && Continuous(first, front)) &&
             (Run(first, front).Some? ==>
               Run(first, front).value.place == Walk(Labels(front)).value &&
               Run(first, front).value.tick == if front == [] then 0 else front[|front|-1].tick)
    ensures Run(first, events).Some? <==> Walk(Labels(events)).Some? && Continuous(first, events)
    ensures Run(first, events).Some? ==>
              Run(first, events).value.place == Walk(Labels(events)).value &&
              Run(first, events).value.tick == events[|events|-1].tick
  {
    var front, ev := events[..|events|-1], events[|events|-1];
    WalkSnoc(Labels(front), LabelOf(ev));
    ContinuousSnoc(first, events);
    RunSnoc(first, events, |front|);
    assert events[..|front|+1] == events;
    assert front != [] ==> front[|front|-1] == events[|events|-2];
    hide Run, Walk, Move, Continuous, Follows, Noted;
  }

  lemma {:induction false} ContinuousSnoc(first: Event, events: seq<Event>)
    requires events != []
    ensures Continuous(first, events) <==>
            Continuous(first, events[..|events|-1]) &&
            Follows(first, if |events| == 1 then 0 else events[|events|-2].tick, events[|events|-1])
  {
    var front, ev := events[..|events|-1], events[|events|-1];
    if Continuous(first, front) && Follows(first, if |events| == 1 then 0 else events[|events|-2].tick, ev) {
      forall i, k | 0 <= i < k < |events| ensures events[i].tick < events[k].tick {
        assert i < |front| - 1 ==> front[i].tick < front[|front|-1].tick;
        assert k < |front| ==> front[i].tick < front[k].tick;
      }
    }
    assert forall i :: 0 <= i < |front| ==> front[i] == events[i];
  }

  lemma {:induction false} LabelsAt(events: seq<Event>)
    ensures |Labels(events)| == |events|
  {
    if events != [] { LabelsAt(events[..|events|-1]); }
  }

  lemma {:induction false} NullsLength(slot: nat, n: nat)
    ensures |Nulls(slot, n)| == n
  {
    if n > 0 { NullsLength(slot, n - 1); }
  }

  lemma {:induction false} ScriptLength(nulls: seq<nat>)
    requires Budgeted(nulls)
    ensures 17 <= |Script(nulls)| <= 17 + 3 * MAX_POLLS
  {
    assert nulls == [nulls[0], nulls[1], nulls[2]];
    SlotsSnoc([], nulls[0]);
    SlotsSnoc([nulls[0]], nulls[1]);
    SlotsSnoc([nulls[0], nulls[1]], nulls[2]);
    assert [] + [nulls[0]] == [nulls[0]] && [nulls[0]] + [nulls[1]] == [nulls[0], nulls[1]];
    assert [nulls[0], nulls[1]] + [nulls[2]] == nulls;
    NullsLength(0, nulls[0]);
    NullsLength(1, nulls[1]);
    NullsLength(2, nulls[2]);
    assert nulls[0] in nulls && nulls[1] in nulls && nulls[2] in nulls;
  }

  /** JOURNAL. Accepted exactly when it is create, three slots of arm, acknowledgement, at most 999
      empty polls, checkout, read and release, then close, over one owner and rising ticks. */
  lemma {:induction false} JournalExactly(events: seq<Event>)
    ensures JournalOf(events).Some? <==>
            events != [] && Named(events[0]) && Continuous(events[0], events) &&
            exists nulls :: Budgeted(nulls) && Labels(events) == Script(nulls)
  {
    LabelsAt(events);
    FinishedExactly(Labels(events));
    if events != [] { RunExactly(events[0], events); }
    forall nulls | Budgeted(nulls) && Labels(events) == Script(nulls) ensures 17 <= |events| <= 17 + 3 * MAX_POLLS {
      ScriptLength(nulls);
    }
    hide Run, Walk, Labels, Script, Budgeted, Continuous, Named;
  }

  // -------------------------------------------------------------- the records are in order

  predicate Whole(r: Record) { r.arm < r.ack < r.checkout < r.read < r.release }

  ghost predicate InOrder(s: State) {
    && |s.records| == s.place.slot
    && (forall i :: 0 <= i < |s.records| ==> Whole(s.records[i]) && s.records[i].release <= s.tick)
    && (forall i :: 0 <= i < |s.records| - 1 ==> s.records[i].release < s.records[i+1].arm)
    && match s.place.phase
       case ToAck => LaterThan(s, s.current.arm) && s.current.arm <= s.tick
       case ToPoll => LaterThan(s, s.current.arm) && s.current.arm < s.current.ack <= s.tick
       case ToRead => LaterThan(s, s.current.arm) && s.current.arm < s.current.ack < s.current.checkout <= s.tick
       case ToRelease =>
         LaterThan(s, s.current.arm) && s.current.arm < s.current.ack < s.current.checkout < s.current.read <= s.tick
       case _ => true
  }

  ghost predicate LaterThan(s: State, arm: nat) {
    s.records != [] ==> s.records[|s.records|-1].release < arm
  }

  lemma {:induction false} MovePhase(p: Place, x: Label)
    requires Move(p, x).Some?
    ensures var q := Move(p, x).value;
            (if p.phase.ToRelease? then q.slot == p.slot + 1 else q.slot == p.slot) &&
            match p.phase
            case ToCreate => q.phase.ToArm?
            case ToArm => q.phase.ToAck?
            case ToAck => q.phase.ToPoll?
            case ToPoll => if x.kind.Checkout? then q.phase.ToRead? else q.phase.ToPoll?
            case ToRead => q.phase.ToRelease?
            case ToRelease => q.phase.ToArm? || q.phase.ToClose?
            case ToClose => q.phase.Finished?
            case Finished => false
  {
  }

  lemma {:induction false} StepInOrder(first: Event, s: State, ev: Event)
    requires InOrder(s) && Step(first, s, ev).Some?
    ensures InOrder(Step(first, s, ev).value)
  {
    MovePhase(s.place, LabelOf(ev));
    hide Move;
  }

  lemma {:induction false} RunInOrder(first: Event, events: seq<Event>)
    requires Run(first, events).Some?
    ensures InOrder(Run(first, events).value)
  {
    if events != [] {
      RunInOrder(first, events[..|events|-1]);
      StepInOrder(first, Run(first, events[..|events|-1]).value, events[|events|-1]);
    }
  }

  ghost predicate Chained(records: seq<Record>) {
    |records| == PUBLICATIONS && (forall i :: 0 <= i < PUBLICATIONS ==> Whole(records[i])) &&
    (forall i :: 0 <= i < PUBLICATIONS - 1 ==> records[i].release < records[i+1].arm)
  }

  lemma {:induction false} JournalChained(events: seq<Event>)
    requires JournalOf(events).Some?
    ensures Chained(JournalOf(events).value)
  {
    RunInOrder(events[0], events);
    RunExactly(events[0], events);
    WalkTrail(Labels(events));
    hide Run, Walk, Labels, Trail, Named;
  }

  // --------------------------------------------------------------------- samples and verdict

  datatype Sample = Sample(slot: nat, frequency: nat, arm: nat, issueBefore: nat, issueAfter: nat,
                           publication: Publication, observation: Observation)

  /** Every check that ties one sample to its journal record. */
  predicate Bound(nonce: seq<Byte>, index: nat, r: Record, s: Sample, frequency: nat) {
    && PublicationShape(s.publication) && ObservationShape(s.observation)
    && s.slot == index && s.arm <= U64 && s.issueBefore <= U64 && s.issueAfter <= U64
    && s.publication.identity == Identity(nonce, index + 1, index + 1)
    && 10 <= s.frequency <= 1_000_000_000 && s.frequency == frequency
    && s.arm == r.arm && s.issueAfter == r.ack
    && r.ack < r.checkout <= s.observation.before <= s.observation.after <= r.read < r.release
    && s.publication.cleanupAfter <= r.ack
    && r.release - r.arm < 5 * frequency
    && r.arm < s.issueBefore <= r.ack
    && s.publication.drawBefore >= s.issueBefore && s.publication.drawOk && s.publication.cleanupOk
    && s.observation.index == 1
  }

  predicate BindingsHold(nonce: seq<Byte>, events: seq<Event>, records: seq<Record>, samples: seq<Sample>) {
    && |samples| == |records| == PUBLICATIONS && events != []
    && (forall i :: 0 <= i < PUBLICATIONS ==> Bound(nonce, i, records[i], samples[i], samples[0].frequency))
    && events[|events|-1].tick - events[0].tick < 20 * samples[0].frequency
  }

  datatype Verdict = JournalRejected | BindingRejected | ModelRejected(guard: Guard) | Passed

  datatype Replay = Replay(session: Session, guard: Option<Guard>)

  function ReplayStep(crc: Checksum, m: Session, s: Sample): Replay {
    var armed := Armed(m, s.arm, s.issueBefore, s.issueAfter);
    var completed := Completed(armed, s.publication);
    var g0, g1 := ArmGuard(m, s.arm, s.issueBefore, s.issueAfter), CompleteGuard(armed, s.publication);
    if g0.Some? then Replay(armed, g0)
    else if g1.Some? then Replay(completed, g1)
    else Replay(Observed(crc, completed, s.observation), ObserveGuard(crc, completed, s.observation))
  }

  function ReplayRun(crc: Checksum, nonce: seq<Byte>, samples: seq<Sample>): Replay {
    if samples == [] then Replay(Begin(nonce), None)
    else
      var before := ReplayRun(crc, nonce, samples[..|samples|-1]);
      if before.guard.Some? then before else ReplayStep(crc, before.session, samples[|samples|-1])
  }

  function VerdictOf(crc: Checksum, events: seq<Event>, samples: seq<Sample>, nonce: seq<Byte>,
      cleanup: bool): Verdict {
    var records := JournalOf(events);
    if !cleanup || records.None? then JournalRejected
    else if !BindingsHold(nonce, events, records.value, samples) then BindingRejected
    else
      var guard := ReplayRun(crc, nonce, samples).guard;
      if guard.Some? then ModelRejected(guard.value) else Passed
  }

  lemma {:induction false} ReplayStops(crc: Checksum, nonce: seq<Byte>, samples: seq<Sample>, i: nat)
    requires i <= |samples| && ReplayRun(crc, nonce, samples[..i]).guard.Some?
    ensures ReplayRun(crc, nonce, samples) == ReplayRun(crc, nonce, samples[..i])
  {
    if i == |samples| {
      assert samples[..i] == samples;
    } else {
      assert samples[..|samples|-1][..i] == samples[..i];
      ReplayStops(crc, nonce, samples[..|samples|-1], i);
    }
  }

  lemma {:induction false} ReplaySnoc(crc: Checksum, nonce: seq<Byte>, samples: seq<Sample>, i: nat)
    requires i < |samples|
    ensures ReplayRun(crc, nonce, samples[..i+1]) ==
            var before := ReplayRun(crc, nonce, samples[..i]);
            if before.guard.Some? then before else ReplayStep(crc, before.session, samples[i])
  {
    assert samples[..i+1][..i] == samples[..i];
  }

  method Play(crc: Checksum, model: FixtureModel, s: Sample) returns (guard: Option<Guard>)
    modifies model
    ensures Replay(model.Value(), guard) == ReplayStep(crc, old(model.Value()), s)
  {
    hide ArmGuard, CompleteGuard, ObserveGuard, Armed, Completed, Observed;
    guard := model.Arm(s.arm, s.issueBefore, s.issueAfter);
    if guard.Some? { return; }
    guard := model.Complete(s.publication);
    if guard.Some? { return; }
    guard := model.Observe(crc, s.observation);
  }

  lemma {:induction false} NoReplay(crc: Checksum, nonce: seq<Byte>)
    ensures ReplayRun(crc, nonce, []) == Replay(Begin(nonce), None)
  {
  }

  /** The whole verifier: journal, then every binding, and only then the pixels. */
  method Validate(crc: Checksum, events: seq<Event>, samples: seq<Sample>, nonce: seq<Byte>, cleanup: bool)
    returns (r: Verdict)
    ensures r == VerdictOf(crc, events, samples, nonce, cleanup)
  {
    if !cleanup { return JournalRejected; }
    var ok, records := ValidateJournal(events);
    if !ok { return JournalRejected; }
    hide JournalOf, BindingsHold;
    if !BindingsHold(nonce, events, records, samples) { return BindingRejected; }
    NoReplay(crc, nonce);
    hide ReplayRun, ReplayStep;
    var model := new FixtureModel(nonce);
    for i := 0 to |samples|
      invariant fresh(model) && ReplayRun(crc, nonce, samples[..i]) == Replay(model.Value(), None)
    {
      ReplaySnoc(crc, nonce, samples, i);
      var guard := Play(crc, model, samples[i]);
      if guard.Some? {
        ReplayStops(crc, nonce, samples, i + 1);
        return ModelRejected(guard.value);
      }
    }
    assert samples[..|samples|] == samples;
    r := Passed;
  }

  // ------------------------------------------------------- only pixels can fail the model

  /** What the bound samples leave in the model after i of them. */
  ghost predicate Ready(nonce: seq<Byte>, m: Session, i: nat, records: seq<Record>)
    requires i <= |records|
  {
    m.nonce == nonce && m.count == i && m.challenge.None? && m.publication.None? && !m.failed &&
    (if i == 0 then m.last.None? else m.last.Some? && m.last.value <= records[i-1].read)
  }

  predicate Shows(crc: Checksum, nonce: seq<Byte>, i: nat, s: Sample) {
    Valid(Identity(nonce, i + 1, i + 1)) && s.observation.pixels == Encode(crc, Identity(nonce, i + 1, i + 1))
  }

  function SlotChallenge(nonce: seq<Byte>, i: nat, s: Sample): Challenge {
    Challenge(Identity(nonce, i + 1, i + 1), s.arm, s.issueBefore, s.issueAfter)
  }

  lemma {:induction false} BoundArms(nonce: seq<Byte>, m: Session, i: nat, records: seq<Record>, s: Sample,
      frequency: nat)
    requires Chained(records) && i < 3 == |records| && Ready(nonce, m, i, records)
    requires Bound(nonce, i, records[i], s, frequency)
    ensures Valid(Identity(nonce, i + 1, i + 1)) && ArmGuard(m, s.arm, s.issueBefore, s.issueAfter).None?
    ensures Armed(m, s.arm, s.issueBefore, s.issueAfter) ==
            m.(count := i + 1, challenge := Some(SlotChallenge(nonce, i, s)))
  {
    hide Valid;
    assert i > 0 ==> records[i-1].read < records[i-1].release < records[i].arm;
  }

  lemma {:induction false} BoundCompletes(nonce: seq<Byte>, m: Session, i: nat, r: Record, s: Sample, frequency: nat)
    requires Bound(nonce, i, r, s, frequency)
    requires !m.failed && m.challenge == Some(SlotChallenge(nonce, i, s)) && m.publication.None?
    ensures CompleteGuard(m, s.publication).None?
    ensures Completed(m, s.publication) == m.(publication := Some(s.publication))
  {
    hide Valid;
  }

  lemma {:induction false} BoundObserves(crc: Checksum, nonce: seq<Byte>, m: Session, i: nat, r: Record, s: Sample,
      frequency: nat)
    requires Bound(nonce, i, r, s, frequency)
    requires !m.failed && m.challenge == Some(SlotChallenge(nonce, i, s)) && m.publication == Some(s.publication)
    ensures var guard, decoded := ObserveGuard(crc, m, s.observation), DecodeOf(crc, s.observation.pixels);
            if decoded == FixtureIdentity.Decoded(Identity(nonce, i + 1, i + 1)) then guard.None?
            else guard.Some? && AboutPixels(guard.value)
  {
    hide Valid, DecodeOf;
  }

  lemma {:induction false} BoundStep(crc: Checksum, nonce: seq<Byte>, m: Session, i: nat, records: seq<Record>,
      s: Sample, frequency: nat)
    requires Chained(records) && i < 3 == |records| && Ready(nonce, m, i, records)
    requires Bound(nonce, i, records[i], s, frequency)
    ensures var r := ReplayStep(crc, m, s);
            if Shows(crc, nonce, i, s) then r.guard.None? && Ready(nonce, r.session, i + 1, records)
            else r.guard.Some? && AboutPixels(r.guard.value)
  {
    DecodeExactly(crc, s.observation.pixels, Identity(nonce, i + 1, i + 1));
    BoundArms(nonce, m, i, records, s, frequency);
    var armed := m.(count := i + 1, challenge := Some(SlotChallenge(nonce, i, s)));
    BoundCompletes(nonce, armed, i, records[i], s, frequency);
    var completed := armed.(publication := Some(s.publication));
    BoundObserves(crc, nonce, completed, i, records[i], s, frequency);
    hide DecodeOf, Encode, Valid, ArmGuard, Armed, CompleteGuard, Completed, ObserveGuard, SlotChallenge, Chained;
  }

  /** The first sample that does not show its own identity, if any. */
  lemma {:induction false} BoundRun(crc: Checksum, nonce: seq<Byte>, records: seq<Record>, samples: seq<Sample>,
      k: nat, frequency: nat)
    requires Chained(records) && |records| == |samples| == 3 && k <= 3
    requires forall i :: 0 <= i < 3 ==> Bound(nonce, i, records[i], samples[i], frequency)
    ensures var r := ReplayRun(crc, nonce, samples[..k]);
            if forall i :: 0 <= i < k ==> Shows(crc, nonce, i, samples[i])
            then r.guard.None? && Ready(nonce, r.session, k, records)
            else r.guard.Some? && AboutPixels(r.guard.value)
  {
    hide *;
    if k == 0 {
      ReadyAtStart(nonce, records);
      assert samples[..0] == [];
      NoReplay(crc, nonce);
    } else {
      BoundRun(crc, nonce, records, samples, k - 1, frequency);
      ReplaySnoc(crc, nonce, samples, k - 1);
      var before := ReplayRun(crc, nonce, samples[..k-1]);
      if before.guard.None? {
        BoundStep(crc, nonce, before.session, k - 1, records, samples[k-1], frequency);
      }
    }
  }

  lemma {:induction false} ReadyAtStart(nonce: seq<Byte>, records: seq<Record>)
    ensures Ready(nonce, Begin(nonce), 0, records)
  {
  }

  /** QUEUE VERDICT. Once the journal and the bindings pass, the model can refuse nothing but
      pixels; and the verifier passes exactly when the journal is a complete script, every binding
      holds, and each sample's pixels are the picture of its own slot's identity. */
  lemma {:induction false} QueueVerdict(crc: Checksum, events: seq<Event>, samples: seq<Sample>, nonce: seq<Byte>,
      cleanup: bool)
    ensures var v := VerdictOf(crc, events, samples, nonce, cleanup); v.ModelRejected? ==> AboutPixels(v.guard)
    ensures VerdictOf(crc, events, samples, nonce, cleanup) == Passed <==>
            cleanup && JournalOf(events).Some? && BindingsHold(nonce, events, JournalOf(events).value, samples) &&
            forall i :: 0 <= i < PUBLICATIONS ==> Shows(crc, nonce, i, samples[i])
  {
    var records := JournalOf(events);
    if cleanup && records.Some? && BindingsHold(nonce, events, records.value, samples) {
      JournalChained(events);
      BoundRun(crc, nonce, records.value, samples, PUBLICATIONS, samples[0].frequency);
      assert samples[..PUBLICATIONS] == samples;
    }
    hide JournalOf, Bound, Shows, ReplayRun, Ready;
  }
}
