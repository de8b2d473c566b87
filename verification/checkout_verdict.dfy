/** The checkout verifier's verdict, said over the events and samples themselves. */
module CheckoutVerdict {
  import opened Options
  import opened FixtureIdentity
  import opened FixtureSession
  import opened ContentQueue

  // -------------------------------------------------------- the ticks a slot's events carry

  predicate Is(ev: Event, kind: Kind, slot: nat) { ev.kind == kind && ev.slot == slot }

  /** The tick of the last event of this kind for this slot. */
  function TickOf(events: seq<Event>, kind: Kind, slot: nat): nat {
    if events == [] then 0
    else if Is(events[|events|-1], kind, slot) then events[|events|-1].tick
    else TickOf(events[..|events|-1], kind, slot)
  }

  function CountOf(events: seq<Event>, kind: Kind, slot: nat): nat {
    if events == [] then 0
    else CountOf(events[..|events|-1], kind, slot) + if Is(events[|events|-1], kind, slot) then 1 else 0
  }

  lemma {:induction false} CountPositive(events: seq<Event>, kind: Kind, slot: nat, ev: Event)
    requires ev in events && Is(ev, kind, slot)
    ensures CountOf(events, kind, slot) >= 1
  {
    var front := events[..|events|-1];
    if !Is(events[|events|-1], kind, slot) {
      assert ev in front;
      CountPositive(front, kind, slot, ev);
    }
  }

  /** A kind that occurs once for a slot occurs at its tick. */
  lemma {:induction false} OnlyTick(events: seq<Event>, kind: Kind, slot: nat)
    requires CountOf(events, kind, slot) == 1
    ensures exists ev :: ev in events && Is(ev, kind, slot)
    ensures forall ev :: ev in events && Is(ev, kind, slot) ==> ev.tick == TickOf(events, kind, slot)
  {
    var front, last := events[..|events|-1], events[|events|-1];
    assert events == front + [last];
    if Is(last, kind, slot) {
      forall ev | ev in front ensures !Is(ev, kind, slot) {
        if Is(ev, kind, slot) { CountPositive(front, kind, slot, ev); }
      }
    } else {
      OnlyTick(front, kind, slot);
    }
  }

  /** Whether the slot at this phase has already had its event of the kind. */
  predicate Had(phase: Phase, kind: Kind) {
    match kind
    case Arm => phase.ToAck? || phase.ToPoll? || phase.ToRead? || phase.ToRelease?
    case Ack => phase.ToPoll? || phase.ToRead? || phase.ToRelease?
    case Checkout => phase.ToRead? || phase.ToRelease?
    case Read => phase.ToRelease?
    case _ => false
  }

  predicate OfSlot(kind: Kind) { kind.Arm? || kind.Ack? || kind.Checkout? || kind.Read? || kind.Release? }

  /** Every slot event occurred once for the finished slots, and once so far for the current one. */
  ghost predicate Counted(p: Place, events: seq<Event>) {
    forall kind, slot: nat :: OfSlot(kind) ==>
      CountOf(events, kind, slot) ==
        if slot < p.slot then 1 else if slot == p.slot && Had(p.phase, kind) then 1 else 0
  }

  lemma {:induction false} MoveCounts(p: Place, x: Label, kind: Kind, slot: nat)
    requires Move(p, x).Some? && OfSlot(kind)
    ensures var q := Move(p, x).value;
            (if slot < q.slot then 1 else if slot == q.slot && Had(q.phase, kind) then 1 else 0) ==
            (if slot < p.slot then 1 else if slot == p.slot && Had(p.phase, kind) then 1 else 0) +
            (if x.kind == kind && x.slot == slot then 1 else 0)
  {
    MovePhase(p, x);
  }

  lemma {:induction false} CountedAlways(first: Event, events: seq<Event>)
    requires Run(first, events).Some?
    ensures Counted(Run(first, events).value.place, events)
  {
    if events != [] {
      var front, ev := events[..|events|-1], events[|events|-1];
      CountedAlways(first, front);
      var p := Run(first, front).value.place;
      assert Move(p, LabelOf(ev)).Some?;
      hide Move, Had;
      forall kind, slot: nat | OfSlot(kind)
        ensures var q := Run(first, events).value.place;
                CountOf(events, kind, slot) ==
                if slot < q.slot then 1 else if slot == q.slot && Had(q.phase, kind) then 1 else 0
      {
        MoveCounts(p, LabelOf(ev), kind, slot);
      }
    }
  }

  /** The record a slot's own events make. */
  function RecordAt(events: seq<Event>, slot: nat): Record {
    Record(TickOf(events, Arm, slot), TickOf(events, Ack, slot), TickOf(events, Checkout, slot),
           TickOf(events, Read, slot), TickOf(events, Release, slot))
  }

  ghost predicate Recorded(s: State, events: seq<Event>) {
    && |s.records| == s.place.slot
    && (forall i :: 0 <= i < |s.records| ==> s.records[i] == RecordAt(events, i))
    && (Had(s.place.phase, Arm) ==> s.current.arm == TickOf(events, Arm, s.place.slot))
    && (Had(s.place.phase, Ack) ==> s.current.ack == TickOf(events, Ack, s.place.slot))
    && (Had(s.place.phase, Checkout) ==> s.current.checkout == TickOf(events, Checkout, s.place.slot))
    && (Had(s.place.phase, Read) ==> s.current.read == TickOf(events, Read, s.place.slot))
  }

  lemma {:induction false} TickSnoc(events: seq<Event>, ev: Event, kind: Kind, slot: nat)
    ensures TickOf(events + [ev], kind, slot) == if Is(ev, kind, slot) then ev.tick else TickOf(events, kind, slot)
  {
    assert (events + [ev])[..|events|] == events;
  }

  lemma {:induction false} RecordKept(events: seq<Event>, ev: Event, slot: nat)
    requires ev.slot != slot
    ensures RecordAt(events + [ev], slot) == RecordAt(events, slot)
  {
    TickSnoc(events, ev, Arm, slot);
    TickSnoc(events, ev, Ack, slot);
    TickSnoc(events, ev, Checkout, slot);
    TickSnoc(events, ev, Read, slot);
    TickSnoc(events, ev, Release, slot);
    hide TickOf;
  }

  lemma {:induction false} RecordedNext(first: Event, s: State, events: seq<Event>, ev: Event)
    requires Recorded(s, events) && Step(first, s, ev).Some?
    ensures Recorded(Step(first, s, ev).value, events + [ev])
  {
    var n := s.place.slot;
    forall i | 0 <= i < n ensures RecordAt(events + [ev], i) == RecordAt(events, i) {
      assert ev.slot == n;
      RecordKept(events, ev, i);
    }
    TickSnoc(events, ev, Arm, n);
    TickSnoc(events, ev, Ack, n);
    TickSnoc(events, ev, Checkout, n);
    TickSnoc(events, ev, Read, n);
    TickSnoc(events, ev, Release, n);
    MovePhase(s.place, LabelOf(ev));
    MoveKinds(s.place, LabelOf(ev));
    hide TickOf, Move, Follows;
  }

  lemma {:induction false} MoveKinds(p: Place, x: Label)
    requires Move(p, x).Some?
    ensures x.slot == p.slot
    ensures p.phase.ToArm? <==> x.kind.Arm?
    ensures p.phase.ToAck? <==> x.kind.Ack?
    ensures p.phase.ToPoll? <==> x.kind.Null? || x.kind.Checkout?
    ensures p.phase.ToRead? <==> x.kind.Read?
    ensures p.phase.ToRelease? <==> x.kind.Release?
  {
  }

  lemma {:induction false} RecordedAlways(first: Event, events: seq<Event>)
    requires Run(first, events).Some?
    ensures Recorded(Run(first, events).value, events)
  {
    if events != [] {
      var front, ev := events[..|events|-1], events[|events|-1];
      RecordedAlways(first, front);
      assert events == front + [ev];
      hide Recorded, Step;
      RecordedNext(first, Run(first, front).value, front, ev);
    }
  }

  // ------------------------------------------------------------------- the whole verdict

  /** A complete journal: one owner throughout, rising ticks, and the script of three slots. */
  ghost predicate WholeJournal(events: seq<Event>) {
    && events != []
    && 1 <= events[0].session <= U64 && 1 <= events[0].pool <= U64 && 1 <= events[0].owner.process <= U64
    && 1 <= events[0].owner.birth <= U64 && 1 <= events[0].owner.window <= U64
    && (forall i :: 0 <= i < |events| ==>
          1 <= events[i].tick <= U64 && events[i].session == events[0].session && events[i].pool == events[0].pool &&
          events[i].owner == events[0].owner)
    && (forall i, k :: 0 <= i < k < |events| ==> events[i].tick < events[k].tick)
    && exists nulls :: |nulls| == 3 && (forall n :: n in nulls ==> n <= 999) && Labels(events) == Script(nulls)
  }

  /** TICKS. In a complete journal each slot has exactly one event of each kind, so its tick is one. */
  lemma {:induction false} OneEventEach(events: seq<Event>, kind: Kind, slot: nat)
    requires WholeJournal(events) && OfSlot(kind) && slot < 3
    ensures exists ev :: ev in events && Is(ev, kind, slot)
    ensures forall ev :: ev in events && Is(ev, kind, slot) ==> ev.tick == TickOf(events, kind, slot)
  {
    JournalAccepted(events);
    CountedAlways(events[0], events);
    RecordedAlways(events[0], events);
    hide WholeJournal, Run, Had;
    OnlyTick(events, kind, slot);
  }

  lemma {:induction false} JournalIsWhole(events: seq<Event>)
    ensures JournalOf(events).Some? <==> WholeJournal(events)
  {
    JournalExactly(events);
    hide JournalOf, Labels, Script;
    if JournalOf(events).Some? {
      var nulls :| Budgeted(nulls) && Labels(events) == Script(nulls);
      assert |nulls| == 3 && (forall n :: n in nulls ==> n <= 999) && Labels(events) == Script(nulls);
    }
    forall nulls | |nulls| == 3 && (forall n :: n in nulls ==> n <= 999) && Labels(events) == Script(nulls)
      ensures Budgeted(nulls) && Labels(events) == Script(nulls)
    {
    }
  }

  lemma {:induction false} JournalAccepted(events: seq<Event>)
    requires WholeJournal(events)
    ensures JournalOf(events).Some? && Run(events[0], events).Some?
    ensures Run(events[0], events).value.records == JournalOf(events).value
    ensures Run(events[0], events).value.place.slot == 3
  {
    JournalIsWhole(events);
    RunExactly(events[0], events);
    WalkTrail(Labels(events));
    hide WholeJournal, Run, Walk, Labels, Trail, Named;
  }

  lemma {:induction false} RecordsAre(events: seq<Event>)
    requires WholeJournal(events)
    ensures JournalOf(events).Some? && |JournalOf(events).value| == 3
    ensures forall i :: 0 <= i < 3 ==> JournalOf(events).value[i] == RecordAt(events, i)
    ensures Chained(JournalOf(events).value)
  {
    JournalAccepted(events);
    RecordedAlways(events[0], events);
    JournalChained(events);
    hide WholeJournal, Run, JournalOf, RecordAt, Had, Chained;
  }

  /** Everything a sample must show of its slot's own events, besides the picture itself. */
  ghost predicate Belongs(nonce: seq<Byte>, events: seq<Event>, i: nat, s: Sample, frequency: nat) {
    var arm, ack := TickOf(events, Arm, i), TickOf(events, Ack, i);
    var out, read, release := TickOf(events, Checkout, i), TickOf(events, Read, i), TickOf(events, Release, i);
    && s.slot == i && s.frequency == frequency && 10 <= frequency <= 1_000_000_000
    && s.publication.identity == Identity(nonce, i + 1, i + 1) && Valid(Identity(nonce, i + 1, i + 1))
    && s.arm == arm && s.issueAfter == ack && arm < s.issueBefore <= ack
    && s.issueBefore <= s.publication.drawBefore <= s.publication.drawAfter <= s.publication.cleanupAfter <= ack
    && s.publication.drawOk && s.publication.cleanupOk
    && s.observation.index == 1 && out <= s.observation.before <= s.observation.after <= read
    && release - arm < 5 * frequency
  }

  ghost predicate Timely(nonce: seq<Byte>, events: seq<Event>, samples: seq<Sample>) {
    && |samples| == 3 && events != []
    && (forall i :: 0 <= i < 3 ==> Belongs(nonce, events, i, samples[i], samples[0].frequency))
    && events[|events|-1].tick - events[0].tick < 20 * samples[0].frequency
  }

  lemma {:induction false} BelongsExactly(nonce: seq<Byte>, events: seq<Event>, i: nat, r: Record, s: Sample,
      frequency: nat)
    requires r == RecordAt(events, i) && Whole(r) && r.release <= U64
    ensures Bound(nonce, i, r, s, frequency) <==> Belongs(nonce, events, i, s, frequency)
  {
    hide TickOf, Valid;
  }

  lemma {:induction false} TickBounded(events: seq<Event>, kind: Kind, slot: nat)
    requires forall i :: 0 <= i < |events| ==> events[i].tick <= U64
    ensures TickOf(events, kind, slot) <= U64
  {
    if events != [] { TickBounded(events[..|events|-1], kind, slot); }
  }

  lemma {:induction false} TimelyExactly(nonce: seq<Byte>, events: seq<Event>, samples: seq<Sample>)
    requires WholeJournal(events)
    ensures JournalOf(events).Some?
    ensures BindingsHold(nonce, events, JournalOf(events).value, samples) <==> Timely(nonce, events, samples)
  {
    RecordsAre(events);
    var records := JournalOf(events).value;
    TickBounded(events, Release, 0);
    TickBounded(events, Release, 1);
    TickBounded(events, Release, 2);
    assert forall i :: 0 <= i < 3 ==> Whole(records[i]);
    if |samples| == 3 {
      hide WholeJournal, JournalOf, Bound, Belongs, TickOf, Whole, Chained;
      forall i | 0 <= i < 3
        ensures Bound(nonce, i, records[i], samples[i], samples[0].frequency) <==>
                Belongs(nonce, events, i, samples[i], samples[0].frequency)
      {
        assert records[i].release == TickOf(events, Release, i);
        BelongsExactly(nonce, events, i, records[i], samples[i], samples[0].frequency);
      }
    }
    hide WholeJournal, JournalOf, Bound, Belongs, TickOf, Whole, Chained;
  }

  /** VERDICT. The verifier rejects the journal exactly when cleanup failed or the events are not a
      complete journal, rejects the bindings exactly when some sample does not belong to its slot's own
      events or a deadline is missed, and passes the rest exactly when every sample's pixels are the
      picture of its slot's identity; whatever else it rejects, it rejects for the pixels. */
  lemma {:induction false} VerdictExactly(crc: Checksum, events: seq<Event>, samples: seq<Sample>, nonce: seq<Byte>,
      cleanup: bool)
    ensures var v := VerdictOf(crc, events, samples, nonce, cleanup);
            && (v == JournalRejected <==> !(cleanup && WholeJournal(events)))
            && (v == BindingRejected <==> cleanup && WholeJournal(events) && !Timely(nonce, events, samples))
            && (v == Passed <==>
                  cleanup && WholeJournal(events) && Timely(nonce, events, samples) &&
                  forall i :: 0 <= i < 3 ==> samples[i].observation.pixels == Encode(crc, Identity(nonce, i + 1, i + 1)))
            && (v.ModelRejected? ==> AboutPixels(v.guard))
  {
    JournalIsWhole(events);
    if WholeJournal(events) { TimelyExactly(nonce, events, samples); }
    QueueVerdict(crc, events, samples, nonce, cleanup);
    if Timely(nonce, events, samples) {
      forall i | 0 <= i < 3
        ensures Shows(crc, nonce, i, samples[i]) <==>
                samples[i].observation.pixels == Encode(crc, Identity(nonce, i + 1, i + 1))
      {
        assert Belongs(nonce, events, i, samples[i], samples[0].frequency);
        hide Encode, Valid;
      }
    }
    hide WholeJournal, JournalOf, BindingsHold, Belongs, Encode, ReplayRun, Valid, Shows;
  }
}
