/** Which router lanes the decoder accepts, said over the lane's events alone. */
module RouterLanguage {
  import opened Options
  import opened RouterDispatch
  import N = NestedReplay
  import G = NestedLanguage

  // ----------------------------------------------------------------- one dispatch's events

  /** Which kind may come right after which, given the predicate's byte. */
  predicate Succeeds(before: Kind, low8: nat, kind: Kind) {
    match kind
    case RouterEntry => false
    case PredicatePre => before.RouterEntry?
    case PredicateReturn => before.PredicatePre?
    case PredicateThrow => before.PredicatePre?
    case Skip => before.PredicateReturn? && low8 == 0
    case ConsumerPre => before.PredicateReturn? && low8 != 0
    case ConsumerReturn => before.ConsumerPre?
    case ConsumerThrow => before.ConsumerPre?
    case NormalExit => before.Skip? || before.ConsumerReturn?
    case ExceptionalExit => true
  }

  /** The snapshot an event carries differs from the one before only in what the event itself changed. */
  predicate Snapshots(before: Frame, ev: Event) {
    var f := ev.frame;
    match ev.kind
    case RouterEntry => false
    case PredicatePre =>
      f.predicate_.present && f.predicate_.f1 == 0 && f == before.(stage := PredicateActive, predicate_ := f.predicate_)
    case PredicateReturn =>
      f == before.(stage := PredicateReturned, result := f.result, low8 := f.low8, returned := true)
    case PredicateThrow => f == before.(stage := Failed)
    case Skip => f == before.(stage := Skipped)
    case ConsumerPre => f.consumer.present && f == before.(stage := ConsumerActive, consumer := f.consumer)
    case ConsumerReturn => f == before.(stage := ConsumerReturned)
    case ConsumerThrow => f == before.(stage := Failed)
    case NormalExit => f == before
    case ExceptionalExit => f == before
  }

  predicate Follows(before: Event, ev: Event) {
    Succeeds(before.kind, before.frame.low8, ev.kind) && Snapshots(before.frame, ev)
  }

  /** The stage a snapshot has is the one its event leads to. */
  predicate StageFits(ev: Event) {
    match ev.kind
    case RouterEntry => ev.frame.stage.Entered?
    case PredicatePre => ev.frame.stage.PredicateActive?
    case PredicateReturn => ev.frame.stage.PredicateReturned?
    case PredicateThrow => ev.frame.stage.Failed?
    case Skip => ev.frame.stage.Skipped?
    case ConsumerPre => ev.frame.stage.ConsumerActive?
    case ConsumerReturn => ev.frame.stage.ConsumerReturned?
    case ConsumerThrow => ev.frame.stage.Failed?
    case _ => true
  }

  /** One event after another of the same dispatch. */
  lemma {:induction false} StepFollows(before: Event, ev: Event)
    requires StageFits(before) && !PhaseOf(before.kind).Closes?
    ensures Step(before.frame, ev).Some? <==> Follows(before, ev)
    ensures Step(before.frame, ev).Some? ==> Step(before.frame, ev) == Some(ev.frame) && StageFits(ev)
  {
  }

  /** A dispatch's frame is the snapshot of its last event, and that snapshot fits the event. */
  ghost predicate Shown(f: Frame, seen: seq<Event>) {
    seen != [] && f == seen[|seen|-1].frame &&
    (!PhaseOf(seen[|seen|-1].kind).Closes? ==> StageFits(seen[|seen|-1]))
  }

  lemma {:induction false} ShownInductive(lane: Lane, d: Window)
    ensures N.Inductive(Decoder(lane, d), Shown)
  {
    var m := Decoder(lane, d);
    forall l, f, ev: Event | m.phase(ev).Opens? && N.OpensTo(m, l, ev, f) ensures Shown(f, [ev]) {
      var top :| m.open(l, top, ev) == Some(f);
    }
    forall f: Frame, seen: seq<Event>, ev: Event |
      Shown(f, seen) && N.Running(m, seen) && !m.phase(ev).Opens? && m.step(f, ev).Some?
      ensures Shown(m.step(f, ev).value, seen + [ev])
    {
      StepFollows(seen[|seen|-1], ev);
    }
  }

  // ------------------------------------------------------------- what events determine

  function SerialOf(ev: Event): nat { ev.frame.invocation.serial }

  /** The serial of the last entry. */
  function LastSerial(events: seq<Event>): nat {
    if events == [] then 0
    else if events[|events|-1].kind.RouterEntry? then SerialOf(events[|events|-1])
    else LastSerial(events[..|events|-1])
  }

  /** The invocations entered and not yet ended, outermost first. */
  function OpenOf(events: seq<Event>): seq<nat> {
    if events == [] then []
    else
      var before, ev := OpenOf(events[..|events|-1]), events[|events|-1];
      if ev.kind.RouterEntry? then before + [SerialOf(ev)]
      else if (ev.kind.NormalExit? || ev.kind.ExceptionalExit?) && before != [] then before[..|before|-1]
      else before
  }

  /** The events of one invocation, in lane order. */
  function OwnOf(events: seq<Event>, serial: nat): seq<Event> {
    if events == [] then []
    else
      var rest := OwnOf(events[..|events|-1], serial);
      if SerialOf(events[|events|-1]) == serial then rest + [events[|events|-1]] else rest
  }

  /** What the entry of this serial recorded of its lexical parent and its object. */
  function MetaOf(events: seq<Event>, serial: nat): Option<(bool, bool)> {
    if events == [] then None
    else
      var ev := events[|events|-1];
      if ev.kind.RouterEntry? && SerialOf(ev) == serial then Some((ev.parentAdmitted, ev.baseNonnull))
      else MetaOf(events[..|events|-1], serial)
  }

  // --------------------------------------------------------------- when an event fits

  /** The selector each known call site dispatches with. */
  predicate Route(f: Frame) {
    f.manager % 0x1_0000_0000 != 0 &&
    (f.caller, f.selector % 0x1_0000_0000) in
      {(0x822C24C4, 1), (0x822C273C, 4), (0x822C2768, 0), (0x822C27C0, 8), (0x822C2848, 2)}
  }

  predicate WellShaped(f: Frame) {
    && f.low8 == f.result % 256
    && f.predicate_.requested == f.predicate_.ctr % 0x1_0000_0000 && f.consumer.requested == f.consumer.ctr % 0x1_0000_0000
    && (!f.predicate_.present ==> f.predicate_ == Dispatch(0, 0, 0, 0, 0, false))
    && (!f.consumer.present ==> f.consumer == Dispatch(0, 0, 0, 0, 0, false))
  }

  /** A taken clock is no earlier than any before it and not past the cut; a missing one was recorded. */
  ghost predicate Clocked(d: Window, events: seq<Event>, ev: Event) {
    if ev.clockValid then
      && 0 < ev.qpc <= 0x7FFF_FFFF_FFFF_FFFF && (!d.clockFailed ==> ev.qpc <= d.freeze)
      && (forall x :: x in events && x.clockValid ==> x.qpc <= ev.qpc)
    else d.clockFailed && d.observerFailed
  }

  /** What every event of a lane says truly of itself. */
  ghost predicate Honest(lane: Lane, d: Window, events: seq<Event>, ev: Event) {
    && ev.frame.invocation.epoch == lane.epoch && SerialOf(ev) > 0 && WellShaped(ev.frame) && Clocked(d, events, ev)
    && (ev.expected <==> Route(ev.frame))
    && (ev.matches <==> ev.observed.phaseCall != 0 && ev.observed == ev.frame.binding)
  }

  /** An entry starts a fresh frame under the innermost open dispatch, in the window, under its own binding. */
  ghost predicate Entry(d: Window, events: seq<Event>, ev: Event) {
    var open := OpenOf(events);
    && SerialOf(ev) > LastSerial(events) && (d.lossless ==> SerialOf(ev) == LastSerial(events) + 1)
    && |open| < 8 && (ev.parentAdmitted ==> open != [])
    && ev.clockValid && d.begin <= ev.qpc < d.end && ev.observed == ev.frame.binding
    && FreshFrame(ev.frame, if open == [] then None else Some(OwnOf(events, open[|open|-1])))
  }

  ghost predicate FreshFrame(f: Frame, outer: Option<seq<Event>>) {
    && f.stage.Entered? && f.result == 0 && f.low8 == 0 && !f.returned
    && f.predicate_ == Dispatch(0, 0, 0, 0, 0, false) && f.consumer == Dispatch(0, 0, 0, 0, 0, false)
    && f.parent == if outer.Some? && outer.value != [] then outer.value[|outer.value|-1].frame.invocation else Id(0, 0)
  }

  /** Any other event is the next of the innermost open dispatch. */
  ghost predicate Inner(events: seq<Event>, ev: Event) {
    var open := OpenOf(events);
    && open != [] && open[|open|-1] == SerialOf(ev)
    && MetaOf(events, SerialOf(ev)) == Some((ev.parentAdmitted, ev.baseNonnull))
    && OwnOf(events, SerialOf(ev)) != []
    && Follows(OwnOf(events, SerialOf(ev))[|OwnOf(events, SerialOf(ev))|-1], ev)
  }

  ghost predicate Fits(lane: Lane, d: Window, events: seq<Event>, ev: Event) {
    Honest(lane, d, events, ev) && if ev.kind.RouterEntry? then Entry(d, events, ev) else Inner(events, ev)
  }

  // --------------------------------------------------- the lane state is what they determine

  ghost predicate Latest(events: seq<Event>, clock: nat) {
    && (forall x :: x in events && x.clockValid ==> x.qpc <= clock)
    && (clock == 0 || exists x :: x in events && x.clockValid && x.qpc == clock)
  }

  ghost predicate MetaAre(events: seq<Event>, meta: map<nat, (bool, bool)>) {
    forall serial: nat :: MetaOf(events, serial) == if serial in meta then Some(meta[serial]) else None
  }

  ghost predicate StateIs(events: seq<Event>, l: LaneState) {
    l.serial == LastSerial(events) && Latest(events, l.clock) && MetaAre(events, l.meta)
  }

  lemma {:induction false} ClockExactly(d: Window, events: seq<Event>, last: nat, ev: Event)
    requires Latest(events, last)
    ensures Clock(d, last, ev).Some? <==> Clocked(d, events, ev)
    ensures Clock(d, last, ev).Some? ==> Latest(events + [ev], Clock(d, last, ev).value)
  {
  }

  lemma {:induction false} HonestParts(f: Frame)
    ensures Expected(f) <==> Route(f)
    ensures FrameShape(f) <==> WellShaped(f)
  {
  }

  /** The lane's part of the checks, over what the events determine. */
  ghost predicate LaneFits(lane: Lane, d: Window, events: seq<Event>, ev: Event) {
    && Honest(lane, d, events, ev)
    && if ev.kind.RouterEntry? then
         (d.lossless ==> SerialOf(ev) == LastSerial(events) + 1) && ev.clockValid && d.begin <= ev.qpc < d.end &&
         ev.observed == ev.frame.binding
       else MetaOf(events, SerialOf(ev)) == Some((ev.parentAdmitted, ev.baseNonnull))
  }

  lemma {:induction false} CheckExactly(lane: Lane, d: Window, events: seq<Event>, l: LaneState, ev: Event)
    requires StateIs(events, l)
    ensures LaneCheck(lane, d, l, ev).Some? <==> LaneFits(lane, d, events, ev)
  {
    ClockExactly(d, events, l.clock, ev);
    HonestParts(ev.frame);
    hide Clock, Clocked, Latest, Expected, Route, FrameShape, WellShaped, LastSerial, MetaOf;
  }

  lemma {:induction false} SnocFacts(events: seq<Event>, ev: Event, serial: nat)
    ensures LastSerial(events + [ev]) == if ev.kind.RouterEntry? then SerialOf(ev) else LastSerial(events)
    ensures MetaOf(events + [ev], serial) ==
            if ev.kind.RouterEntry? && SerialOf(ev) == serial then Some((ev.parentAdmitted, ev.baseNonnull))
            else MetaOf(events, serial)
  {
    assert (events + [ev])[..|events|] == events;
  }

  lemma {:induction false} StateNext(lane: Lane, d: Window, events: seq<Event>, l: LaneState, ev: Event)
    requires StateIs(events, l) && LaneCheck(lane, d, l, ev).Some?
    ensures StateIs(events + [ev], LaneCheck(lane, d, l, ev).value)
  {
    ClockExactly(d, events, l.clock, ev);
    SnocFacts(events, ev, 0);
    hide Clock, Clocked, Latest, Expected, FrameShape, LastSerial;
    forall serial: nat
      ensures var meta := LaneCheck(lane, d, l, ev).value.meta;
              MetaOf(events + [ev], serial) == if serial in meta then Some(meta[serial]) else None
    {
      SnocFacts(events, ev, serial);
    }
    hide MetaOf;
  }

  lemma {:induction false} LaneIs(lane: Lane, d: Window, l: LaneState, ev: Event)
    ensures Decoder(lane, d).lane(l, ev) == LaneCheck(lane, d, l, ev)
  {
  }

  lemma {:induction false} IdMoves(lane: Lane, d: Window, n: nat, t: N.Trace<LaneState, Frame, Event>, ev: Event,
      next: N.Trace<LaneState, Frame, Event>)
    requires N.Moves(Decoder(lane, d), n, t, ev, next)
    ensures next.lastId == if ev.kind.RouterEntry? then SerialOf(ev) else t.lastId
  {
  }

  lemma {:induction false} SerialIs(events: seq<Event>, l: LaneState)
    requires StateIs(events, l)
    ensures l.serial == LastSerial(events)
  {
  }

  lemma {:induction false} RunStarts(lane: Lane, d: Window)
    ensures N.Run(Decoder(lane, d), START, []).Some?
    ensures var t := N.Run(Decoder(lane, d), START, []).value;
            StateIs([], t.lane) && t.lastId == LastSerial([])
  {
    hide Decoder;
  }

  lemma {:induction false} StateAlways(lane: Lane, d: Window, events: seq<Event>)
    requires N.Run(Decoder(lane, d), START, events).Some?
    ensures var t := N.Run(Decoder(lane, d), START, events).value;
            StateIs(events, t.lane) && t.lastId == LastSerial(events)
  {
    hide *;
    if events == [] {
      RunStarts(lane, d);
    } else {
      var m, front, ev := Decoder(lane, d), events[..|events|-1], events[|events|-1];
      N.RunSnoc(m, START, events);
      StateAlways(lane, d, front);
      var t := N.Run(m, START, front).value;
      N.StepMoves(m, |front|, t, ev);
      LaneIs(lane, d, t.lane, ev);
      StateNext(lane, d, front, t.lane, ev);
      IdMoves(lane, d, |front|, t, ev, N.Run(m, START, events).value);
      SnocFacts(front, ev, 0);
      assert events == front + [ev];
    }
  }

  // ---------------------------------------------------------------------- the stack

  lemma {:induction false} OpenIsOpen(lane: Lane, d: Window, events: seq<Event>)
    ensures G.OpenIds(Decoder(lane, d), events) == OpenOf(events)
  {
    if events != [] {
      var ev := events[|events|-1];
      OpenIsOpen(lane, d, events[..|events|-1]);
      assert Decoder(lane, d).phase(ev) == PhaseOf(ev.kind) && Decoder(lane, d).id(ev) == SerialOf(ev);
    }
  }

  lemma {:induction false} OwnIsOwn(lane: Lane, d: Window, events: seq<Event>, serial: nat)
    ensures N.Own(Decoder(lane, d), events, serial) == OwnOf(events, serial)
  {
    if events != [] {
      OwnIsOwn(lane, d, events[..|events|-1], serial);
      assert Decoder(lane, d).id(events[|events|-1]) == SerialOf(events[|events|-1]);
    }
  }

  lemma {:induction false} StackLength(lane: Lane, d: Window, events: seq<Event>)
    requires N.Run(Decoder(lane, d), START, events).Some?
    ensures |N.Run(Decoder(lane, d), START, events).value.stack| == |OpenOf(events)|
    ensures G.SameIds(N.Run(Decoder(lane, d), START, events).value.stack, OpenOf(events))
  {
    hide N.Run, Decoder, OpenOf, G.OpenIds;
    G.StackIsOpen(Decoder(lane, d), START, events);
    OpenIsOpen(lane, d, events);
  }

  lemma {:induction false} RunningMeans(lane: Lane, d: Window, seen: seq<Event>)
    ensures N.Running(Decoder(lane, d), seen) <==> seen != [] && !PhaseOf(seen[|seen|-1].kind).Closes?
  {
  }

  /** Each open dispatch's events are its own, and its frame is the snapshot of the last. */
  lemma {:induction false} StackShown(lane: Lane, d: Window, events: seq<Event>, k: nat)
    requires N.Run(Decoder(lane, d), START, events).Some? && k < |OpenOf(events)|
    ensures var stack, own := N.Run(Decoder(lane, d), START, events).value.stack, OwnOf(events, OpenOf(events)[k]);
            k < |stack| && stack[k].id == OpenOf(events)[k] && own != [] && stack[k].frame == own[|own|-1].frame &&
            StageFits(own[|own|-1]) && !PhaseOf(own[|own|-1].kind).Closes?
  {
    var m := Decoder(lane, d);
    var t := N.Run(m, START, events).value;
    ShownInductive(lane, d);
    hide N.Run, Decoder, OwnOf, N.Own, OpenOf, N.Apart, N.Inductive, N.Running;
    N.HoldsEverywhere(m, START, events, Shown);
    StackLength(lane, d, events);
    N.OwnHistories(m, START, events);
    OwnIsOwn(lane, d, events, OpenOf(events)[k]);
    assert t.stack[k].events == N.Own(m, events, t.stack[k].id);
    assert N.Running(m, t.stack[k].events) && Shown(t.stack[k].frame, t.stack[k].events);
    RunningMeans(lane, d, t.stack[k].events);
  }

  // ------------------------------------------------------------------- the whole lane

  lemma {:induction false} OpensFresh(ev: Event, top: Option<Frame>, outer: Option<seq<Event>>)
    requires top.Some? <==> outer.Some?
    requires outer.Some? ==> outer.value != [] && top.value == outer.value[|outer.value|-1].frame
    ensures Open(top, ev).Some? <==> (ev.parentAdmitted ==> top.Some?) && FreshFrame(ev.frame, outer)
  {
  }

  lemma {:induction false} EntryMeans(lane: Lane, d: Window, events: seq<Event>, ev: Event)
    requires ev.kind.RouterEntry?
    ensures Fits(lane, d, events, ev) <==>
            LaneFits(lane, d, events, ev) && SerialOf(ev) > LastSerial(events) && |OpenOf(events)| < 8 &&
            (ev.parentAdmitted ==> OpenOf(events) != []) &&
            FreshFrame(ev.frame, if OpenOf(events) == [] then None
                                 else Some(OwnOf(events, OpenOf(events)[|OpenOf(events)|-1])))
  {
    hide Honest, OpenOf, OwnOf, FreshFrame, LastSerial;
  }

  lemma {:induction false} EntryTakes(lane: Lane, d: Window, n: nat, t: N.Trace<LaneState, Frame, Event>, ev: Event,
      open: seq<nat>)
    requires G.SameIds(t.stack, open) && ev.kind.RouterEntry?
    ensures N.Step(Decoder(lane, d), n, t, ev).Some? <==>
            LaneCheck(lane, d, t.lane, ev).Some? && SerialOf(ev) > t.lastId && |open| < 8 && Open(N.TopFrame(t), ev).Some?
  {
    G.StepTakes(Decoder(lane, d), n, t, ev, open);
    hide LaneCheck, Step, Open, N.Step;
  }

  lemma {:induction false} TopIs(t: N.Trace<LaneState, Frame, Event>)
    ensures N.TopFrame(t) == if t.stack == [] then None else Some(t.stack[|t.stack|-1].frame)
  {
  }

  /** An entry after an accepted beginning. */
  lemma {:induction false} EntryFits(lane: Lane, d: Window, events: seq<Event>, ev: Event)
    requires N.Run(Decoder(lane, d), START, events).Some? && ev.kind.RouterEntry?
    ensures N.Run(Decoder(lane, d), START, events + [ev]).Some? <==> Fits(lane, d, events, ev)
  {
    hide *;
    var m, open := Decoder(lane, d), OpenOf(events);
    var t := N.Run(m, START, events).value;
    var outer := if open == [] then None else Some(OwnOf(events, open[|open|-1]));
    G.RunOneMore(m, START, events, ev);
    StackLength(lane, d, events);
    EntryTakes(lane, d, |events|, t, ev, open);
    StateAlways(lane, d, events);
    CheckExactly(lane, d, events, t.lane, ev);
    TopIs(t);
    if open != [] { StackShown(lane, d, events, |open| - 1); }
    OpensFresh(ev, N.TopFrame(t), outer);
    EntryMeans(lane, d, events, ev);
  }

  lemma {:induction false} InnerMeans(lane: Lane, d: Window, events: seq<Event>, ev: Event)
    requires !ev.kind.RouterEntry?
    ensures Fits(lane, d, events, ev) <==>
            LaneFits(lane, d, events, ev) && OpenOf(events) != [] && OpenOf(events)[|OpenOf(events)|-1] == SerialOf(ev) &&
            OwnOf(events, SerialOf(ev)) != [] &&
            Follows(OwnOf(events, SerialOf(ev))[|OwnOf(events, SerialOf(ev))|-1], ev)
  {
    hide Honest, OpenOf, OwnOf, Follows, MetaOf;
  }

  lemma {:induction false} InnerTakes(lane: Lane, d: Window, n: nat, t: N.Trace<LaneState, Frame, Event>, ev: Event,
      open: seq<nat>)
    requires G.SameIds(t.stack, open) && !ev.kind.RouterEntry?
    ensures N.Step(Decoder(lane, d), n, t, ev).Some? <==>
            LaneCheck(lane, d, t.lane, ev).Some? && open != [] && open[|open|-1] == SerialOf(ev) &&
            Step(t.stack[|t.stack|-1].frame, ev).Some?
  {
    G.StepTakes(Decoder(lane, d), n, t, ev, open);
    hide LaneCheck, Step, Open, N.Step;
  }

  /** Any other event after an accepted beginning. */
  lemma {:induction false} InnerFits(lane: Lane, d: Window, events: seq<Event>, ev: Event)
    requires N.Run(Decoder(lane, d), START, events).Some? && !ev.kind.RouterEntry?
    ensures N.Run(Decoder(lane, d), START, events + [ev]).Some? <==> Fits(lane, d, events, ev)
  {
    hide *;
    var m, open := Decoder(lane, d), OpenOf(events);
    var t := N.Run(m, START, events).value;
    G.RunOneMore(m, START, events, ev);
    StackLength(lane, d, events);
    InnerTakes(lane, d, |events|, t, ev, open);
    StateAlways(lane, d, events);
    CheckExactly(lane, d, events, t.lane, ev);
    InnerMeans(lane, d, events, ev);
    if open != [] {
      StackShown(lane, d, events, |open| - 1);
      var own := OwnOf(events, open[|open|-1]);
      StepFollows(own[|own|-1], ev);
    }
  }

  /** NEXT. After an accepted beginning the decoder takes exactly the events that fit. */
  lemma {:induction false} NextFits(lane: Lane, d: Window, events: seq<Event>, ev: Event)
    requires N.Run(Decoder(lane, d), START, events).Some?
    ensures N.Run(Decoder(lane, d), START, events + [ev]).Some? <==> Fits(lane, d, events, ev)
  {
    hide *;
    if ev.kind.RouterEntry? { EntryFits(lane, d, events, ev); } else { InnerFits(lane, d, events, ev); }
  }

  ghost predicate AllFit(lane: Lane, d: Window, events: seq<Event>) {
    forall i :: 0 <= i < |events| ==> Fits(lane, d, events[..i], events[i])
  }

  lemma {:induction false} AllFitSnoc(lane: Lane, d: Window, events: seq<Event>)
    requires events != []
    ensures AllFit(lane, d, events) <==>
            AllFit(lane, d, events[..|events|-1]) && Fits(lane, d, events[..|events|-1], events[|events|-1])
  {
    hide Fits;
    var front := events[..|events|-1];
    assert forall i :: 0 <= i < |front| ==> front[i] == events[i] && front[..i] == events[..i];
  }

  lemma {:induction false} RunsExactly(lane: Lane, d: Window, events: seq<Event>)
    ensures N.Run(Decoder(lane, d), START, events).Some? <==> AllFit(lane, d, events)
  {
    if events == [] {
    } else {
      hide *;
      var front, ev := events[..|events|-1], events[|events|-1];
      RunsExactly(lane, d, front);
      AllFitSnoc(lane, d, events);
      assert front + [ev] == events;
      if N.Run(Decoder(lane, d), START, front).Some? { NextFits(lane, d, front, ev); }
      G.RunOneMore(Decoder(lane, d), START, front, ev);
    }
  }

  /** The recorded pending frames: the last snapshot of each open dispatch. */
  ghost predicate PendingAre(lane: Lane) {
    var open := OpenOf(lane.events);
    |lane.pending| == |open| &&
    forall k :: 0 <= k < |open| ==>
      OwnOf(lane.events, open[k]) != [] &&
      lane.pending[k] == OwnOf(lane.events, open[k])[|OwnOf(lane.events, open[k])|-1].frame
  }

  /** Each open frame is the last snapshot of its dispatch. */
  ghost predicate Lasts(lane: Lane, stack: seq<N.Live<Frame, Event>>) {
    var open := OpenOf(lane.events);
    |stack| == |open| &&
    forall k :: 0 <= k < |open| ==>
      OwnOf(lane.events, open[k]) != [] &&
      stack[k].frame == OwnOf(lane.events, open[k])[|OwnOf(lane.events, open[k])|-1].frame
  }

  lemma {:induction false} StackLasts(lane: Lane, d: Window)
    requires Replayed(lane, d).Some?
    ensures Lasts(lane, Replayed(lane, d).value.stack)
  {
    var stack, open := Replayed(lane, d).value.stack, OpenOf(lane.events);
    hide N.Run, Decoder, OwnOf, OpenOf, G.SameIds;
    StackLength(lane, d, lane.events);
    forall k | 0 <= k < |open|
      ensures OwnOf(lane.events, open[k]) != [] &&
              stack[k].frame == OwnOf(lane.events, open[k])[|OwnOf(lane.events, open[k])|-1].frame
    {
      StackShown(lane, d, lane.events, k);
    }
  }

  lemma {:induction false} LastsPend(lane: Lane, stack: seq<N.Live<Frame, Event>>)
    requires Lasts(lane, stack)
    ensures lane.pending == Frames(stack) <==> PendingAre(lane)
  {
    hide OwnOf, OpenOf;
    if PendingAre(lane) { assert forall k :: 0 <= k < |stack| ==> lane.pending[k] == stack[k].frame; }
  }

  lemma {:induction false} PendingExactly(lane: Lane, d: Window)
    requires Replayed(lane, d).Some?
    ensures lane.pending == Frames(Replayed(lane, d).value.stack) <==> PendingAre(lane)
  {
    StackLasts(lane, d);
    hide *;
    LastsPend(lane, Replayed(lane, d).value.stack);
  }

  /** LANES. A router lane is accepted exactly when each of its events fits after those before it and the
      recorded pending frames are the last snapshots of the open dispatches. */
  lemma {:induction false} LaneExactly(lane: Lane, d: Window)
    ensures Accepted(lane, d) <==> AllFit(lane, d, lane.events) && PendingAre(lane)
  {
    RunsExactly(lane, d, lane.events);
    if Replayed(lane, d).Some? { PendingExactly(lane, d); }
    hide N.Run, AllFit, PendingAre, Decoder, Frames;
  }
}
