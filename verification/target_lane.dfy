/** Which vector-target lanes the decoder accepts, said over the lane's entries and events alone. */
module TargetLane {
  import opened Options
  import opened VectorTarget
  import opened TargetLanguage
  import N = NestedReplay
  import G = NestedLanguage
  import F = TargetFrames

  // ------------------------------------------------------------- what events determine

  function Admissions(events: seq<Event>): nat {
    if events == [] then 0 else Admissions(events[..|events|-1]) + if events[|events|-1].kind.Admission? then 1 else 0
  }

  /** The lexical flag the entry at this position was admitted with. */
  function FlagOf(events: seq<Event>, index: nat): bool {
    if events == [] then false
    else if events[|events|-1].kind.Admission? && events[|events|-1].index == index then events[|events|-1].parentAdmitted
    else FlagOf(events[..|events|-1], index)
  }

  /** The events of one entry, in lane order. */
  function OwnOf(events: seq<Event>, index: nat): seq<Event> {
    if events == [] then []
    else
      var rest := OwnOf(events[..|events|-1], index);
      if events[|events|-1].index == index then rest + [events[|events|-1]] else rest
  }

  /** The entries admitted and not yet closed, outermost first. */
  function OpenOf(events: seq<Event>): seq<nat> {
    if events == [] then []
    else
      var before, ev := OpenOf(events[..|events|-1]), events[|events|-1];
      if ev.kind.Admission? then before + [ev.index]
      else if (ev.kind.BodyReturn? || ev.kind.BodyThrow?) && before != [] then before[..|before|-1]
      else before
  }

  // --------------------------------------------------------------- when an event fits

  /** The event names an entry of this lane, by its position and its identity; a mismatched binding was
      recorded as a failure. */
  predicate Named(lane: Lane, d: Window, ev: Event) {
    ev.index < |lane.entries| &&
    var e := lane.entries[ev.index];
    && ev.invocation == e.own && e.thread == lane.thread
    && e.own.epoch == lane.epoch > 0 && e.work.epoch == lane.workEpoch > 0 && e.own.serial > 0 && e.work.serial > 0
    && (ev.bindingMatches || (d.observerFailed && d.mismatched))
  }

  /** A taken clock is in the window and no earlier than any before it; a missing one was recorded. */
  ghost predicate Clocked(d: Window, events: seq<Event>, ev: Event) {
    if ev.clockValid then
      && 0 < ev.qpc <= 0x7FFF_FFFF_FFFF_FFFF && d.begin <= ev.qpc && (!d.clockFailed ==> ev.qpc <= d.freeze)
      && (ev.kind.Admission? ==> ev.qpc < d.end)
      && (forall x :: x in events && x.clockValid ==> x.qpc <= ev.qpc)
    else d.clockFailed && d.observerFailed
  }

  /** After the entry before it: a later own serial and parent event, and within one work body the
      same work entry and a lower ordinal. */
  predicate After(lane: Lane, index: nat)
    requires index < |lane.entries|
  {
    if index == 0 then lane.entries[0].parentEvent > 0
    else
      var e, p := lane.entries[index], lane.entries[index-1];
      && e.own.serial > p.own.serial && e.work.serial >= p.work.serial && e.parentEvent > p.parentEvent
      && (e.work.serial == p.work.serial ==> e.workEntry == p.workEntry && e.ordinal < p.ordinal)
  }

  /** An admission is the next entry's, bound and clocked, and samples nothing. */
  ghost predicate Admitted(lane: Lane, d: Window, events: seq<Event>, ev: Event)
    requires ev.index < |lane.entries|
  {
    && ev.index == Admissions(events) && ev.clockValid && ev.bindingMatches
    && ev.fields == [0, 0, 0, 0] && ev.vector == [0, 0, 0, 0] && ev.site == 0 && After(lane, ev.index)
    && (d.lossless ==> lane.entries[ev.index].own.serial ==
                         if ev.index == 0 then 1 else lane.entries[ev.index-1].own.serial + 1)
  }

  /** What the lane as a whole asks of its next event. */
  ghost predicate LaneFits(lane: Lane, d: Window, events: seq<Event>, ev: Event) {
    Named(lane, d, ev) && Clocked(d, events, ev) &&
    if ev.kind.Admission? then Admitted(lane, d, events, ev) else SameFlag(lane, events, ev)
  }

  /** The entry was admitted with this event's lexical flag. */
  ghost predicate SameFlag(lane: Lane, events: seq<Event>, ev: Event)
    requires ev.index < |lane.entries|
  {
    exists i :: 0 <= i < Admissions(events) && i < |lane.entries| && lane.entries[i].own == lane.entries[ev.index].own &&
      FlagOf(events, i) == ev.parentAdmitted
  }

  // --------------------------------------------------- the lane state is what they determine

  ghost predicate Serials(lane: Lane, events: seq<Event>, l: LaneState) {
    && l.entered == Admissions(events) <= |lane.entries|
    && (l.entered == 0 ==> l.own == 0 && l.work == 0 && l.parentEvent == 0)
    && (l.entered > 0 ==>
          var e := lane.entries[l.entered-1];
          l.own == e.own.serial && l.work == e.work.serial && l.parentEvent == e.parentEvent)
    && (forall i, k :: 0 <= i < k < l.entered ==> lane.entries[i].own.serial < lane.entries[k].own.serial)
  }

  ghost predicate Latest(events: seq<Event>, clock: nat) {
    && (forall x :: x in events && x.clockValid ==> x.qpc <= clock)
    && (clock == 0 || exists x :: x in events && x.clockValid && x.qpc == clock)
  }

  ghost predicate FlagsAre(lane: Lane, events: seq<Event>, n: nat, lexical: map<Id, bool>)
    requires n <= |lane.entries|
  {
    && (forall id :: id in lexical <==> exists i :: 0 <= i < n && lane.entries[i].own == id)
    && (forall i :: 0 <= i < n ==> lane.entries[i].own in lexical && lexical[lane.entries[i].own] == FlagOf(events, i))
  }

  ghost predicate StateIs(lane: Lane, events: seq<Event>, l: LaneState) {
    Serials(lane, events, l) && Latest(events, l.clock) && FlagsAre(lane, events, l.entered, l.lexical)
  }

  lemma {:induction false} StateStarts(lane: Lane)
    ensures StateIs(lane, [], START)
  {
  }

  lemma {:induction false} ClockExactly(d: Window, events: seq<Event>, last: nat, ev: Event)
    requires Latest(events, last)
    ensures Clock(d, last, ev).Some? <==> Clocked(d, events, ev)
    ensures Clock(d, last, ev).Some? ==> Latest(events + [ev], Clock(d, last, ev).value)
  {
  }

  lemma {:induction false} AdmittedExactly(lane: Lane, d: Window, events: seq<Event>, l: LaneState, ev: Event)
    requires Serials(lane, events, l) && l.entered <= |lane.entries| && ev.kind.Admission? && Named(lane, d, ev)
    ensures Admits(lane, d, l, ev) <==> Admitted(lane, d, events, ev)
  {
    hide Admissions;
  }

  lemma {:induction false} CheckMeans(lane: Lane, d: Window, l: LaneState, ev: Event)
    ensures LaneCheck(lane, d, l, ev).Some? <==>
            Named(lane, d, ev) && Clock(d, l.clock, ev).Some? &&
            if ev.kind.Admission? then Admits(lane, d, l, ev)
            else lane.entries[ev.index].own in l.lexical && l.lexical[lane.entries[ev.index].own] == ev.parentAdmitted
    ensures Named(lane, d, ev) ==> ev.index < |lane.entries|
  {
    hide Clock, Admits;
  }

  lemma {:induction false} FlagExactly(lane: Lane, events: seq<Event>, l: LaneState, ev: Event)
    requires Serials(lane, events, l) && l.entered <= |lane.entries| && FlagsAre(lane, events, l.entered, l.lexical)
    requires ev.index < |lane.entries|
    ensures lane.entries[ev.index].own in l.lexical && l.lexical[lane.entries[ev.index].own] == ev.parentAdmitted <==>
            SameFlag(lane, events, ev)
  {
    hide FlagOf, Admissions;
  }

  /** The lane's checks pass exactly when the event fits after those before it. */
  lemma {:induction false} CheckExactly(lane: Lane, d: Window, events: seq<Event>, l: LaneState, ev: Event)
    requires StateIs(lane, events, l)
    ensures LaneCheck(lane, d, l, ev).Some? <==> LaneFits(lane, d, events, ev)
  {
    hide Clock, Clocked, Admits, Admitted, Latest, Named, LaneCheck, Serials, FlagsAre, SameFlag, StateIs;
    CheckMeans(lane, d, l, ev);
    StateParts(lane, events, l);
    ClockExactly(d, events, l.clock, ev);
    if Named(lane, d, ev) {
      if ev.kind.Admission? { AdmittedExactly(lane, d, events, l, ev); } else { FlagExactly(lane, events, l, ev); }
    }
  }

  lemma {:induction false} FlagSnoc(events: seq<Event>, ev: Event, index: nat)
    ensures FlagOf(events + [ev], index) ==
            if ev.kind.Admission? && ev.index == index then ev.parentAdmitted else FlagOf(events, index)
    ensures Admissions(events + [ev]) == Admissions(events) + if ev.kind.Admission? then 1 else 0
  {
    assert (events + [ev])[..|events|] == events;
  }

  lemma {:induction false} FlagsNext(lane: Lane, events: seq<Event>, ev: Event, n: nat, lexical: map<Id, bool>)
    requires n < |lane.entries| && FlagsAre(lane, events, n, lexical)
    requires ev.kind.Admission? && ev.index == n
    requires forall i :: 0 <= i < n ==> lane.entries[i].own != lane.entries[n].own
    ensures FlagsAre(lane, events + [ev], n + 1, lexical[lane.entries[n].own := ev.parentAdmitted])
  {
    forall i: nat ensures FlagOf(events + [ev], i) == if i == n then ev.parentAdmitted else FlagOf(events, i) {
      FlagSnoc(events, ev, i);
    }
    hide FlagOf;
  }

  lemma {:induction false} FlagsStay(lane: Lane, events: seq<Event>, ev: Event, n: nat, lexical: map<Id, bool>)
    requires n <= |lane.entries| && FlagsAre(lane, events, n, lexical) && !ev.kind.Admission?
    ensures FlagsAre(lane, events + [ev], n, lexical)
  {
    forall i: nat ensures FlagOf(events + [ev], i) == FlagOf(events, i) { FlagSnoc(events, ev, i); }
    hide FlagOf;
  }

  lemma {:induction false} SerialsNext(lane: Lane, d: Window, events: seq<Event>, l: LaneState, ev: Event)
    requires Serials(lane, events, l) && LaneCheck(lane, d, l, ev).Some?
    ensures var next := LaneCheck(lane, d, l, ev).value;
            Serials(lane, events + [ev], next) && next.entered == l.entered + (if ev.kind.Admission? then 1 else 0) &&
            (ev.kind.Admission? ==> l.entered < |lane.entries| && ev.index == l.entered) &&
            (ev.kind.Admission? ==>
               forall i :: 0 <= i < l.entered ==> lane.entries[i].own.serial < lane.entries[l.entered].own.serial)
  {
    FlagSnoc(events, ev, 0);
    hide Clock, FlagOf, Admissions;
    if ev.kind.Admission? && l.entered > 0 {
      forall i | 0 <= i < l.entered ensures lane.entries[i].own.serial < lane.entries[l.entered].own.serial {
        if i < l.entered - 1 { assert lane.entries[i].own.serial < lane.entries[l.entered-1].own.serial; }
      }
    }
  }

  /** What passing the lane's checks changes. */
  lemma {:induction false} CheckResult(lane: Lane, d: Window, l: LaneState, ev: Event)
    requires LaneCheck(lane, d, l, ev).Some?
    ensures ev.index < |lane.entries| && Clock(d, l.clock, ev).Some?
    ensures var next := LaneCheck(lane, d, l, ev).value;
            && next.clock == Clock(d, l.clock, ev).value
            && next.lexical ==
                 if ev.kind.Admission? then l.lexical[lane.entries[ev.index].own := ev.parentAdmitted] else l.lexical
  {
    hide Clock, Admits;
  }

  lemma {:induction false} StateParts(lane: Lane, events: seq<Event>, l: LaneState)
    ensures StateIs(lane, events, l) <==>
            Serials(lane, events, l) && Latest(events, l.clock) && l.entered <= |lane.entries| &&
            FlagsAre(lane, events, l.entered, l.lexical)
  {
    hide Latest, FlagsAre;
  }

  lemma {:induction false} SerialsBound(lane: Lane, events: seq<Event>, l: LaneState)
    requires Serials(lane, events, l)
    ensures l.entered == Admissions(events) <= |lane.entries|
  {
  }

  lemma {:induction false} StateNext(lane: Lane, d: Window, events: seq<Event>, l: LaneState, ev: Event)
    requires StateIs(lane, events, l) && LaneCheck(lane, d, l, ev).Some?
    ensures StateIs(lane, events + [ev], LaneCheck(lane, d, l, ev).value)
  {
    hide *;
    var next := LaneCheck(lane, d, l, ev).value;
    StateParts(lane, events, l);
    SerialsNext(lane, d, events, l, ev);
    SerialsBound(lane, events + [ev], next);
    CheckResult(lane, d, l, ev);
    ClockExactly(d, events, l.clock, ev);
    if ev.kind.Admission? {
      FlagsNext(lane, events, ev, l.entered, l.lexical);
    } else {
      FlagsStay(lane, events, ev, l.entered, l.lexical);
    }
    StateParts(lane, events + [ev], next);
  }

  lemma {:induction false} LaneIs(lane: Lane, d: Window, l: LaneState, ev: Event)
    ensures Decoder(lane, d).lane(l, ev) == LaneCheck(lane, d, l, ev)
  {
  }

  lemma {:induction false} IdMoves(lane: Lane, d: Window, n: nat, t: N.Trace<LaneState, Frame, Event>, ev: Event,
      next: N.Trace<LaneState, Frame, Event>)
    requires N.Moves(Decoder(lane, d), n, t, ev, next)
    ensures next.lastId == if ev.kind.Admission? then ev.index + 1 else t.lastId
  {
  }

  lemma {:induction false} StateMoves(lane: Lane, d: Window, events: seq<Event>, t: N.Trace<LaneState, Frame, Event>,
      ev: Event, next: N.Trace<LaneState, Frame, Event>)
    requires StateIs(lane, events, t.lane) && t.lastId == t.lane.entered
    requires N.Moves(Decoder(lane, d), |events|, t, ev, next) && LaneCheck(lane, d, t.lane, ev) == Some(next.lane)
    ensures StateIs(lane, events + [ev], next.lane) && next.lastId == next.lane.entered
  {
    hide *;
    StateNext(lane, d, events, t.lane, ev);
    StateParts(lane, events, t.lane);
    SerialsNext(lane, d, events, t.lane, ev);
    IdMoves(lane, d, |events|, t, ev, next);
  }

  lemma {:induction false} RunStarts(lane: Lane, d: Window)
    ensures N.Run(Decoder(lane, d), START, []).Some?
    ensures var t := N.Run(Decoder(lane, d), START, []).value;
            StateIs(lane, [], t.lane) && t.lastId == t.lane.entered
  {
    StateStarts(lane);
    hide StateIs, Decoder;
  }

  lemma {:induction false} StateAlways(lane: Lane, d: Window, events: seq<Event>)
    requires N.Run(Decoder(lane, d), START, events).Some?
    ensures var t := N.Run(Decoder(lane, d), START, events).value;
            StateIs(lane, events, t.lane) && t.lastId == t.lane.entered
  {
    hide *;
    if events == [] {
      RunStarts(lane, d);
    } else {
      var m, front, ev := Decoder(lane, d), events[..|events|-1], events[|events|-1];
      N.RunSnoc(m, START, events);
      StateAlways(lane, d, front);
      var t := N.Run(m, START, front).value;
      N.StepMoves(m, |front|, t, ev);
      LaneIs(lane, d, t.lane, ev);
      StateMoves(lane, d, front, t, ev, N.Run(m, START, events).value);
      assert events == front + [ev];
    }
  }

  // ---------------------------------------------------------------------- the stack

  lemma {:induction false} PhaseMeans(ev: Event)
    ensures PhaseOf(ev.kind).Opens? <==> ev.kind.Admission?
    ensures PhaseOf(ev.kind).Closes? <==> ev.kind.BodyReturn? || ev.kind.BodyThrow?
  {
  }

  lemma {:induction false} OwnIsOwn(lane: Lane, d: Window, events: seq<Event>, index: nat)
    ensures N.Own(Decoder(lane, d), events, index + 1) == OwnOf(events, index)
  {
    if events != [] {
      OwnIsOwn(lane, d, events[..|events|-1], index);
      assert Decoder(lane, d).id(events[|events|-1]) == events[|events|-1].index + 1;
    }
  }

  /** The identity a body's frame records as the one it runs under. */
  function ParentOf(lane: Lane, open: seq<nat>, k: nat): Id
    requires k <= |open|
  {
    if k > 0 && open[k-1] < |lane.entries| then lane.entries[open[k-1]].own else NO_ID
  }

  /** Each open body's frame names its own entry and the body it was admitted inside. */
  ghost predicate Parented(lane: Lane, stack: seq<N.Live<Frame, Event>>, open: seq<nat>) {
    |stack| == |open| && forall k :: 0 <= k < |stack| ==>
      stack[k].id == open[k] + 1 && stack[k].frame.index == open[k] && stack[k].frame.parent == ParentOf(lane, open, k)
  }

  /** How one event moves the names of the open frames. */
  ghost predicate Shifts(lane: Lane, stack: seq<N.Live<Frame, Event>>, ev: Event, next: seq<N.Live<Frame, Event>>) {
    if ev.kind.Admission? then
      && |next| == |stack| + 1 && (forall k :: 0 <= k < |stack| ==> next[k] == stack[k])
      && var x := next[|stack|];
         && x.id == ev.index + 1 && x.frame.index == ev.index
         && x.frame.parent ==
              if stack != [] && stack[|stack|-1].frame.index < |lane.entries|
              then lane.entries[stack[|stack|-1].frame.index].own else NO_ID
    else
      && stack != []
      && (forall k :: 0 <= k < |stack| - 1 && k < |next| ==> next[k] == stack[k])
      && if ev.kind.BodyReturn? || ev.kind.BodyThrow? then |next| == |stack| - 1
         else
           var k := |stack| - 1;
           && |next| == |stack| && next[k].id == stack[k].id
           && next[k].frame.index == stack[k].frame.index && next[k].frame.parent == stack[k].frame.parent
  }

  lemma {:induction false} StackShifts(lane: Lane, d: Window, n: nat, t: N.Trace<LaneState, Frame, Event>, ev: Event,
      next: N.Trace<LaneState, Frame, Event>)
    requires N.Moves(Decoder(lane, d), n, t, ev, next)
    ensures Shifts(lane, t.stack, ev, next.stack)
  {
    PhaseMeans(ev);
    if !ev.kind.Admission? && t.stack != [] {
      var top := t.stack[|t.stack|-1];
      if StepIn(lane, top.frame, ev).Some? { StepKeepsName(top.frame, ev, lane.entries[ev.index]); }
    }
    hide LaneCheck, Step;
  }

  lemma {:induction false} ShiftsParented(lane: Lane, stack: seq<N.Live<Frame, Event>>, ev: Event,
      next: seq<N.Live<Frame, Event>>, open: seq<nat>)
    requires Parented(lane, stack, open) && Shifts(lane, stack, ev, next)
    ensures Parented(lane, next,
                     if ev.kind.Admission? then open + [ev.index]
                     else if (ev.kind.BodyReturn? || ev.kind.BodyThrow?) && open != [] then open[..|open|-1] else open)
  {
    var now := if ev.kind.Admission? then open + [ev.index]
               else if (ev.kind.BodyReturn? || ev.kind.BodyThrow?) && open != [] then open[..|open|-1] else open;
    forall k | 0 <= k < |next|
      ensures next[k].id == now[k] + 1 && next[k].frame.index == now[k] && next[k].frame.parent == ParentOf(lane, now, k)
    {
      if k < |stack| { assert now[k] == open[k] && ParentOf(lane, now, k) == ParentOf(lane, open, k); }
    }
  }

  lemma {:induction false} ParentedNext(lane: Lane, d: Window, n: nat, t: N.Trace<LaneState, Frame, Event>, ev: Event,
      next: N.Trace<LaneState, Frame, Event>, open: seq<nat>)
    requires Parented(lane, t.stack, open) && N.Moves(Decoder(lane, d), n, t, ev, next)
    ensures Parented(lane, next.stack,
                     if ev.kind.Admission? then open + [ev.index]
                     else if (ev.kind.BodyReturn? || ev.kind.BodyThrow?) && open != [] then open[..|open|-1] else open)
  {
    hide *;
    StackShifts(lane, d, n, t, ev, next);
    ShiftsParented(lane, t.stack, ev, next.stack, open);
  }

  lemma {:induction false} OpenSnoc(events: seq<Event>)
    requires events != []
    ensures var open, ev := OpenOf(events[..|events|-1]), events[|events|-1];
            OpenOf(events) ==
            if ev.kind.Admission? then open + [ev.index]
            else if (ev.kind.BodyReturn? || ev.kind.BodyThrow?) && open != [] then open[..|open|-1] else open
  {
  }

  lemma {:induction false} StackParented(lane: Lane, d: Window, events: seq<Event>)
    requires N.Run(Decoder(lane, d), START, events).Some?
    ensures Parented(lane, N.Run(Decoder(lane, d), START, events).value.stack, OpenOf(events))
  {
    if events == [] {
    } else {
      hide *;
      var m, front, ev := Decoder(lane, d), events[..|events|-1], events[|events|-1];
      N.RunSnoc(m, START, events);
      StackParented(lane, d, front);
      var t := N.Run(m, START, front).value;
      N.StepMoves(m, |events| - 1, t, ev);
      ParentedNext(lane, d, |events| - 1, t, ev, N.Run(m, START, events).value, OpenOf(front));
      OpenSnoc(events);
    }
  }

  /** Each open body's events are its own. */
  lemma {:induction false} StackOwn(lane: Lane, d: Window, events: seq<Event>, k: nat)
    requires N.Run(Decoder(lane, d), START, events).Some? && k < |OpenOf(events)|
    ensures var stack := N.Run(Decoder(lane, d), START, events).value.stack;
            k < |stack| && stack[k].id == OpenOf(events)[k] + 1 && stack[k].events == OwnOf(events, OpenOf(events)[k])
  {
    var m := Decoder(lane, d);
    var t := N.Run(m, START, events).value;
    hide N.Run, Decoder, OwnOf, N.Own, OpenOf, N.Apart;
    StackParented(lane, d, events);
    N.OwnHistories(m, START, events);
    OwnIsOwn(lane, d, events, OpenOf(events)[k]);
    assert t.stack[k].events == N.Own(m, events, t.stack[k].id);
  }

  lemma {:induction false} StackLength(lane: Lane, d: Window, events: seq<Event>)
    requires N.Run(Decoder(lane, d), START, events).Some?
    ensures |N.Run(Decoder(lane, d), START, events).value.stack| == |OpenOf(events)|
  {
    hide N.Run, Decoder, OpenOf;
    StackParented(lane, d, events);
  }

  // ------------------------------------------------------------------- the whole lane

  /** The next event of a lane that was accepted so far: the lane's own checks, room for an admission
      under an open body if it claims one, or the next event of the innermost open body. */
  ghost predicate Fits(lane: Lane, d: Window, events: seq<Event>, ev: Event) {
    LaneFits(lane, d, events, ev) &&
    var open := OpenOf(events);
    if ev.kind.Admission? then |open| < 8 && (ev.parentAdmitted ==> open != [])
    else open != [] && open[|open|-1] == ev.index && ev.index < |lane.entries| && OwnOf(events, ev.index) != [] &&
         Continues(OwnOf(events, ev.index)[1..], ev, lane.entries[ev.index])
  }

  lemma {:induction false} OpenTakes(lane: Lane, d: Window, l: LaneState, top: Option<Frame>, ev: Event)
    ensures Decoder(lane, d).open(l, top, ev).Some? <==> (ev.parentAdmitted ==> top.Some?)
    ensures Decoder(lane, d).depth == 8 && Decoder(lane, d).id(ev) == ev.index + 1
    ensures Decoder(lane, d).phase(ev).Opens? <==> ev.kind.Admission?
  {
  }

  lemma {:induction false} OpenIdsSame(lane: Lane, d: Window, events: seq<Event>)
    requires N.Run(Decoder(lane, d), START, events).Some?
    ensures |G.OpenIds(Decoder(lane, d), events)| == |N.Run(Decoder(lane, d), START, events).value.stack|
  {
    hide N.Run, Decoder, G.OpenIds;
    G.StackIsOpen(Decoder(lane, d), START, events);
  }

  lemma {:induction false} AdmissionMeans(lane: Lane, d: Window, events: seq<Event>, ev: Event)
    requires ev.kind.Admission?
    ensures Fits(lane, d, events, ev) <==>
            LaneFits(lane, d, events, ev) && |OpenOf(events)| < 8 && (ev.parentAdmitted ==> OpenOf(events) != [])
    ensures LaneFits(lane, d, events, ev) ==> ev.index == Admissions(events)
  {
    hide OpenOf, OwnOf, Continues;
  }

  /** An admission after an accepted beginning. */
  lemma {:induction false} AdmissionFits(lane: Lane, d: Window, events: seq<Event>, ev: Event)
    requires N.Run(Decoder(lane, d), START, events).Some? && ev.kind.Admission?
    ensures N.Run(Decoder(lane, d), START, events + [ev]).Some? <==> Fits(lane, d, events, ev)
  {
    var m := Decoder(lane, d);
    var t := N.Run(m, START, events).value;
    hide N.Run, N.Step, Decoder, LaneCheck, StateIs, G.OpenIds, OpenOf, LaneFits, G.SameIds, Fits, Serials;
    G.RunOneMore(m, START, events, ev);
    G.StackIsOpen(m, START, events);
    G.StepTakes(m, |events|, t, ev, G.OpenIds(m, events));
    OpenIdsSame(lane, d, events);
    StackLength(lane, d, events);
    StateAlways(lane, d, events);
    CheckExactly(lane, d, events, t.lane, ev);
    LaneIs(lane, d, t.lane, ev);
    OpenTakes(lane, d, if m.lane(t.lane, ev).Some? then m.lane(t.lane, ev).value else t.lane, N.TopFrame(t), ev);
    StateParts(lane, events, t.lane);
    SerialsBound(lane, events, t.lane);
    AdmissionMeans(lane, d, events, ev);
  }

  lemma {:induction false} InnerMeans(lane: Lane, d: Window, events: seq<Event>, ev: Event)
    requires !ev.kind.Admission?
    ensures LaneFits(lane, d, events, ev) ==> ev.index < |lane.entries|
    ensures Fits(lane, d, events, ev) <==>
            LaneFits(lane, d, events, ev) && OpenOf(events) != [] &&
            OpenOf(events)[|OpenOf(events)|-1] == ev.index && ev.index < |lane.entries| && OwnOf(events, ev.index) != [] &&
            Continues(OwnOf(events, ev.index)[1..], ev, lane.entries[ev.index])
  {
    hide OpenOf, OwnOf, Continues;
  }

  lemma {:induction false} UnnamedFails(lane: Lane, d: Window, events: seq<Event>, ev: Event)
    requires N.Run(Decoder(lane, d), START, events).Some? && ev.index >= |lane.entries|
    ensures N.Run(Decoder(lane, d), START, events + [ev]).None?
  {
    var t := N.Run(Decoder(lane, d), START, events).value;
    G.RunOneMore(Decoder(lane, d), START, events, ev);
    CheckNeedsEntry(lane, d, t.lane, ev);
    hide N.Run, Decoder;
  }

  /** Any other event after an accepted beginning. */
  lemma {:induction false} InnerFits(lane: Lane, d: Window, events: seq<Event>, ev: Event)
    requires N.Run(Decoder(lane, d), START, events).Some? && !ev.kind.Admission?
    ensures N.Run(Decoder(lane, d), START, events + [ev]).Some? <==> Fits(lane, d, events, ev)
  {
    hide *;
    InnerMeans(lane, d, events, ev);
    if ev.index >= |lane.entries| {
      UnnamedFails(lane, d, events, ev);
    } else {
      var t := N.Run(Decoder(lane, d), START, events).value;
      NextAccepted(lane, d, events, ev);
      StateAlways(lane, d, events);
      CheckExactly(lane, d, events, t.lane, ev);
      StackLength(lane, d, events);
      if t.stack != [] { StackOwn(lane, d, events, |t.stack| - 1); }
    }
  }

  /** NEXT. After an accepted beginning the decoder takes exactly the events that fit. */
  lemma {:induction false} NextFits(lane: Lane, d: Window, events: seq<Event>, ev: Event)
    requires N.Run(Decoder(lane, d), START, events).Some?
    ensures N.Run(Decoder(lane, d), START, events + [ev]).Some? <==> Fits(lane, d, events, ev)
  {
    hide *;
    if ev.kind.Admission? { AdmissionFits(lane, d, events, ev); } else { InnerFits(lane, d, events, ev); }
  }

  ghost predicate AllFit(lane: Lane, d: Window, events: seq<Event>) {
    forall i :: 0 <= i < |events| ==> Fits(lane, d, events[..i], events[i])
  }

  lemma {:induction false} AllFitSnoc(lane: Lane, d: Window, events: seq<Event>)
    requires events != []
    ensures AllFit(lane, d, events) <==>
            AllFit(lane, d, events[..|events|-1]) && Fits(lane, d, events[..|events|-1], events[|events|-1])
  {
    hide Fits;
    var front := events[..|events|-1];
    assert forall i :: 0 <= i < |front| ==> front[i] == events[i] && front[..i] == events[..i];
  }

  lemma {:induction false} RunsExactly(lane: Lane, d: Window, events: seq<Event>)
    ensures N.Run(Decoder(lane, d), START, events).Some? <==> AllFit(lane, d, events)
  {
    if events == [] {
    } else {
      hide *;
      var front, ev := events[..|events|-1], events[|events|-1];
      RunsExactly(lane, d, front);
      AllFitSnoc(lane, d, events);
      assert front + [ev] == events;
      if N.Run(Decoder(lane, d), START, front).Some? { NextFits(lane, d, front, ev); }
      G.RunOneMore(Decoder(lane, d), START, front, ev);
    }
  }

  /** The recorded pending frames: one for each open body, read off its own events. */
  ghost predicate PendingAre(lane: Lane) {
    var open := OpenOf(lane.events);
    |lane.pending| == |open| &&
    forall k :: 0 <= k < |open| ==>
      open[k] < |lane.entries| && OwnOf(lane.events, open[k]) != [] &&
      lane.pending[k] == F.FrameOf(open[k], ParentOf(lane, open, k), OwnOf(lane.events, open[k])[1..])
  }

  lemma {:induction false} FrameFed(lane: Lane, d: Window, k: nat)
    requires Replayed(lane, d).Some? && k < |OpenOf(lane.events)|
    ensures var stack, open := Replayed(lane, d).value.stack, OpenOf(lane.events);
            k < |stack| && open[k] < |lane.entries| && OwnOf(lane.events, open[k]) != [] &&
            stack[k].frame == F.FrameOf(open[k], ParentOf(lane, open, k), OwnOf(lane.events, open[k])[1..])
  {
    var m, open, p := Decoder(lane, d), OpenOf(lane.events), (f: Frame, seen: seq<Event>) => Fed(lane, f, seen);
    var t := Replayed(lane, d).value;
    FedInductive(lane, d);
    hide N.Run, Decoder, OwnOf, N.Own, FeedIn, OpenOf, N.Inductive, N.Running, F.FrameOf;
    N.HoldsEverywhere(m, START, lane.events, p);
    StackOwn(lane, d, lane.events, k);
    StackParented(lane, d, lane.events);
    assert p(t.stack[k].frame, t.stack[k].events);
    OwnEntry(lane, d, lane.events, open[k]);
    F.FrameExactly(lane, open[k], ParentOf(lane, open, k), OwnOf(lane.events, open[k])[1..]);
  }

  /** An entry's own events all name it, and it exists. */
  lemma {:induction false} OwnEntry(lane: Lane, d: Window, events: seq<Event>, index: nat)
    requires N.Run(Decoder(lane, d), START, events).Some?
    ensures forall i :: 0 <= i < |OwnOf(events, index)| ==> OwnOf(events, index)[i].index == index
    ensures OwnOf(events, index) != [] ==> index < |lane.entries|
  {
    StepNeedsEntry(lane, d, events);
    OwnNames(events, index);
    hide N.Run, Decoder, OwnOf;
    var own := OwnOf(events, index);
    forall i | 0 <= i < |own| ensures own[i].index == index {
      assert own[i] in own;
    }
    if own != [] {
      assert own[0] in own;
      var k :| 0 <= k < |events| && events[k] == own[0];
    }
  }

  lemma {:induction false} OwnNames(events: seq<Event>, index: nat)
    ensures forall ev :: ev in OwnOf(events, index) ==> ev in events && ev.index == index
  {
    if events != [] {
      OwnNames(events[..|events|-1], index);
      assert events == events[..|events|-1] + [events[|events|-1]];
    }
  }

  lemma {:induction false} PendingExactly(lane: Lane, d: Window)
    requires Replayed(lane, d).Some?
    ensures lane.pending == Frames(Replayed(lane, d).value.stack) <==> PendingAre(lane)
  {
    var stack, open := Replayed(lane, d).value.stack, OpenOf(lane.events);
    StackLength(lane, d, lane.events);
    forall k | 0 <= k < |open|
      ensures open[k] < |lane.entries| && OwnOf(lane.events, open[k]) != [] &&
              stack[k].frame == F.FrameOf(open[k], ParentOf(lane, open, k), OwnOf(lane.events, open[k])[1..])
    {
      FrameFed(lane, d, k);
    }
    hide Replayed, N.Run, OwnOf, F.FrameOf, OpenOf, ParentOf;
    if PendingAre(lane) { assert forall k :: 0 <= k < |open| ==> lane.pending[k] == stack[k].frame; }
  }

  /** LANES. A lane is accepted exactly when each of its events fits after those before it, every entry
      was admitted, the recorded pending frames are those read off the open bodies' own events, and the
      work lifetime is named exactly when something was admitted. */
  lemma {:induction false} LaneExactly(lane: Lane, d: Window)
    ensures Accepted(lane, d) <==>
            AllFit(lane, d, lane.events) && Admissions(lane.events) == |lane.entries| && PendingAre(lane) &&
            (lane.workEpoch > 0 <==> lane.entries != [])
  {
    RunsExactly(lane, d, lane.events);
    if Replayed(lane, d).Some? {
      PendingExactly(lane, d);
      StateAlways(lane, d, lane.events);
      StateParts(lane, lane.events, Replayed(lane, d).value.lane);
      SerialsBound(lane, lane.events, Replayed(lane, d).value.lane);
    }
    hide N.Run, Decoder, AllFit, PendingAre, StateIs, Frames, Admissions, Serials;
  }
}
