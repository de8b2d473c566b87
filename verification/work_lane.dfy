/** Which work-emission lanes the decoder accepts, said over the lane's entries and events alone. */
module WorkLane {
  import opened Options
  import opened WorkEmission
  import opened WorkLanguage
  import opened WorkReplay
  import N = NestedReplay
  import G = NestedLanguage
  import F = WorkFrames

  // ------------------------------------------------------------- what events determine

  function Admissions(events: seq<Event>): nat {
    if events == [] then 0 else Admissions(events[..|events|-1]) + if events[|events|-1].kind.Admission? then 1 else 0
  }

  /** The lexical flag the entry at this position was admitted with. */
  function FlagOf(events: seq<Event>, index: nat): bool {
    if events == [] then false
    else if events[|events|-1].kind.Admission? && events[|events|-1].index == index then events[|events|-1].parentAdmitted
    else FlagOf(events[..|events|-1], index)
  }

  /** The events of one entry, in lane order. */
  function OwnOf(events: seq<Event>, index: nat): seq<Event> {
    if events == [] then []
    else
      var rest := OwnOf(events[..|events|-1], index);
      if events[|events|-1].index == index then rest + [events[|events|-1]] else rest
  }

  /** The entries admitted and not yet closed, outermost first. */
  function OpenOf(events: seq<Event>): seq<nat> {
    if events == [] then []
    else
      var before, ev := OpenOf(events[..|events|-1]), events[|events|-1];
      if ev.kind.Admission? then before + [ev.index]
      else if (ev.kind.BodyReturn? || ev.kind.BodyThrow?) && before != [] then before[..|before|-1]
      else before
  }

  // --------------------------------------------------------------- when an event fits

  /** The event names an entry of this lane, by its position and its identity. */
  predicate Named(lane: Lane, ev: Event) {
    ev.index < |lane.entries| &&
    var e := lane.entries[ev.index];
    && ev.invocation == e.own && e.thread == lane.thread
    && e.own.epoch == lane.epoch > 0 && e.virtual.epoch == lane.virtualEpoch > 0
    && e.detail.epoch == lane.detailEpoch > 0 && e.router.epoch == lane.routerEpoch > 0
    && e.own.serial > 0 && e.virtual.serial > 0 && e.detail.serial > 0 && e.router.serial > 0
  }

  /** A taken clock is in the window and no earlier than any before it; a missing one was recorded. */
  ghost predicate Clocked(d: Window, events: seq<Event>, ev: Event) {
    if ev.clockValid then
      && d.begin <= ev.qpc <= 0x7FFF_FFFF_FFFF_FFFF && (!d.clockFailed ==> ev.qpc <= d.freeze)
      && (forall x :: x in events && x.clockValid ==> x.qpc <= ev.qpc)
    else d.clockFailed && d.observerFailed
  }

  /** Later than the entry before it in all four serials. */
  predicate After(lane: Lane, index: nat)
    requires index < |lane.entries|
  {
    index > 0 ==>
      var e, p := lane.entries[index], lane.entries[index-1];
      e.own.serial > p.own.serial && e.virtual.serial > p.virtual.serial && e.detail.serial > p.detail.serial &&
      e.router.serial > p.router.serial
  }

  /** No parent of this entry was claimed before, in this lane or an earlier one. */
  ghost predicate Unclaimed(lane: Lane, claimed: Claimed, index: nat)
    requires index < |lane.entries|
  {
    var e := lane.entries[index];
    && e.virtual !in claimed.virtuals && e.detail !in claimed.details && e.router !in claimed.routers
    && forall i :: 0 <= i < index ==>
         lane.entries[i].virtual != e.virtual && lane.entries[i].detail != e.detail && lane.entries[i].router != e.router
  }

  /** An admission is the next entry's, fresh and in the window, and samples nothing. */
  ghost predicate Admitted(lane: Lane, d: Window, claimed: Claimed, events: seq<Event>, ev: Event)
    requires ev.index < |lane.entries|
  {
    && ev.index == Admissions(events) && ev.clockValid && ev.qpc < d.end && ev.tailFresh
    && (forall i :: 0 <= i < 10 ==> ev.fields[i] == 0) && ev.vector == [0, 0, 0, 0]
    && After(lane, ev.index) && Unclaimed(lane, claimed, ev.index)
    && (d.lossless ==> lane.entries[ev.index].own.serial ==
                         if ev.index == 0 then 1 else lane.entries[ev.index-1].own.serial + 1)
  }

  /** What the lane as a whole asks of its next event. */
  ghost predicate LaneFits(lane: Lane, d: Window, claimed: Claimed, events: seq<Event>, ev: Event) {
    && Named(lane, ev) && Clocked(d, events, ev)
    && (forall x :: x in events && x.index < |lane.entries| ==>
          lane.entries[x.index].update == lane.entries[ev.index].update)
    && if ev.kind.Admission? then Admitted(lane, d, claimed, events, ev)
       else !ev.tailFresh && SameFlag(lane, events, ev)
  }

  /** The entry was admitted with this event's lexical flag. */
  ghost predicate SameFlag(lane: Lane, events: seq<Event>, ev: Event)
    requires ev.index < |lane.entries|
  {
    exists i :: 0 <= i < Admissions(events) && i < |lane.entries| && lane.entries[i].own == lane.entries[ev.index].own &&
      FlagOf(events, i) == ev.parentAdmitted
  }

  // --------------------------------------------------- the lane state is what they determine

  ghost predicate Serials(lane: Lane, events: seq<Event>, l: LaneState) {
    && l.entered == Admissions(events) <= |lane.entries|
    && (l.entered == 0 ==> l.own == 0 && l.virtual == 0 && l.detail == 0 && l.router == 0)
    && (l.entered > 0 ==>
          var e := lane.entries[l.entered-1];
          l.own == e.own.serial && l.virtual == e.virtual.serial && l.detail == e.detail.serial && l.router == e.router.serial)
    && (forall i, k :: 0 <= i < k < l.entered ==> lane.entries[i].own.serial < lane.entries[k].own.serial)
  }

  ghost predicate Latest(events: seq<Event>, clock: nat) {
    && (forall x :: x in events && x.clockValid ==> x.qpc <= clock)
    && (clock == 0 || exists x :: x in events && x.clockValid && x.qpc == clock)
  }

  ghost predicate OneUpdate(lane: Lane, events: seq<Event>, update: Option<nat>) {
    && (events == [] <==> update.None?)
    && (forall x :: x in events ==> x.index < |lane.entries| && update == Some(lane.entries[x.index].update))
  }

  ghost predicate ClaimedAre(lane: Lane, claimed: Claimed, n: nat, c: Claimed)
    requires n <= |lane.entries|
  {
    && (forall id :: id in c.virtuals <==> id in claimed.virtuals || exists i :: 0 <= i < n && lane.entries[i].virtual == id)
    && (forall id :: id in c.details <==> id in claimed.details || exists i :: 0 <= i < n && lane.entries[i].detail == id)
    && (forall id :: id in c.routers <==> id in claimed.routers || exists i :: 0 <= i < n && lane.entries[i].router == id)
  }

  ghost predicate FlagsAre(lane: Lane, events: seq<Event>, n: nat, lexical: map<Id, bool>)
    requires n <= |lane.entries|
  {
    && (forall id :: id in lexical <==> exists i :: 0 <= i < n && lane.entries[i].own == id)
    && (forall i :: 0 <= i < n ==> lane.entries[i].own in lexical && lexical[lane.entries[i].own] == FlagOf(events, i))
  }

  ghost predicate StateIs(lane: Lane, claimed: Claimed, events: seq<Event>, l: LaneState) {
    && Serials(lane, events, l) && Latest(events, l.clock) && OneUpdate(lane, events, l.update)
    && ClaimedAre(lane, claimed, l.entered, l.claimed) && FlagsAre(lane, events, l.entered, l.lexical)
  }

  lemma {:induction false} StateStarts(lane: Lane, claimed: Claimed)
    ensures StateIs(lane, claimed, [], Start(claimed))
  {
  }

  lemma {:induction false} ClockExactly(d: Window, events: seq<Event>, last: nat, ev: Event)
    requires Latest(events, last)
    ensures Clock(d, last, ev).Some? <==> Clocked(d, events, ev)
    ensures Clock(d, last, ev).Some? ==> Latest(events + [ev], Clock(d, last, ev).value)
  {
  }

  lemma {:induction false} NamedExactly(lane: Lane, events: seq<Event>, l: LaneState, ev: Event)
    requires OneUpdate(lane, events, l.update)
    ensures EntryBound(lane, l, ev) <==>
            Named(lane, ev) && (forall x :: x in events && x.index < |lane.entries| ==>
              lane.entries[x.index].update == lane.entries[ev.index].update)
  {
    if events != [] { assert events[0] in events; }
  }

  lemma {:induction false} AdmittedExactly(lane: Lane, d: Window, claimed: Claimed, events: seq<Event>, l: LaneState,
      ev: Event)
    requires Serials(lane, events, l) && l.entered <= |lane.entries| && ClaimedAre(lane, claimed, l.entered, l.claimed)
    requires ev.kind.Admission? && Named(lane, ev)
    ensures Admits(lane, d, l, ev) <==> Admitted(lane, d, claimed, events, ev)
  {
    AdmissionPays(ev);
    hide Payload;
    if ev.index == l.entered { UnclaimedExactly(lane, claimed, l.entered, l.claimed); }
    hide ClaimedAre, Unclaimed;
  }

  lemma {:induction false} AdmissionPays(ev: Event)
    requires ev.kind.Admission?
    ensures Payload(ev) <==> (forall i :: 0 <= i < 10 ==> ev.fields[i] == 0) && ev.vector == [0, 0, 0, 0]
  {
  }

  lemma {:induction false} UnclaimedExactly(lane: Lane, claimed: Claimed, index: nat, c: Claimed)
    requires index < |lane.entries| && ClaimedAre(lane, claimed, index, c)
    ensures var e := lane.entries[index];
            e.virtual !in c.virtuals && e.detail !in c.details && e.router !in c.routers <==> Unclaimed(lane, claimed, index)
  {
  }

  lemma {:induction false} CheckMeans(lane: Lane, d: Window, l: LaneState, ev: Event)
    ensures LaneCheck(lane, d, l, ev).Some? <==>
            EntryBound(lane, l, ev) && Clock(d, l.clock, ev).Some? &&
            if ev.kind.Admission? then Admits(lane, d, l, ev)
            else !ev.tailFresh && lane.entries[ev.index].own in l.lexical &&
                 l.lexical[lane.entries[ev.index].own] == ev.parentAdmitted
    ensures EntryBound(lane, l, ev) ==> ev.index < |lane.entries|
  {
    hide Clock, Admits;
  }

  lemma {:induction false} FlagExactly(lane: Lane, events: seq<Event>, l: LaneState, ev: Event)
    requires Serials(lane, events, l) && l.entered <= |lane.entries| && FlagsAre(lane, events, l.entered, l.lexical)
    requires ev.index < |lane.entries|
    ensures lane.entries[ev.index].own in l.lexical && l.lexical[lane.entries[ev.index].own] == ev.parentAdmitted <==>
            SameFlag(lane, events, ev)
  {
    hide FlagOf, Admissions;
  }

  /** The lane's checks pass exactly when the event fits after those before it. */
  lemma {:induction false} CheckExactly(lane: Lane, d: Window, claimed: Claimed, events: seq<Event>, l: LaneState,
      ev: Event)
    requires StateIs(lane, claimed, events, l)
    ensures LaneCheck(lane, d, l, ev).Some? <==> LaneFits(lane, d, claimed, events, ev)
  {
    hide Clock, Clocked, EntryBound, Admits, Admitted, ClaimedAre, Latest, OneUpdate, Named, LaneCheck, Serials, FlagsAre,
         SameFlag, StateIs;
    CheckMeans(lane, d, l, ev);
    StateParts(lane, claimed, events, l);
    ClockExactly(d, events, l.clock, ev);
    NamedExactly(lane, events, l, ev);
    NamedIndex(lane, ev);
    if Named(lane, ev) {
      if ev.kind.Admission? {
        AdmittedExactly(lane, d, claimed, events, l, ev);
      } else {
        FlagExactly(lane, events, l, ev);
      }
    }
  }

  lemma {:induction false} NamedIndex(lane: Lane, ev: Event)
    ensures Named(lane, ev) ==> ev.index < |lane.entries|
  {
  }

  lemma {:induction false} FlagSnoc(events: seq<Event>, ev: Event, index: nat)
    ensures FlagOf(events + [ev], index) ==
            if ev.kind.Admission? && ev.index == index then ev.parentAdmitted else FlagOf(events, index)
    ensures Admissions(events + [ev]) == Admissions(events) + if ev.kind.Admission? then 1 else 0
  {
    assert (events + [ev])[..|events|] == events;
  }

  lemma {:induction false} UpdateNext(lane: Lane, events: seq<Event>, ev: Event, before: Option<nat>,
      update: Option<nat>)
    requires OneUpdate(lane, events, before) && ev.index < |lane.entries| && update == Some(lane.entries[ev.index].update)
    requires before.Some? ==> before == update
    ensures OneUpdate(lane, events + [ev], update)
  {
  }

  lemma {:induction false} ClaimedNext(lane: Lane, claimed: Claimed, n: nat, c: Claimed)
    requires n < |lane.entries| && ClaimedAre(lane, claimed, n, c)
    ensures var e := lane.entries[n];
            ClaimedAre(lane, claimed, n + 1, Claimed(c.virtuals + {e.virtual}, c.details + {e.detail}, c.routers + {e.router}))
  {
  }

  lemma {:induction false} FlagsNext(lane: Lane, events: seq<Event>, ev: Event, n: nat, lexical: map<Id, bool>)
    requires n < |lane.entries| && FlagsAre(lane, events, n, lexical)
    requires ev.kind.Admission? && ev.index == n
    requires forall i :: 0 <= i < n ==> lane.entries[i].own != lane.entries[n].own
    ensures FlagsAre(lane, events + [ev], n + 1, lexical[lane.entries[n].own := ev.parentAdmitted])
  {
    forall i: nat ensures FlagOf(events + [ev], i) == if i == n then ev.parentAdmitted else FlagOf(events, i) {
      FlagSnoc(events, ev, i);
    }
    hide FlagOf;
  }

  lemma {:induction false} FlagsStay(lane: Lane, events: seq<Event>, ev: Event, n: nat, lexical: map<Id, bool>)
    requires n <= |lane.entries| && FlagsAre(lane, events, n, lexical) && !ev.kind.Admission?
    ensures FlagsAre(lane, events + [ev], n, lexical)
  {
    forall i: nat ensures FlagOf(events + [ev], i) == FlagOf(events, i) { FlagSnoc(events, ev, i); }
    hide FlagOf;
  }

  lemma {:induction false} SerialsNext(lane: Lane, d: Window, events: seq<Event>, l: LaneState, ev: Event)
    requires Serials(lane, events, l) && LaneCheck(lane, d, l, ev).Some?
    ensures var next := LaneCheck(lane, d, l, ev).value;
            Serials(lane, events + [ev], next) && next.entered == l.entered + (if ev.kind.Admission? then 1 else 0) &&
            (ev.kind.Admission? ==> l.entered < |lane.entries| && ev.index == l.entered) &&
            (ev.kind.Admission? ==>
               forall i :: 0 <= i < l.entered ==> lane.entries[i].own.serial < lane.entries[l.entered].own.serial)
  {
    FlagSnoc(events, ev, 0);
    hide Clock, Payload, FlagOf, Admissions;
    if ev.kind.Admission? && l.entered > 0 {
      forall i | 0 <= i < l.entered ensures lane.entries[i].own.serial < lane.entries[l.entered].own.serial {
        if i < l.entered - 1 { assert lane.entries[i].own.serial < lane.entries[l.entered-1].own.serial; }
      }
    }
  }

  /** What passing the lane's checks changes. */
  lemma {:induction false} CheckResult(lane: Lane, d: Window, l: LaneState, ev: Event)
    requires LaneCheck(lane, d, l, ev).Some?
    ensures ev.index < |lane.entries| && Clock(d, l.clock, ev).Some?
    ensures var next, e := LaneCheck(lane, d, l, ev).value, lane.entries[ev.index];
            && next.clock == Clock(d, l.clock, ev).value && next.update == Some(e.update)
            && (l.update.Some? ==> l.update == next.update)
            && (if ev.kind.Admission? then
                  next.claimed == Claimed(l.claimed.virtuals + {e.virtual}, l.claimed.details + {e.detail},
                                          l.claimed.routers + {e.router}) &&
                  next.lexical == l.lexical[e.own := ev.parentAdmitted]
                else next.claimed == l.claimed && next.lexical == l.lexical)
  {
    hide Clock, Admits;
  }

  lemma {:induction false} StateParts(lane: Lane, claimed: Claimed, events: seq<Event>, l: LaneState)
    ensures StateIs(lane, claimed, events, l) <==>
            Serials(lane, events, l) && Latest(events, l.clock) && OneUpdate(lane, events, l.update) &&
            l.entered <= |lane.entries| && ClaimedAre(lane, claimed, l.entered, l.claimed) &&
            FlagsAre(lane, events, l.entered, l.lexical)
  {
    hide Latest, OneUpdate, ClaimedAre, FlagsAre;
  }

  lemma {:induction false} StateNext(lane: Lane, d: Window, claimed: Claimed, events: seq<Event>, l: LaneState,
      ev: Event)
    requires StateIs(lane, claimed, events, l) && LaneCheck(lane, d, l, ev).Some?
    ensures StateIs(lane, claimed, events + [ev], LaneCheck(lane, d, l, ev).value)
  {
    hide *;
    var next := LaneCheck(lane, d, l, ev).value;
    StateParts(lane, claimed, events, l);
    SerialsNext(lane, d, events, l, ev);
    SerialsBound(lane, events + [ev], next);
    CheckResult(lane, d, l, ev);
    ClockExactly(d, events, l.clock, ev);
    UpdateNext(lane, events, ev, l.update, next.update);
    if ev.kind.Admission? {
      ClaimedNext(lane, claimed, l.entered, l.claimed);
      FlagsNext(lane, events, ev, l.entered, l.lexical);
    } else {
      FlagsStay(lane, events, ev, l.entered, l.lexical);
    }
    StateParts(lane, claimed, events + [ev], next);
  }

  lemma {:induction false} SerialsBound(lane: Lane, events: seq<Event>, l: LaneState)
    requires Serials(lane, events, l)
    ensures l.entered <= |lane.entries|
  {
  }

  lemma {:induction false} StateMoves(lane: Lane, d: Window, claimed: Claimed, events: seq<Event>,
      t: N.Trace<LaneState, Frame, Event>, ev: Event, next: N.Trace<LaneState, Frame, Event>)
    requires StateIs(lane, claimed, events, t.lane) && t.lastId == t.lane.entered
    requires N.Moves(Decoder(lane, d), |events|, t, ev, next) && LaneCheck(lane, d, t.lane, ev) == Some(next.lane)
    ensures StateIs(lane, claimed, events + [ev], next.lane) && next.lastId == next.lane.entered
  {
    hide *;
    StateNext(lane, d, claimed, events, t.lane, ev);
    SerialsOf(lane, claimed, events, t.lane);
    SerialsNext(lane, d, events, t.lane, ev);
    IdMoves(lane, d, |events|, t, ev, next);
  }

  lemma {:induction false} RunStarts(lane: Lane, d: Window, claimed: Claimed)
    ensures N.Run(Decoder(lane, d), Start(claimed), []).Some?
    ensures var t := N.Run(Decoder(lane, d), Start(claimed), []).value;
            StateIs(lane, claimed, [], t.lane) && t.lastId == t.lane.entered
  {
    StateStarts(lane, claimed);
    hide StateIs, Decoder;
  }

  lemma {:induction false} StateAlways(lane: Lane, d: Window, claimed: Claimed, events: seq<Event>)
    requires N.Run(Decoder(lane, d), Start(claimed), events).Some?
    ensures var t := N.Run(Decoder(lane, d), Start(claimed), events).value;
            StateIs(lane, claimed, events, t.lane) && t.lastId == t.lane.entered
  {
    hide *;
    if events == [] {
      RunStarts(lane, d, claimed);
    } else {
      var m, front, ev := Decoder(lane, d), events[..|events|-1], events[|events|-1];
      N.RunSnoc(m, Start(claimed), events);
      StateAlways(lane, d, claimed, front);
      var t := N.Run(m, Start(claimed), front).value;
      N.StepMoves(m, |front|, t, ev);
      LaneIs(lane, d, t.lane, ev);
      StateMoves(lane, d, claimed, front, t, ev, N.Run(m, Start(claimed), events).value);
      assert events == front + [ev];
    }
  }

  lemma {:induction false} SerialsOf(lane: Lane, claimed: Claimed, events: seq<Event>, l: LaneState)
    requires StateIs(lane, claimed, events, l)
    ensures Serials(lane, events, l) && l.entered == Admissions(events)
  {
  }

  lemma {:induction false} IdMoves(lane: Lane, d: Window, n: nat, t: N.Trace<LaneState, Frame, Event>, ev: Event,
      next: N.Trace<LaneState, Frame, Event>)
    requires N.Moves(Decoder(lane, d), n, t, ev, next)
    ensures next.lastId == if ev.kind.Admission? then ev.index + 1 else t.lastId
  {
  }

  lemma {:induction false} LaneIs(lane: Lane, d: Window, l: LaneState, ev: Event)
    ensures Decoder(lane, d).lane(l, ev) == LaneCheck(lane, d, l, ev)
  {
  }

  // ---------------------------------------------------------------------- the stack

  lemma {:induction false} OpenIsOpen(lane: Lane, d: Window, events: seq<Event>)
    ensures var ids, open := G.OpenIds(Decoder(lane, d), events), OpenOf(events);
            |ids| == |open| && forall k :: 0 <= k < |ids| ==> ids[k] == open[k] + 1
  {
    if events != [] {
      OpenIsOpen(lane, d, events[..|events|-1]);
      PhaseMeans(events[|events|-1]);
      assert Decoder(lane, d).phase(events[|events|-1]) == PhaseOf(events[|events|-1].kind);
      assert Decoder(lane, d).id(events[|events|-1]) == events[|events|-1].index + 1;
    }
  }

  lemma {:induction false} PhaseMeans(ev: Event)
    ensures PhaseOf(ev.kind).Opens? <==> ev.kind.Admission?
    ensures PhaseOf(ev.kind).Closes? <==> ev.kind.BodyReturn? || ev.kind.BodyThrow?
  {
  }

  lemma {:induction false} OwnIsOwn(lane: Lane, d: Window, events: seq<Event>, index: nat)
    ensures N.Own(Decoder(lane, d), events, index + 1) == OwnOf(events, index)
  {
    if events != [] {
      OwnIsOwn(lane, d, events[..|events|-1], index);
      assert Decoder(lane, d).id(events[|events|-1]) == events[|events|-1].index + 1;
    }
  }

  /** The identity a body's frame records as the one it runs under. */
  function ParentOf(lane: Lane, open: seq<nat>, k: nat): Id
    requires k <= |open|
  {
    if k > 0 && open[k-1] < |lane.entries| then lane.entries[open[k-1]].own else NO_ID
  }

  /** Each open body's frame names its own entry and the body it was admitted inside. */
  ghost predicate Parented(lane: Lane, stack: seq<N.Live<Frame, Event>>, open: seq<nat>) {
    |stack| == |open| && forall k :: 0 <= k < |stack| ==>
      stack[k].id == open[k] + 1 && stack[k].frame.index == open[k] && stack[k].frame.parent == ParentOf(lane, open, k)
  }

  /** How one event moves the names of the open frames. */
  ghost predicate Shifts(lane: Lane, stack: seq<N.Live<Frame, Event>>, ev: Event, next: seq<N.Live<Frame, Event>>) {
    if ev.kind.Admission? then
      && |next| == |stack| + 1 && (forall k :: 0 <= k < |stack| ==> next[k] == stack[k])
      && var x := next[|stack|];
         && x.id == ev.index + 1 && x.frame.index == ev.index
         && x.frame.parent ==
              if stack != [] && stack[|stack|-1].frame.index < |lane.entries|
              then lane.entries[stack[|stack|-1].frame.index].own else NO_ID
    else
      && stack != []
      && (forall k :: 0 <= k < |stack| - 1 && k < |next| ==> next[k] == stack[k])
      && if ev.kind.BodyReturn? || ev.kind.BodyThrow? then |next| == |stack| - 1
         else
           var k := |stack| - 1;
           && |next| == |stack| && next[k].id == stack[k].id
           && next[k].frame.index == stack[k].frame.index && next[k].frame.parent == stack[k].frame.parent
  }

  lemma {:induction false} StackShifts(lane: Lane, d: Window, n: nat, t: N.Trace<LaneState, Frame, Event>, ev: Event,
      next: N.Trace<LaneState, Frame, Event>)
    requires N.Moves(Decoder(lane, d), n, t, ev, next)
    ensures Shifts(lane, t.stack, ev, next.stack)
  {
    PhaseMeans(ev);
    if !ev.kind.Admission? && t.stack != [] {
      var top := t.stack[|t.stack|-1];
      if Step(top.frame, ev).Some? { StepKeepsName(top.frame, ev); }
    }
    hide LaneCheck, Step;
  }

  lemma {:induction false} ShiftsParented(lane: Lane, stack: seq<N.Live<Frame, Event>>, ev: Event,
      next: seq<N.Live<Frame, Event>>, open: seq<nat>)
    requires Parented(lane, stack, open) && Shifts(lane, stack, ev, next)
    ensures Parented(lane, next,
                     if ev.kind.Admission? then open + [ev.index]
                     else if (ev.kind.BodyReturn? || ev.kind.BodyThrow?) && open != [] then open[..|open|-1] else open)
  {
    var now := if ev.kind.Admission? then open + [ev.index]
               else if (ev.kind.BodyReturn? || ev.kind.BodyThrow?) && open != [] then open[..|open|-1] else open;
    forall k | 0 <= k < |next|
      ensures next[k].id == now[k] + 1 && next[k].frame.index == now[k] && next[k].frame.parent == ParentOf(lane, now, k)
    {
      if k < |stack| { assert now[k] == open[k] && ParentOf(lane, now, k) == ParentOf(lane, open, k); }
    }
  }

  lemma {:induction false} ParentedNext(lane: Lane, d: Window, n: nat, t: N.Trace<LaneState, Frame, Event>, ev: Event,
      next: N.Trace<LaneState, Frame, Event>, open: seq<nat>)
    requires Parented(lane, t.stack, open) && N.Moves(Decoder(lane, d), n, t, ev, next)
    ensures Parented(lane, next.stack,
                     if ev.kind.Admission? then open + [ev.index]
                     else if (ev.kind.BodyReturn? || ev.kind.BodyThrow?) && open != [] then open[..|open|-1] else open)
  {
    hide *;
    StackShifts(lane, d, n, t, ev, next);
    ShiftsParented(lane, t.stack, ev, next.stack, open);
  }

  lemma {:induction false} OpenSnoc(events: seq<Event>)
    requires events != []
    ensures var open, ev := OpenOf(events[..|events|-1]), events[|events|-1];
            OpenOf(events) ==
            if ev.kind.Admission? then open + [ev.index]
            else if (ev.kind.BodyReturn? || ev.kind.BodyThrow?) && open != [] then open[..|open|-1] else open
  {
  }

  lemma {:induction false} StackParented(lane: Lane, d: Window, claimed: Claimed, events: seq<Event>)
    requires N.Run(Decoder(lane, d), Start(claimed), events).Some?
    ensures Parented(lane, N.Run(Decoder(lane, d), Start(claimed), events).value.stack, OpenOf(events))
  {
    if events == [] {
    } else {
      hide *;
      var m, front, ev := Decoder(lane, d), events[..|events|-1], events[|events|-1];
      N.RunSnoc(m, Start(claimed), events);
      StackParented(lane, d, claimed, front);
      var t := N.Run(m, Start(claimed), front).value;
      N.StepMoves(m, |events| - 1, t, ev);
      ParentedNext(lane, d, |events| - 1, t, ev, N.Run(m, Start(claimed), events).value, OpenOf(front));
      OpenSnoc(events);
    }
  }

  // ------------------------------------------------------------------- the whole lane

  /** The next event of a lane that was accepted so far: the lane's own checks, room for an admission
      under an open body if it claims one, or the next event of the innermost open body. */
  ghost predicate Fits(lane: Lane, d: Window, claimed: Claimed, events: seq<Event>, ev: Event) {
    LaneFits(lane, d, claimed, events, ev) &&
    var open := OpenOf(events);
    if ev.kind.Admission? then |open| < 8 && (ev.parentAdmitted ==> open != [])
    else open != [] && open[|open|-1] == ev.index && OwnOf(events, ev.index) != [] &&
         Continues(OwnOf(events, ev.index)[1..], ev)
  }

  lemma {:induction false} OpenTakes(lane: Lane, d: Window, l: LaneState, top: Option<Frame>, ev: Event)
    ensures Decoder(lane, d).open(l, top, ev).Some? <==> (ev.parentAdmitted ==> top.Some?)
    ensures Decoder(lane, d).depth == 8 && Decoder(lane, d).id(ev) == ev.index + 1
    ensures Decoder(lane, d).phase(ev).Opens? <==> ev.kind.Admission?
  {
  }

  /** An admission after an accepted beginning. */
  lemma {:induction false} AdmissionFits(lane: Lane, d: Window, claimed: Claimed, events: seq<Event>, ev: Event)
    requires N.Run(Decoder(lane, d), Start(claimed), events).Some? && ev.kind.Admission?
    ensures N.Run(Decoder(lane, d), Start(claimed), events + [ev]).Some? <==> Fits(lane, d, claimed, events, ev)
  {
    var m, start := Decoder(lane, d), Start(claimed);
    var t := N.Run(m, start, events).value;
    hide N.Run, N.Step, Decoder, LaneCheck, StateIs, G.OpenIds, OpenOf, LaneFits, G.SameIds;
    G.RunOneMore(m, start, events, ev);
    G.StackIsOpen(m, start, events);
    G.StepTakes(m, |events|, t, ev, G.OpenIds(m, events));
    OpenIsOpen(lane, d, events);
    StateAlways(lane, d, claimed, events);
    CheckExactly(lane, d, claimed, events, t.lane, ev);
    LaneIs(lane, d, t.lane, ev);
    OpenTakes(lane, d, if m.lane(t.lane, ev).Some? then m.lane(t.lane, ev).value else t.lane, N.TopFrame(t), ev);
    SerialsOf(lane, claimed, events, t.lane);
    SameLength(t.stack, G.OpenIds(m, events));
    if LaneFits(lane, d, claimed, events, ev) { NextIndex(lane, d, claimed, events, ev); }
  }

  lemma {:induction false} SameLength(stack: seq<N.Live<Frame, Event>>, ids: seq<nat>)
    requires G.SameIds(stack, ids)
    ensures |stack| == |ids|
  {
  }

  lemma {:induction false} NextIndex(lane: Lane, d: Window, claimed: Claimed, events: seq<Event>, ev: Event)
    requires LaneFits(lane, d, claimed, events, ev) && ev.kind.Admission?
    ensures ev.index == Admissions(events)
  {
  }

  /** Each open body's events are its own. */
  lemma {:induction false} StackOwn(lane: Lane, d: Window, claimed: Claimed, events: seq<Event>, k: nat)
    requires N.Run(Decoder(lane, d), Start(claimed), events).Some? && k < |OpenOf(events)|
    ensures var stack := N.Run(Decoder(lane, d), Start(claimed), events).value.stack;
            k < |stack| && stack[k].id == OpenOf(events)[k] + 1 && stack[k].events == OwnOf(events, OpenOf(events)[k])
  {
    var m, start := Decoder(lane, d), Start(claimed);
    var t := N.Run(m, start, events).value;
    hide N.Run, Decoder, OwnOf, N.Own, OpenOf, N.Apart;
    StackParented(lane, d, claimed, events);
    N.OwnHistories(m, start, events);
    OwnIsOwn(lane, d, events, OpenOf(events)[k]);
    assert t.stack[k].events == N.Own(m, events, t.stack[k].id);
  }

  lemma {:induction false} StackLength(lane: Lane, d: Window, claimed: Claimed, events: seq<Event>)
    requires N.Run(Decoder(lane, d), Start(claimed), events).Some?
    ensures |N.Run(Decoder(lane, d), Start(claimed), events).value.stack| == |OpenOf(events)|
  {
    hide N.Run, Decoder, OpenOf;
    StackParented(lane, d, claimed, events);
  }

  lemma {:induction false} InnerMeans(lane: Lane, d: Window, claimed: Claimed, events: seq<Event>, ev: Event)
    requires !ev.kind.Admission?
    ensures Fits(lane, d, claimed, events, ev) <==>
            LaneFits(lane, d, claimed, events, ev) && OpenOf(events) != [] &&
            OpenOf(events)[|OpenOf(events)|-1] == ev.index && OwnOf(events, ev.index) != [] &&
            Continues(OwnOf(events, ev.index)[1..], ev)
  {
    hide LaneFits, OpenOf, OwnOf, Continues;
  }

  /** Any other event after an accepted beginning. */
  lemma {:induction false} InnerFits(lane: Lane, d: Window, claimed: Claimed, events: seq<Event>, ev: Event)
    requires N.Run(Decoder(lane, d), Start(claimed), events).Some? && !ev.kind.Admission?
    ensures N.Run(Decoder(lane, d), Start(claimed), events + [ev]).Some? <==> Fits(lane, d, claimed, events, ev)
  {
    hide *;
    var t := N.Run(Decoder(lane, d), Start(claimed), events).value;
    NextAccepted(lane, d, claimed, events, ev);
    StateAlways(lane, d, claimed, events);
    CheckExactly(lane, d, claimed, events, t.lane, ev);
    InnerMeans(lane, d, claimed, events, ev);
    StackLength(lane, d, claimed, events);
    if t.stack != [] { StackOwn(lane, d, claimed, events, |t.stack| - 1); }
  }

  /** NEXT. After an accepted beginning the decoder takes exactly the events that fit. */
  lemma {:induction false} NextFits(lane: Lane, d: Window, claimed: Claimed, events: seq<Event>, ev: Event)
    requires N.Run(Decoder(lane, d), Start(claimed), events).Some?
    ensures N.Run(Decoder(lane, d), Start(claimed), events + [ev]).Some? <==> Fits(lane, d, claimed, events, ev)
  {
    hide *;
    if ev.kind.Admission? { AdmissionFits(lane, d, claimed, events, ev); } else { InnerFits(lane, d, claimed, events, ev); }
  }

  ghost predicate AllFit(lane: Lane, d: Window, claimed: Claimed, events: seq<Event>) {
    forall i :: 0 <= i < |events| ==> Fits(lane, d, claimed, events[..i], events[i])
  }

  lemma {:induction false} AllFitSnoc(lane: Lane, d: Window, claimed: Claimed, events: seq<Event>)
    requires events != []
    ensures AllFit(lane, d, claimed, events) <==>
            AllFit(lane, d, claimed, events[..|events|-1]) && Fits(lane, d, claimed, events[..|events|-1], events[|events|-1])
  {
    hide Fits;
    var front := events[..|events|-1];
    assert forall i :: 0 <= i < |front| ==> front[i] == events[i] && front[..i] == events[..i];
  }

  lemma {:induction false} RunsExactly(lane: Lane, d: Window, claimed: Claimed, events: seq<Event>)
    ensures N.Run(Decoder(lane, d), Start(claimed), events).Some? <==> AllFit(lane, d, claimed, events)
  {
    if events == [] {
    } else {
      hide *;
      var front, ev := events[..|events|-1], events[|events|-1];
      RunsExactly(lane, d, claimed, front);
      AllFitSnoc(lane, d, claimed, events);
      assert front + [ev] == events;
      if N.Run(Decoder(lane, d), Start(claimed), front).Some? { NextFits(lane, d, claimed, front, ev); }
      G.RunOneMore(Decoder(lane, d), Start(claimed), front, ev);
    }
  }

  /** The recorded pending frames: one for each open body, read off its own events. */
  ghost predicate PendingAre(lane: Lane) {
    var open := OpenOf(lane.events);
    |lane.pending| == |open| &&
    forall k :: 0 <= k < |open| ==>
      OwnOf(lane.events, open[k]) != [] &&
      lane.pending[k] == F.FrameOf(open[k], ParentOf(lane, open, k), OwnOf(lane.events, open[k])[1..])
  }

  lemma {:induction false} FrameFed(lane: Lane, d: Window, claimed: Claimed, k: nat)
    requires Replayed(lane, d, claimed).Some? && k < |OpenOf(lane.events)|
    ensures var stack, open := Replayed(lane, d, claimed).value.stack, OpenOf(lane.events);
            k < |stack| && OwnOf(lane.events, open[k]) != [] &&
            stack[k].frame == F.FrameOf(open[k], ParentOf(lane, open, k), OwnOf(lane.events, open[k])[1..])
  {
    var m, start, open := Decoder(lane, d), Start(claimed), OpenOf(lane.events);
    var t := Replayed(lane, d, claimed).value;
    FedInductive(lane, d);
    hide N.Run, Decoder, OwnOf, N.Own, Feed, OpenOf, N.Inductive, N.Running, F.FrameOf;
    N.HoldsEverywhere(m, start, lane.events, Fed);
    StackOwn(lane, d, claimed, lane.events, k);
    StackParented(lane, d, claimed, lane.events);
    assert Fed(t.stack[k].frame, t.stack[k].events);
    F.FrameExactly(open[k], ParentOf(lane, open, k), OwnOf(lane.events, open[k])[1..]);
  }

  lemma {:induction false} PendingExactly(lane: Lane, d: Window, claimed: Claimed)
    requires Replayed(lane, d, claimed).Some?
    ensures lane.pending == Frames(Replayed(lane, d, claimed).value.stack) <==> PendingAre(lane)
  {
    var stack, open := Replayed(lane, d, claimed).value.stack, OpenOf(lane.events);
    StackLength(lane, d, claimed, lane.events);
    forall k | 0 <= k < |open|
      ensures OwnOf(lane.events, open[k]) != [] &&
              stack[k].frame == F.FrameOf(open[k], ParentOf(lane, open, k), OwnOf(lane.events, open[k])[1..])
    {
      FrameFed(lane, d, claimed, k);
    }
    hide Replayed, N.Run, OwnOf, F.FrameOf, OpenOf, ParentOf;
    if PendingAre(lane) { assert forall k :: 0 <= k < |open| ==> lane.pending[k] == stack[k].frame; }
  }

  /** LANES. A lane is accepted exactly when each of its events fits after those before it, every entry
      was admitted, the recorded pending frames are those read off the open bodies' own events, and the
      parent lifetimes are named exactly when something was admitted. */
  lemma {:induction false} LaneExactly(lane: Lane, d: Window, claimed: Claimed)
    ensures Accepted(lane, d, claimed) <==>
            AllFit(lane, d, claimed, lane.events) && Admissions(lane.events) == |lane.entries| && PendingAre(lane) &&
            (lane.virtualEpoch > 0 <==> lane.entries != []) && (lane.detailEpoch > 0 <==> lane.entries != []) &&
            (lane.routerEpoch > 0 <==> lane.entries != [])
  {
    RunsExactly(lane, d, claimed, lane.events);
    if Replayed(lane, d, claimed).Some? {
      PendingExactly(lane, d, claimed);
      StateAlways(lane, d, claimed, lane.events);
      SerialsOf(lane, claimed, lane.events, Replayed(lane, d, claimed).value.lane);
    }
    hide N.Run, Decoder, AllFit, PendingAre, StateIs, Frames, Admissions, Serials;
  }
}
