/** One lane of the work-emission journal, as a nested replay of compact bodies. */
module WorkReplay {
  import opened Options
  import opened WorkEmission
  import opened WorkMeaning
  import N = NestedReplay

  const QMAX: nat := 0x7FFF_FFFF_FFFF_FFFF
  const MAX_DEPTH: nat := 8

  /** An admitted body's identities: its own and those of the parents it ran under. */
  datatype Entry = Entry(own: Id, virtual: Id, detail: Id, router: Id, update: nat, thread: nat)

  datatype Lane = Lane(epoch: nat, thread: nat, virtualEpoch: nat, detailEpoch: nat, routerEpoch: nat,
                       entries: seq<Entry>, events: seq<Event>, pending: seq<Frame>)

  /** The journal's window, its recorded failures, and whether no entry was lost. */
  datatype Window = Window(begin: nat, end: nat, freeze: nat, clockFailed: bool, observerFailed: bool, lossless: bool)

  /** Parent identities already claimed, over all lanes. */
  datatype Claimed = Claimed(virtuals: set<Id>, details: set<Id>, routers: set<Id>)

  datatype LaneState = LaneState(entered: nat, own: nat, virtual: nat, detail: nat, router: nat, clock: nat,
                                 update: Option<nat>, claimed: Claimed, lexical: map<Id, bool>)

  function Start(claimed: Claimed): LaneState { LaneState(0, 0, 0, 0, 0, 0, None, claimed, map[]) }

  predicate Positive(id: Id) { id.epoch > 0 && id.serial > 0 }

  predicate EntryBound(lane: Lane, l: LaneState, ev: Event) {
    ev.index < |lane.entries| &&
    var e := lane.entries[ev.index];
    && Positive(e.own) && Positive(e.virtual) && Positive(e.detail) && Positive(e.router)
    && ev.invocation == e.own && e.own.epoch == lane.epoch && e.virtual.epoch == lane.virtualEpoch
    && e.detail.epoch == lane.detailEpoch && e.router.epoch == lane.routerEpoch && e.thread == lane.thread
    && (l.update.Some? ==> e.update == l.update.value)
  }

  /** A valid clock is in the window and not before the last one; an invalid one must have been
      recorded as a failure and moves nothing. */
  function Clock(d: Window, last: nat, ev: Event): Option<nat> {
    if ev.clockValid then
      if d.begin <= ev.qpc <= QMAX && ev.qpc >= last && (!d.clockFailed ==> ev.qpc <= d.freeze) then Some(ev.qpc) else None
    else if d.clockFailed && d.observerFailed then Some(last) else None
  }

  predicate Admits(lane: Lane, d: Window, l: LaneState, ev: Event)
    requires ev.index < |lane.entries|
  {
    var e := lane.entries[ev.index];
    && Payload(ev) && ev.index == l.entered && ev.clockValid && ev.qpc < d.end && ev.tailFresh
    && e.own.serial > l.own && e.virtual.serial > l.virtual && e.detail.serial > l.detail && e.router.serial > l.router
    && e.virtual !in l.claimed.virtuals && e.detail !in l.claimed.details && e.router !in l.claimed.routers
    && (d.lossless ==> e.own.serial == l.own + 1)
  }

  function LaneCheck(lane: Lane, d: Window, l: LaneState, ev: Event): Option<LaneState> {
    var clock := Clock(d, l.clock, ev);
    if !EntryBound(lane, l, ev) || clock.None? then None
    else
      var e := lane.entries[ev.index];
      if ev.kind.Admission? then
        if !Admits(lane, d, l, ev) then None
        else
          Some(LaneState(l.entered + 1, e.own.serial, e.virtual.serial, e.detail.serial, e.router.serial,
                         clock.value, Some(e.update),
                         Claimed(l.claimed.virtuals + {e.virtual}, l.claimed.details + {e.detail},
                                 l.claimed.routers + {e.router}),
                         l.lexical[e.own := ev.parentAdmitted]))
      else if ev.tailFresh || e.own !in l.lexical || l.lexical[e.own] != ev.parentAdmitted then None
      else Some(l.(clock := clock.value, update := Some(e.update)))
  }

  function Open(lane: Lane, top: Option<Frame>, ev: Event): Option<Frame> {
    if ev.parentAdmitted && top.None? then None
    else
      Some(NewFrame(ev.index, if top.Some? && top.value.index < |lane.entries| then lane.entries[top.value.index].own else NO_ID))
  }

  function PhaseOf(kind: Kind): N.Phase {
    if kind.Admission? then N.Opens
    else if kind.BodyReturn? then N.Closes(true)
    else if kind.BodyThrow? then N.Closes(false)
    else N.Inside
  }

  /** An event names its body by the position of its immutable entry. */
  function Decoder(lane: Lane, d: Window): N.Machine<LaneState, Frame, Event> {
    N.Machine(MAX_DEPTH, (ev: Event) => ev.index + 1, (ev: Event) => PhaseOf(ev.kind),
              (l: LaneState, ev: Event) => LaneCheck(lane, d, l, ev),
              (l: LaneState, top: Option<Frame>, ev: Event) => Open(lane, top, ev),
              (f: Frame, ev: Event) => Step(f, ev))
  }

  type WorkRow = N.Row<Frame, Event>

  function Replayed(lane: Lane, d: Window, claimed: Claimed): Option<N.Trace<LaneState, Frame, Event>> {
    N.Run(Decoder(lane, d), Start(claimed), lane.events)
  }

  function Frames(stack: seq<N.Live<Frame, Event>>): seq<Frame> {
    seq(|stack|, i requires 0 <= i < |stack| => stack[i].frame)
  }

  /** The lane verdict: every entry admitted once, the recorded pending frames exactly those left. */
  predicate Accepted(lane: Lane, d: Window, claimed: Claimed) {
    var t := Replayed(lane, d, claimed);
    t.Some? && t.value.lane.entered == |lane.entries| && lane.pending == Frames(t.value.stack) &&
    (lane.virtualEpoch != 0 <==> t.value.lane.entered != 0) && (lane.detailEpoch != 0 <==> t.value.lane.entered != 0) &&
    (lane.routerEpoch != 0 <==> t.value.lane.entered != 0)
  }

  method ReplayLane(lane: Lane, d: Window, claimed: Claimed) returns (ok: bool, completed: seq<WorkRow>, next: Claimed)
    ensures ok <==> Accepted(lane, d, claimed)
    ensures ok ==> completed == Replayed(lane, d, claimed).value.completed
    ensures ok ==> next == Replayed(lane, d, claimed).value.lane.claimed
  {
    hide LaneCheck, Open, Step;
    var r := N.Replay(Decoder(lane, d), Start(claimed), lane.events);
    if r.None? { return false, [], claimed; }
    var t := r.value;
    ok := t.lane.entered == |lane.entries| && lane.pending == Frames(t.stack) &&
      (lane.virtualEpoch != 0 <==> t.lane.entered != 0) && (lane.detailEpoch != 0 <==> t.lane.entered != 0) &&
      (lane.routerEpoch != 0 <==> t.lane.entered != 0);
    completed, next := t.completed, t.lane.claimed;
  }

  // ------------------------------------------------------------------ what a lane means

  lemma {:induction false} MeaningInductive(lane: Lane, d: Window)
    ensures N.Inductive(Decoder(lane, d), Meaning)
  {
    var m := Decoder(lane, d);
    forall l, f, ev: Event | m.phase(ev).Opens? && N.OpensTo(m, l, ev, f) ensures Meaning(f, [ev]) {
      var top :| m.open(l, top, ev) == Some(f);
      MeaningBegins(f.index, f.parent, ev);
    }
    hide Meaning, Step;
    forall f: Frame, seen: seq<Event>, ev: Event |
      Meaning(f, seen) && N.Running(m, seen) && !m.phase(ev).Opens? && m.step(f, ev).Some?
      ensures Meaning(m.step(f, ev).value, seen + [ev])
    {
      MeaningKept(f, seen, ev);
    }
  }

  lemma {:induction false} FiniteInductive(lane: Lane, d: Window)
    ensures N.Inductive(Decoder(lane, d), Finite)
  {
    var m := Decoder(lane, d);
    forall l, f, ev: Event | m.phase(ev).Opens? && N.OpensTo(m, l, ev, f) ensures Finite(f, [ev]) {
      var top :| m.open(l, top, ev) == Some(f);
      FiniteBegins(f.index, f.parent, ev);
    }
    hide Finite, Step;
    forall f: Frame, seen: seq<Event>, ev: Event |
      Finite(f, seen) && N.Running(m, seen) && !m.phase(ev).Opens? && m.step(f, ev).Some?
      ensures Finite(m.step(f, ev).value, seen + [ev])
    {
      FiniteKept(f, seen, ev);
    }
  }

  /** What one normally returned body did. */
  ghost predicate WholeBody(f: Frame, seen: seq<Event>) {
    var s, c, b := Calls(seen, ScalarCall), Calls(seen, JobCall), Bounds(seen);
    var w, v := Calls(seen, WaitCall), Calls(seen, VectorCall);
    && (forall i, k :: 0 <= i < k < |s| ==> s[i] > s[k]) && (forall i :: 0 <= i < |s| ==> s[i] < f.scalar.count)
    && (VectorMode(f.gates) ==>
          |v| == f.vector.count && (forall i :: 0 <= i < |v| ==> v[i] == f.vector.count - 1 - i) && Idle(c, b, w))
    && (JobMode(f.gates) ==>
          |b| == |c| + 1 && (forall i :: 0 <= i < |c| ==> c[i] == i && Signed(b[i]) > i) &&
          Signed(b[|c|]) <= |c| && w == [b[|c|]] && v == [])
    && (!f.gates.modeObserved ==> f.gates.mainRaw == 0 && Idle(c, b, w) && v == [])
  }

  lemma {:induction false} DoneIsWhole(f: Frame, seen: seq<Event>)
    requires Meaning(f, seen) && f.stage.Done?
    ensures WholeBody(f, seen)
  {
    hide Calls, Bounds;
  }

  /** WORK BODIES. A normally returned body made its scalar calls at strictly falling indices below
      the loaded count; in vector mode it then counted down from count-1 to 0, in job mode it called
      ordinals 0..n-1 while each loaded signed bound exceeded the ordinal and waited exactly once
      with the bound that did not; with a zero main gate it did neither. */
  lemma {:induction false} NormalBody(lane: Lane, d: Window, claimed: Claimed, i: nat)
    requires Replayed(lane, d, claimed).Some? && i < |Replayed(lane, d, claimed).value.completed|
    requires Replayed(lane, d, claimed).value.completed[i].normal
    ensures var row := Replayed(lane, d, claimed).value.completed[i]; WholeBody(row.frame, row.events)
  {
    RowMeaning(lane, d, claimed, i);
    hide Meaning, Replayed, WholeBody;
    DoneIsWhole(Replayed(lane, d, claimed).value.completed[i].frame, Replayed(lane, d, claimed).value.completed[i].events);
  }

  lemma {:induction false} RowMeaning(lane: Lane, d: Window, claimed: Claimed, i: nat)
    requires Replayed(lane, d, claimed).Some? && i < |Replayed(lane, d, claimed).value.completed|
    ensures var row := Replayed(lane, d, claimed).value.completed[i];
            Meaning(row.frame, row.events) && (row.normal ==> row.frame.stage.Done?)
  {
    var m, t := Decoder(lane, d), Replayed(lane, d, claimed).value;
    var row := t.completed[i];
    MeaningInductive(lane, d);
    N.HoldsEverywhere(m, Start(claimed), lane.events, Meaning);
    N.NestsLifo(m, Start(claimed), lane.events);
    hide Mode, ScalarProgress, JobProgress, VectorProgress, Calls, Bounds, N.Run, LaneCheck, Step, Open;
    assert Meaning(row.frame, row.events);
    assert N.Bracketed(m, lane.events, row);
    assert row.normal ==> PhaseOf(row.events[|row.events|-1].kind) == N.Closes(true);
  }

  /** FINITE BODIES. No accepted invocation, ended or pending, can have more events than the measure
      it starts with allows. */
  lemma {:induction false} BodiesAreFinite(lane: Lane, d: Window, claimed: Claimed)
    requires Replayed(lane, d, claimed).Some?
    ensures forall row :: row in Replayed(lane, d, claimed).value.completed ==> |row.events| <= LONGEST + 1
    ensures forall live :: live in Replayed(lane, d, claimed).value.stack ==> |live.events| <= LONGEST + 1
  {
    FiniteInductive(lane, d);
    N.HoldsEverywhere(Decoder(lane, d), Start(claimed), lane.events, Finite);
    hide N.Run, LaneCheck, Step, Measure, Decoder, Bounded;
  }

  // ---------------------------------------------------------------------- clock nesting

  function ClockOf(l: LaneState): nat { l.clock }
  predicate ClockTaken(ev: Event) { ev.clockValid }
  function TimeOf(ev: Event): nat { ev.qpc }

  lemma {:induction false} LaneKeepsClock(lane: Lane, d: Window)
    ensures N.KeepsClock(Decoder(lane, d), ClockOf, ClockTaken, TimeOf)
  {
  }

  /** NESTED CLOCKS. In a lane whose clocks were all taken, a body admitted inside another has its
      whole clock bracket inside the other's. */
  lemma {:induction false} InnerBodyInsideOuter(lane: Lane, d: Window, claimed: Claimed, i: nat, k: nat)
    requires Replayed(lane, d, claimed).Some? && forall n :: 0 <= n < |lane.events| ==> lane.events[n].clockValid
    requires i < |Replayed(lane, d, claimed).value.completed| && k < |Replayed(lane, d, claimed).value.completed|
    requires var rows := Replayed(lane, d, claimed).value.completed; rows[i].first < rows[k].first < rows[i].last
    ensures var rows := Replayed(lane, d, claimed).value.completed;
            rows[i].events != [] && rows[k].events != [] &&
            rows[i].events[0].qpc <= rows[k].events[0].qpc <= rows[k].events[|rows[k].events|-1].qpc <=
            rows[i].events[|rows[i].events|-1].qpc
  {
    LaneKeepsClock(lane, d);
    hide N.Run, N.KeepsClock, Decoder, N.Bracketed;
    N.ClocksFollow(Decoder(lane, d), Start(claimed), lane.events, ClockOf, ClockTaken, TimeOf);
    N.InnerInsideOuter(Decoder(lane, d), Start(claimed), lane.events, TimeOf, i, k);
    RowHasEvents(Decoder(lane, d), lane.events, Replayed(lane, d, claimed).value.completed[i]);
    RowHasEvents(Decoder(lane, d), lane.events, Replayed(lane, d, claimed).value.completed[k]);
  }

  lemma {:induction false} RowHasEvents(m: N.Machine<LaneState, Frame, Event>, events: seq<Event>, row: WorkRow)
    requires N.Bracketed(m, events, row)
    ensures row.events != []
  {
  }
}
