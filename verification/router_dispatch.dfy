/** The router call-site journal: full frame snapshots, replayed one event at a time. */
module RouterDispatch {
  import opened Options
  import N = NestedReplay

  const TWO32: nat := 0x1_0000_0000
  const QMAX: nat := 0x7FFF_FFFF_FFFF_FFFF
  const MAX_DEPTH: nat := 8

  datatype Id = Id(epoch: nat, serial: nat)
  const NO_ID := Id(0, 0)

  datatype Binding = Binding(phaseCall: nat, epoch: nat, thread: nat)
  datatype Dispatch = Dispatch(r3: nat, table: nat, ctr: nat, requested: nat, f1: nat, present: bool)
  const NO_DISPATCH := Dispatch(0, 0, 0, 0, 0, false)

  datatype Stage = Entered | PredicateActive | PredicateReturned | Skipped | ConsumerActive | ConsumerReturned | Failed
  datatype Kind =
    | RouterEntry | PredicatePre | PredicateReturn | PredicateThrow | Skip
    | ConsumerPre | ConsumerReturn | ConsumerThrow | NormalExit | ExceptionalExit

  datatype Frame = Frame(invocation: Id, parent: Id, binding: Binding, caller: nat, manager: nat, selector: nat,
                         f1: nat, stage: Stage, predicate_: Dispatch, consumer: Dispatch,
                         result: nat, low8: nat, returned: bool)

  datatype Event = Event(kind: Kind, frame: Frame, observed: Binding, clockValid: bool, qpc: nat,
                         matches: bool, expected: bool, baseNonnull: bool, parentAdmitted: bool)

  predicate DispatchShape(d: Dispatch) { d.requested == d.ctr % TWO32 && (!d.present ==> d == NO_DISPATCH) }

  predicate FrameShape(f: Frame) {
    f.low8 == f.result % 256 && DispatchShape(f.predicate_) && DispatchShape(f.consumer)
  }

  /** The five known call sites and the selector each dispatches with. */
  function Selector(caller: nat): Option<nat> {
    if caller == 0x822C24C4 then Some(1)
    else if caller == 0x822C273C then Some(4)
    else if caller == 0x822C2768 then Some(0)
    else if caller == 0x822C27C0 then Some(8)
    else if caller == 0x822C2848 then Some(2)
    else None
  }

  predicate Expected(f: Frame) {
    f.manager % TWO32 != 0 && Selector(f.caller) == Some(f.selector % TWO32)
  }

  function NewFrame(f: Frame, parent: Id): Frame {
    f.(parent := parent, stage := Entered, predicate_ := NO_DISPATCH, consumer := NO_DISPATCH,
       result := 0, low8 := 0, returned := false)
  }

  /** The only snapshot a later event of the top invocation may carry. */
  function Wanted(top: Frame, ev: Event): Option<Frame> {
    var f := ev.frame;
    match ev.kind
    case RouterEntry => None
    case PredicatePre =>
      if top.stage.Entered? && f.predicate_.present && f.predicate_.f1 == 0
      then Some(top.(stage := PredicateActive, predicate_ := f.predicate_)) else None
    case PredicateReturn =>
      if top.stage.PredicateActive?
      then Some(top.(stage := PredicateReturned, result := f.result, low8 := f.low8, returned := true)) else None
    case PredicateThrow => if top.stage.PredicateActive? then Some(top.(stage := Failed)) else None
    case ConsumerThrow => if top.stage.ConsumerActive? then Some(top.(stage := Failed)) else None
    case Skip => if top.stage.PredicateReturned? && top.low8 == 0 then Some(top.(stage := Skipped)) else None
    case ConsumerPre =>
      if top.stage.PredicateReturned? && top.low8 != 0 && f.consumer.present
      then Some(top.(stage := ConsumerActive, consumer := f.consumer)) else None
    case ConsumerReturn => if top.stage.ConsumerActive? then Some(top.(stage := ConsumerReturned)) else None
    case NormalExit => if top.stage.Skipped? || top.stage.ConsumerReturned? then Some(top) else None
    case ExceptionalExit => Some(top)
  }

  function Step(top: Frame, ev: Event): Option<Frame> {
    if Wanted(top, ev) == Some(ev.frame) then Some(ev.frame) else None
  }

  datatype Lane = Lane(epoch: nat, events: seq<Event>, pending: seq<Frame>)
  datatype Window = Window(begin: nat, end: nat, freeze: nat, clockFailed: bool, observerFailed: bool, lossless: bool)
  datatype LaneState = LaneState(serial: nat, clock: nat, meta: map<nat, (bool, bool)>)

  const START := LaneState(0, 0, map[])

  function Clock(d: Window, last: nat, ev: Event): Option<nat> {
    if !ev.clockValid then if d.clockFailed && d.observerFailed then Some(last) else None
    else if 0 < ev.qpc <= QMAX && ev.qpc >= last && (!d.clockFailed ==> ev.qpc <= d.freeze) then Some(ev.qpc) else None
  }

  function LaneCheck(lane: Lane, d: Window, l: LaneState, ev: Event): Option<LaneState> {
    var f, clock := ev.frame, Clock(d, l.clock, ev);
    if f.invocation.epoch != lane.epoch || f.invocation.serial == 0 || clock.None? || !FrameShape(f) ||
       ev.expected != Expected(f) || ev.matches != (ev.observed.phaseCall != 0 && ev.observed == f.binding) then None
    else if ev.kind.RouterEntry? then
      if (d.lossless && f.invocation.serial != l.serial + 1) || !ev.clockValid || !(d.begin <= ev.qpc < d.end) ||
         ev.observed != f.binding then None
      else Some(LaneState(f.invocation.serial, clock.value, l.meta[f.invocation.serial := (ev.parentAdmitted, ev.baseNonnull)]))
    else if f.invocation.serial !in l.meta || l.meta[f.invocation.serial] != (ev.parentAdmitted, ev.baseNonnull) then None
    else Some(l.(clock := clock.value))
  }

  function Open(top: Option<Frame>, ev: Event): Option<Frame> {
    if ev.parentAdmitted && top.None? then None
    else if ev.frame == NewFrame(ev.frame, if top.Some? then top.value.invocation else NO_ID) then Some(ev.frame)
    else None
  }

  function PhaseOf(kind: Kind): N.Phase {
    if kind.RouterEntry? then N.Opens
    else if kind.NormalExit? then N.Closes(true)
    else if kind.ExceptionalExit? then N.Closes(false)
    else N.Inside
  }

  function Decoder(lane: Lane, d: Window): N.Machine<LaneState, Frame, Event> {
    N.Machine(MAX_DEPTH, (ev: Event) => ev.frame.invocation.serial, (ev: Event) => PhaseOf(ev.kind),
              (l: LaneState, ev: Event) => LaneCheck(lane, d, l, ev),
              (l: LaneState, top: Option<Frame>, ev: Event) => Open(top, ev),
              (f: Frame, ev: Event) => Step(f, ev))
  }

  type RouterRow = N.Row<Frame, Event>

  function Replayed(lane: Lane, d: Window): Option<N.Trace<LaneState, Frame, Event>> {
    N.Run(Decoder(lane, d), START, lane.events)
  }

  function Frames(stack: seq<N.Live<Frame, Event>>): seq<Frame> {
    seq(|stack|, i requires 0 <= i < |stack| => stack[i].frame)
  }

  /** The lane verdict: every event replays, and the recorded pending frames are exactly those left. */
  predicate Accepted(lane: Lane, d: Window) {
    Replayed(lane, d).Some? && lane.pending == Frames(Replayed(lane, d).value.stack)
  }

  method ReplayLane(lane: Lane, d: Window) returns (ok: bool, terminal: seq<RouterRow>)
    ensures ok <==> Accepted(lane, d)
    ensures ok ==> terminal == Replayed(lane, d).value.completed
  {
    hide LaneCheck, Open, Step;
    var r := N.Replay(Decoder(lane, d), START, lane.events);
    if r.None? { return false, []; }
    ok, terminal := lane.pending == Frames(r.value.stack), r.value.completed;
  }

  // ------------------------------------------------------------------ the path to a stage

  function Kinds(seen: seq<Event>): seq<Kind> {
    if seen == [] then [] else Kinds(seen[..|seen|-1]) + [seen[|seen|-1].kind]
  }

  function Path(stage: Stage): seq<Kind> {
    match stage
    case Entered => [RouterEntry]
    case PredicateActive => [RouterEntry, PredicatePre]
    case PredicateReturned => [RouterEntry, PredicatePre, PredicateReturn]
    case Skipped => [RouterEntry, PredicatePre, PredicateReturn, Skip]
    case ConsumerActive => [RouterEntry, PredicatePre, PredicateReturn, ConsumerPre]
    case ConsumerReturned => [RouterEntry, PredicatePre, PredicateReturn, ConsumerPre, ConsumerReturn]
    case Failed => []
  }

  /** Every stage but a failed one is reached by exactly one sequence of events, and the consumer
      operands kept are those of the consumer event. */
  ghost predicate Meaning(f: Frame, seen: seq<Event>) {
    && seen != []
    && (!f.stage.Failed? ==>
          Kinds(seen) == Path(f.stage) + (if PhaseOf(seen[|seen|-1].kind).Closes? then [seen[|seen|-1].kind] else []))
    && (f.stage.ConsumerActive? || f.stage.ConsumerReturned? ==>
          f.low8 != 0 && f.consumer.present && |seen| >= 4 && seen[3].frame.consumer == f.consumer)
    && (f.stage.Skipped? ==> f.low8 == 0)
    && (seen[|seen|-1].kind.NormalExit? ==> f.stage.Skipped? || f.stage.ConsumerReturned?)
  }

  lemma {:induction false} KindsSnoc(seen: seq<Event>, ev: Event)
    ensures Kinds(seen + [ev]) == Kinds(seen) + [ev.kind]
  {
    assert (seen + [ev])[..|seen|] == seen;
  }

  lemma {:induction false} KindsAt(seen: seq<Event>, i: nat)
    requires i < |seen|
    ensures |Kinds(seen)| == |seen| && Kinds(seen)[i] == seen[i].kind
  {
    if i < |seen| - 1 { KindsAt(seen[..|seen|-1], i); } else if |seen| > 1 { KindsAt(seen[..|seen|-1], 0); }
  }

  /** How one accepted event moves the stage and its path. */
  lemma {:induction false} PathGrows(top: Frame, ev: Event)
    requires Wanted(top, ev).Some? && !PhaseOf(ev.kind).Closes?
    ensures !ev.kind.RouterEntry?
    ensures var g := Wanted(top, ev).value;
            (g.stage.Failed? || (!top.stage.Failed? && Path(g.stage) == Path(top.stage) + [ev.kind])) &&
            (g.stage.Skipped? ==> g.low8 == 0) &&
            (g.stage.ConsumerActive? ==>
              ev.kind.ConsumerPre? && g.low8 != 0 && ev.frame.consumer.present &&
              g.consumer == ev.frame.consumer && top.stage.PredicateReturned?) &&
            (g.stage.ConsumerReturned? ==> top.stage.ConsumerActive? && g.low8 == top.low8 && g.consumer == top.consumer)
  {
  }

  lemma {:induction false} ExitKeeps(top: Frame, ev: Event)
    requires Wanted(top, ev).Some? && PhaseOf(ev.kind).Closes?
    ensures Wanted(top, ev).value == top && (ev.kind.NormalExit? ==> top.stage.Skipped? || top.stage.ConsumerReturned?)
  {
  }

  lemma {:induction false} MeaningKept(f: Frame, seen: seq<Event>, ev: Event)
    requires Meaning(f, seen) && !PhaseOf(seen[|seen|-1].kind).Closes? && Step(f, ev).Some?
    ensures Meaning(Step(f, ev).value, seen + [ev])
  {
    KindsSnoc(seen, ev);
    KindsAt(seen, 0);
    if PhaseOf(ev.kind).Closes? { ExitKeeps(f, ev); } else { PathGrows(f, ev); }
    hide Wanted, Kinds;
    assert Path(f.stage) + [] == Path(f.stage);
    var all := seen + [ev];
    assert |seen| >= 4 ==> all[3] == seen[3];
    assert f.stage.PredicateReturned? ==> |seen| == 3 && all[3] == ev;
  }

  lemma {:induction false} MeaningBegins(f: Frame, ev: Event)
    requires ev.kind.RouterEntry? && f.stage.Entered?
    ensures Meaning(f, [ev])
  {
    assert [ev][..0] == [];
    assert Kinds([]) == [];
  }

  lemma {:induction false} MeaningInductive(lane: Lane, d: Window)
    ensures N.Inductive(Decoder(lane, d), Meaning)
  {
    var m := Decoder(lane, d);
    forall l, f, ev: Event | m.phase(ev).Opens? && N.OpensTo(m, l, ev, f) ensures Meaning(f, [ev]) {
      var top :| m.open(l, top, ev) == Some(f);
      MeaningBegins(f, ev);
    }
    hide Meaning, Step;
    forall f: Frame, seen: seq<Event>, ev: Event |
      Meaning(f, seen) && N.Running(m, seen) && !m.phase(ev).Opens? && m.step(f, ev).Some?
      ensures Meaning(m.step(f, ev).value, seen + [ev])
    {
      MeaningKept(f, seen, ev);
    }
  }

  lemma {:induction false} RowMeaning(lane: Lane, d: Window, i: nat)
    requires Replayed(lane, d).Some? && i < |Replayed(lane, d).value.completed|
    ensures var row := Replayed(lane, d).value.completed[i];
            Meaning(row.frame, row.events) && PhaseOf(row.events[|row.events|-1].kind) == N.Closes(row.normal)
  {
    var m, row := Decoder(lane, d), Replayed(lane, d).value.completed[i];
    MeaningInductive(lane, d);
    N.HoldsEverywhere(m, START, lane.events, Meaning);
    N.NestsLifo(m, START, lane.events);
    hide Kinds, Path, N.Run, LaneCheck, Step, Open;
    assert Meaning(row.frame, row.events);
    assert N.Bracketed(m, lane.events, row);
  }

  // ------------------------------------------------------------------------- candidates

  /** A dispatch that returned normally after its consumer returned. */
  predicate Selected(row: RouterRow) { row.normal && row.frame.stage.ConsumerReturned? }

  datatype Candidate = Candidate(frame: Frame, entry: nat, pre: nat, returned: nat, exit: nat)

  const DISPATCHED: seq<Kind> := [RouterEntry, PredicatePre, PredicateReturn, ConsumerPre, ConsumerReturn, NormalExit]

  /** ROUTER ROWS. A normally exited dispatch either skipped its consumer after a zero predicate
      byte, or called and returned from it exactly once after a nonzero one, and nothing else. */
  lemma {:induction false} NormalRouterRow(lane: Lane, d: Window, i: nat)
    requires Replayed(lane, d).Some? && i < |Replayed(lane, d).value.completed|
    requires Replayed(lane, d).value.completed[i].normal
    ensures var row := Replayed(lane, d).value.completed[i];
            if Selected(row) then
              Kinds(row.events) == DISPATCHED && row.frame.low8 != 0 && row.frame.consumer.present &&
              |row.events| == 6 && row.events[3].frame.consumer == row.frame.consumer
            else Kinds(row.events) == [RouterEntry, PredicatePre, PredicateReturn, Skip, NormalExit] && row.frame.low8 == 0
  {
    RowMeaning(lane, d, i);
    var row := Replayed(lane, d).value.completed[i];
    KindsAt(row.events, 0);
    hide Replayed, Kinds;
  }

  /** The first event of a kind, as the evaluation looks it up; it fails when there is none. */
  method FirstOf(events: seq<Event>, kind: Kind) returns (r: Option<Event>)
    ensures r.None? <==> forall i :: 0 <= i < |events| ==> events[i].kind != kind
    ensures r.Some? ==>
              exists i :: 0 <= i < |events| && events[i] == r.value && r.value.kind == kind &&
                          forall k :: 0 <= k < i ==> events[k].kind != kind
  {
    for i := 0 to |events|
      invariant forall k :: 0 <= k < i ==> events[k].kind != kind
    {
      if events[i].kind == kind { return Some(events[i]); }
    }
    r := None;
  }

  function CandidateOf(row: RouterRow): Candidate
    requires |row.events| == 6
  {
    Candidate(row.frame, row.events[0].qpc, row.events[3].qpc, row.events[4].qpc, row.events[5].qpc)
  }

  lemma {:induction false} LookupsSucceed(events: seq<Event>)
    requires Kinds(events) == DISPATCHED
    ensures |events| == 6 && forall i :: 0 <= i < 6 ==> events[i].kind == DISPATCHED[i]
  {
    if events != [] { KindsAt(events, 0); }
    forall i | 0 <= i < |events| ensures events[i].kind == DISPATCHED[i] && |Kinds(events)| == |events| {
      KindsAt(events, i);
    }
  }

  /** CANDIDATES. Both lookups of a selected row succeed: it has exactly one consumer pre-call and
      one consumer return, and these are the clocks the candidate reports. */
  method Evaluate(lane: Lane, d: Window, row: RouterRow) returns (r: Option<Candidate>)
    requires Replayed(lane, d).Some? && row in Replayed(lane, d).value.completed && Selected(row)
    ensures |row.events| == 6 && r == Some(CandidateOf(row))
  {
    ghost var i :| 0 <= i < |Replayed(lane, d).value.completed| && Replayed(lane, d).value.completed[i] == row;
    NormalRouterRow(lane, d, i);
    LookupsSucceed(row.events);
    hide Replayed, Kinds;
    var pre := FirstOf(row.events, ConsumerPre);
    assert row.events[3].kind == ConsumerPre;
    assert row.events[4].kind == ConsumerReturn;
    if pre.None? { return None; }
    var returned := FirstOf(row.events, ConsumerReturn);
    if returned.None? { return None; }
    r := Some(Candidate(row.frame, row.events[0].qpc, pre.value.qpc, returned.value.qpc, row.events[|row.events|-1].qpc));
  }

  function ClockOf(l: LaneState): nat { l.clock }
  predicate ClockTaken(ev: Event) { ev.clockValid }
  function TimeOf(ev: Event): nat { ev.qpc }

  lemma {:induction false} LaneKeepsClock(lane: Lane, d: Window)
    ensures N.KeepsClock(Decoder(lane, d), ClockOf, ClockTaken, TimeOf)
  {
  }

  lemma {:induction false} OwnRises(m: N.Machine<LaneState, Frame, Event>, events: seq<Event>, id: nat)
    requires N.ClocksOrdered(TimeOf, events)
    ensures N.ClocksOrdered(TimeOf, N.Own(m, events, id))
    ensures N.Own(m, events, id) != [] ==>
              events != [] && N.Own(m, events, id)[|N.Own(m, events, id)|-1].qpc <= events[|events|-1].qpc
  {
    if events != [] {
      var front := events[..|events|-1];
      assert forall i :: 0 <= i < |front| ==> front[i] == events[i];
      OwnRises(m, front, id);
      var own := N.Own(m, front, id);
      assert forall i :: 0 <= i < |own| ==> TimeOf(own[i]) <= TimeOf(own[|own|-1]);
      assert front != [] ==> TimeOf(front[|front|-1]) <= TimeOf(events[|events|-1]);
    }
  }

  /** In clock order: a candidate's entry, consumer pre-call, consumer return and exit. */
  lemma {:induction false} CandidateInClockOrder(lane: Lane, d: Window, i: nat)
    requires Replayed(lane, d).Some? && forall n :: 0 <= n < |lane.events| ==> lane.events[n].clockValid
    requires i < |Replayed(lane, d).value.completed| && Selected(Replayed(lane, d).value.completed[i])
    ensures var row := Replayed(lane, d).value.completed[i];
            |row.events| == 6 && var c := CandidateOf(row); c.entry <= c.pre <= c.returned <= c.exit
  {
    var m, row := Decoder(lane, d), Replayed(lane, d).value.completed[i];
    NormalRouterRow(lane, d, i);
    LaneKeepsClock(lane, d);
    N.ClocksFollow(m, START, lane.events, ClockOf, ClockTaken, TimeOf);
    N.OwnHistories(m, START, lane.events);
    OwnRises(m, lane.events, row.id);
    hide N.Run, N.Own, Decoder, Kinds, Path, N.KeepsClock;
    assert TimeOf(row.events[0]) <= TimeOf(row.events[3]) <= TimeOf(row.events[4]) <= TimeOf(row.events[5]);
  }
}
