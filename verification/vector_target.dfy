/** The actual vector-target body: seven table-driven call sites around one gate and one counter. */
module VectorTarget {
  import opened Options
  import N = NestedReplay

  const U32: nat := 0xFFFF_FFFF
  const TWO32: nat := 0x1_0000_0000
  const QMAX: nat := 0x7FFF_FFFF_FFFF_FFFF
  const MAX_DEPTH: nat := 8
  const CALLERS: seq<nat> := [0x8259F334, 0x8259F34C, 0x8259F364, 0x8259F36C, 0x8259F474, 0x8259F48C, 0x8259F4B4]
  const READY: seq<nat> := [1, 2, 3, 4, 7, 8, 11]
  const AFTER: seq<nat> := [2, 3, 4, 5, 8, 9, 12]

  datatype Id = Id(epoch: nat, serial: nat)
  const NO_ID := Id(0, 0)

  datatype Kind =
    | Admission | VectorLoad | CallPre | CallReturn | CallThrow | FlagStore | SlotGate
    | CounterLoad | CounterStore | BodyReturn | BodyThrow

  type Words = s: seq<nat> | |s| == 4 witness [0, 0, 0, 0]
  type Site = n: nat | n < 7
  const ZEROS: Words := [0, 0, 0, 0]

  /** An admitted body: its own and its work parent's identity, the ordinal of the vector call it
      answers, and the operands it was entered with. */
  datatype Entry = Entry(own: Id, work: Id, workEntry: nat, ordinal: nat, parentEvent: nat,
                         r3: nat, v1: Words, thread: nat)

  datatype Event = Event(index: nat, invocation: Id, kind: Kind, site: Site, fields: Words, vector: Words,
                         clockValid: bool, qpc: nat, bindingMatches: bool, parentAdmitted: bool)

  datatype Frame = Frame(index: nat, parent: Id, stage: nat, active: Site, counter: nat)

  function NewFrame(index: nat, parent: Id): Frame { Frame(index, parent, 0, 0, 0) }

  function Used(kind: Kind): nat {
    match kind
    case VectorLoad => 1 case CallPre => 3 case FlagStore => 2 case SlotGate => 1
    case CounterLoad => 2 case CounterStore => 3
    case _ => 0
  }

  predicate Payload(ev: Event) {
    && (forall i :: Used(ev.kind) <= i < 4 ==> ev.fields[i] == 0)
    && (ev.kind.VectorLoad? || ev.kind.CallPre? || ev.vector == ZEROS)
    && (ev.kind.CallPre? || ev.kind.CallReturn? || ev.kind.CallThrow? || ev.site == 0)
  }

  function Aligned(address: nat): nat { address % TWO32 - address % TWO32 % 16 }

  /** The counter value that sends the body through its last call. */
  predicate Reaches(stored: nat) { 32 < stored % TWO32 < 0x8000_0000 }

  function CallStep(f: Frame, ev: Event, entry: Entry): Option<Frame> {
    var a := ev.fields;
    match ev.kind
    case CallPre =>
      if f.stage == READY[ev.site] && a[0] == CALLERS[ev.site] && a[1] == entry.r3 &&
         (ev.site == 0 || ev.site == 1 || ev.site == 2 || ev.site == 5 ==> ev.vector == entry.v1)
      then Some(f.(active := ev.site, stage := 13)) else None
    case CallReturn => if f.stage == 13 && f.active == ev.site then Some(f.(stage := AFTER[ev.site])) else None
    case CallThrow => if f.stage == 13 && f.active == ev.site then Some(f.(stage := 14)) else None
    case _ => None
  }

  function MemoryStep(f: Frame, ev: Event, entry: Entry): Option<Frame> {
    var a, address := ev.fields, entry.r3 % TWO32;
    match ev.kind
    case VectorLoad =>
      if f.stage == 0 && a[0] == Aligned(address + 400) then Some(f.(stage := 1)) else None
    case FlagStore =>
      if f.stage == 5 && a[0] == (address + 657) % TWO32 && a[1] <= 1 then Some(f.(stage := 6)) else None
    case SlotGate =>
      if f.stage == 6 && (a[0] == 0 || a[0] == 16) then Some(f.(stage := if a[0] != 0 then 8 else 7)) else None
    case CounterLoad =>
      if f.stage == 9 && a[0] == (address + 664) % TWO32 && a[1] <= U32
      then Some(f.(counter := a[1], stage := 10)) else None
    case CounterStore =>
      if f.stage == 10 && a[0] == (address + 664) % TWO32 && a[1] == f.counter && a[2] == a[1] + 1
      then Some(f.(stage := if Reaches(a[2]) then 11 else 12)) else None
    case _ => None
  }

  /** One event of an admitted body; original memory operations may throw at any point. */
  function Step(f: Frame, ev: Event, entry: Entry): Option<Frame> {
    if !Payload(ev) then None
    else
      match ev.kind
      case Admission => None
      case CallPre | CallReturn | CallThrow => CallStep(f, ev, entry)
      case BodyReturn => if f.stage == 12 then Some(f) else None
      case BodyThrow => Some(f)
      case _ => MemoryStep(f, ev, entry)
  }

  /** The frame as the decoder holds it. A refused event leaves it as it was. */
  class Body {
    const index: nat
    const parent: Id
    var stage: nat
    var active: Site
    var counter: nat

    function Value(): Frame
      reads this
    {
      Frame(index, parent, stage, active, counter)
    }

    constructor (index: nat, parent: Id)
      ensures Value() == NewFrame(index, parent)
    {
      this.index, this.parent, stage, active, counter := index, parent, 0, 0, 0;
    }

    method Accept(ev: Event, entry: Entry) returns (ok: bool)
      modifies this
      ensures ok <==> Step(old(Value()), ev, entry).Some?
      ensures Value() == if ok then Step(old(Value()), ev, entry).value else old(Value())
    {
      var a, address := ev.fields, entry.r3 % TWO32;
      if !Payload(ev) { return false; }
      hide Payload;
      ok := true;
      match ev.kind
      case VectorLoad =>
        if stage != 0 || a[0] != Aligned(address + 400) { return false; }
        stage := 1;
      case CallPre =>
        if stage != READY[ev.site] || a[0] != CALLERS[ev.site] || a[1] != entry.r3 { return false; }
        if (ev.site == 0 || ev.site == 1 || ev.site == 2 || ev.site == 5) && ev.vector != entry.v1 { return false; }
        active, stage := ev.site, 13;
      case CallReturn =>
        if stage != 13 || active != ev.site { return false; }
        stage := AFTER[ev.site];
      case CallThrow =>
        if stage != 13 || active != ev.site { return false; }
        stage := 14;
      case FlagStore =>
        if stage != 5 || a[0] != (address + 657) % TWO32 || a[1] > 1 { return false; }
        stage := 6;
      case SlotGate =>
        if stage != 6 || (a[0] != 0 && a[0] != 16) { return false; }
        stage := if a[0] != 0 then 8 else 7;
      case CounterLoad =>
        if stage != 9 || a[0] != (address + 664) % TWO32 || a[1] > U32 { return false; }
        counter, stage := a[1], 10;
      case CounterStore =>
        if stage != 10 || a[0] != (address + 664) % TWO32 || a[1] != counter || a[2] != a[1] + 1 { return false; }
        var low := a[2] % TWO32;
        stage := if 32 < low < 0x8000_0000 then 11 else 12;
      case BodyReturn => ok := stage == 12;
      case BodyThrow =>
      case Admission => ok := false;
    }
  }

  // ----------------------------------------------------------------- the visited sites

  function Sites(seen: seq<Event>, kind: Kind): seq<Site> {
    if seen == [] then []
    else
      var rest := Sites(seen[..|seen|-1], kind);
      if seen[|seen|-1].kind == kind then rest + [seen[|seen|-1].site] else rest
  }

  /** The values one field took over the body's events of a kind. */
  function Values(seen: seq<Event>, kind: Kind, field: nat): seq<nat>
    requires field < 4
  {
    if seen == [] then []
    else
      var rest := Values(seen[..|seen|-1], kind, field);
      if seen[|seen|-1].kind == kind then rest + [seen[|seen|-1].fields[field]] else rest
  }

  lemma {:induction false} SitesSnoc(seen: seq<Event>, ev: Event, kind: Kind)
    ensures Sites(seen + [ev], kind) == Sites(seen, kind) + if ev.kind == kind then [ev.site] else []
  {
    assert (seen + [ev])[..|seen|] == seen;
  }

  lemma {:induction false} ValuesSnoc(seen: seq<Event>, ev: Event, kind: Kind, field: nat)
    requires field < 4
    ensures Values(seen + [ev], kind, field) ==
            Values(seen, kind, field) + if ev.kind == kind then [ev.fields[field]] else []
  {
    assert (seen + [ev])[..|seen|] == seen;
  }

  function Middle(gate: nat): seq<Site> { if gate == 0 then [4] else [] }

  function Last(stored: nat): seq<Site> { if Reaches(stored) then [6] else [] }

  /** The sites a whole body visits, given its gate and the counter it stored. */
  function Route(gate: nat, stored: nat): seq<Site> { [0, 1, 2, 3] + Middle(gate) + [5] + Last(stored) }

  /** Where a body stands between calls: the sites it has finished, its gate and its counter. */
  ghost predicate Stands(stage: nat, sites: seq<Site>, gates: seq<nat>, stores: seq<nat>) {
    match stage
    case 0 => sites == [] && gates == [] && stores == []
    case 1 => sites == [] && gates == [] && stores == []
    case 2 => sites == [0] && gates == [] && stores == []
    case 3 => sites == [0, 1] && gates == [] && stores == []
    case 4 => sites == [0, 1, 2] && gates == [] && stores == []
    case 5 => sites == [0, 1, 2, 3] && gates == [] && stores == []
    case 6 => sites == [0, 1, 2, 3] && gates == [] && stores == []
    case 7 => sites == [0, 1, 2, 3] && gates == [0] && stores == []
    case 8 => |gates| == 1 && sites == [0, 1, 2, 3] + Middle(gates[0]) && stores == []
    case 9 => |gates| == 1 && sites == [0, 1, 2, 3] + Middle(gates[0]) + [5] && stores == []
    case 10 => |gates| == 1 && sites == [0, 1, 2, 3] + Middle(gates[0]) + [5] && stores == []
    case 11 => |gates| == 1 && |stores| == 1 && Reaches(stores[0]) && sites == [0, 1, 2, 3] + Middle(gates[0]) + [5]
    case 12 => |gates| == 1 && |stores| == 1 && sites == Route(gates[0], stores[0])
    case _ => false
  }

  /** A body in a call stands where that call's site was ready. */
  ghost predicate Progress(f: Frame, begun: seq<Site>, done: seq<Site>, gates: seq<nat>, stores: seq<nat>) {
    f.stage == 14 ||
    (if f.stage == 13 then begun == done + [f.active] && Stands(READY[f.active], done, gates, stores)
     else begun == done && Stands(f.stage, done, gates, stores))
  }

  ghost predicate Meaning(f: Frame, seen: seq<Event>) {
    && Progress(f, Sites(seen, CallPre), Sites(seen, CallReturn), Values(seen, SlotGate, 0), Values(seen, CounterStore, 2))
    && (seen != [] && seen[|seen|-1].kind.BodyReturn? ==> f.stage == 12)
  }

  lemma {:induction false} ReadyIsNoCall(site: Site)
    ensures READY[site] <= 11 && AFTER[site] <= 12
  {
    assert site == 0 || site == 1 || site == 2 || site == 3 || site == 4 || site == 5 || site == 6;
  }

  /** A returned call adds its site and moves to the next stage of the tables. */
  lemma {:induction false} CallAdvances(site: Site, sites: seq<Site>, gates: seq<nat>, stores: seq<nat>)
    requires Stands(READY[site], sites, gates, stores)
    ensures Stands(AFTER[site], sites + [site], gates, stores)
  {
    hide Reaches;
    match site
    case 0 => case 1 => case 2 => case 3 =>
    case 4 => assert gates[0] == 0;
    case 5 =>
    case 6 =>
  }

  lemma {:induction false} CallKept(f: Frame, ev: Event, entry: Entry, begun: seq<Site>, done: seq<Site>,
      gates: seq<nat>, stores: seq<nat>)
    requires Progress(f, begun, done, gates, stores) && CallStep(f, ev, entry).Some?
    ensures Progress(CallStep(f, ev, entry).value,
                     begun + if ev.kind.CallPre? then [ev.site] else [],
                     done + if ev.kind.CallReturn? then [ev.site] else [], gates, stores)
  {
    ReadyIsNoCall(ev.site);
    if ev.kind.CallReturn? { CallAdvances(ev.site, done, gates, stores); }
    hide Stands;
    assert begun + [] == begun && done + [] == done;
  }

  lemma {:induction false} MemoryKept(f: Frame, ev: Event, entry: Entry, sites: seq<Site>, gates: seq<nat>,
      stores: seq<nat>)
    requires Stands(f.stage, sites, gates, stores) && MemoryStep(f, ev, entry).Some?
    ensures MemoryStep(f, ev, entry).value.stage <= 12
    ensures Stands(MemoryStep(f, ev, entry).value.stage, sites,
                   gates + if ev.kind.SlotGate? then [ev.fields[0]] else [],
                   stores + if ev.kind.CounterStore? then [ev.fields[2]] else [])
  {
    hide Reaches, Aligned;
    assert gates + [] == gates && stores + [] == stores;
    if ev.kind.CounterStore? { assert stores + [ev.fields[2]] == [ev.fields[2]]; }
    if ev.kind.SlotGate? { assert gates + [ev.fields[0]] == [ev.fields[0]]; }
  }

  lemma {:induction false} MemoryOutsideCalls(f: Frame, ev: Event, entry: Entry)
    requires MemoryStep(f, ev, entry).Some?
    ensures f.stage <= 10
  {
  }

  lemma {:induction false} MemoryProgress(f: Frame, ev: Event, entry: Entry, begun: seq<Site>, done: seq<Site>,
      gates: seq<nat>, stores: seq<nat>)
    requires Progress(f, begun, done, gates, stores) && MemoryStep(f, ev, entry).Some?
    ensures Progress(MemoryStep(f, ev, entry).value, begun, done,
                     gates + if ev.kind.SlotGate? then [ev.fields[0]] else [],
                     stores + if ev.kind.CounterStore? then [ev.fields[2]] else [])
  {
    MemoryOutsideCalls(f, ev, entry);
    MemoryKept(f, ev, entry, done, gates, stores);
    hide Stands, MemoryStep;
  }

  lemma {:induction false} ProgressKept(f: Frame, ev: Event, entry: Entry, begun: seq<Site>, done: seq<Site>,
      gates: seq<nat>, stores: seq<nat>)
    requires Progress(f, begun, done, gates, stores) && Step(f, ev, entry).Some?
    ensures Progress(Step(f, ev, entry).value,
                     begun + if ev.kind.CallPre? then [ev.site] else [],
                     done + if ev.kind.CallReturn? then [ev.site] else [],
                     gates + if ev.kind.SlotGate? then [ev.fields[0]] else [],
                     stores + if ev.kind.CounterStore? then [ev.fields[2]] else [])
  {
    hide Payload, CallStep, MemoryStep, Progress;
    assert begun + [] == begun && done + [] == done && gates + [] == gates && stores + [] == stores;
    match ev.kind
    case CallPre | CallReturn | CallThrow => CallKept(f, ev, entry, begun, done, gates, stores);
    case Admission | BodyReturn | BodyThrow =>
    case _ => MemoryProgress(f, ev, entry, begun, done, gates, stores);
  }

  lemma {:induction false} ReturnsAtTheEnd(f: Frame, ev: Event, entry: Entry)
    requires Step(f, ev, entry).Some? && ev.kind.BodyReturn?
    ensures Step(f, ev, entry).value.stage == 12
  {
  }

  lemma {:induction false} MeaningKept(f: Frame, seen: seq<Event>, ev: Event, entry: Entry)
    requires Meaning(f, seen) && Step(f, ev, entry).Some?
    ensures Meaning(Step(f, ev, entry).value, seen + [ev])
  {
    SitesSnoc(seen, ev, CallPre);
    SitesSnoc(seen, ev, CallReturn);
    ValuesSnoc(seen, ev, SlotGate, 0);
    ValuesSnoc(seen, ev, CounterStore, 2);
    hide Sites, Values, Step, Progress;
    ProgressKept(f, ev, entry, Sites(seen, CallPre), Sites(seen, CallReturn), Values(seen, SlotGate, 0), Values(seen, CounterStore, 2));
    if ev.kind.BodyReturn? { ReturnsAtTheEnd(f, ev, entry); }
  }

  lemma {:induction false} MeaningBegins(index: nat, parent: Id, ev: Event)
    requires ev.kind.Admission?
    ensures Meaning(NewFrame(index, parent), [ev])
  {
    assert [ev][..0] == [];
    assert Sites([], CallPre) == [] && Sites([], CallReturn) == [];
    assert Values([], SlotGate, 0) == [] && Values([], CounterStore, 2) == [];
  }

  // ----------------------------------------------------------------------- lane replay

  datatype Lane = Lane(epoch: nat, thread: nat, workEpoch: nat, entries: seq<Entry>, events: seq<Event>,
                       pending: seq<Frame>)

  datatype Window = Window(begin: nat, end: nat, freeze: nat, clockFailed: bool, observerFailed: bool,
                           lossless: bool, mismatched: bool)

  datatype LaneState = LaneState(entered: nat, own: nat, work: nat, parentEvent: nat, clock: nat, lexical: map<Id, bool>)

  const START := LaneState(0, 0, 0, 0, 0, map[])

  function Clock(d: Window, last: nat, ev: Event): Option<nat> {
    if !ev.clockValid then if d.clockFailed && d.observerFailed then Some(last) else None
    else if 0 < ev.qpc <= QMAX && ev.qpc >= last && ev.qpc >= d.begin && (ev.kind.Admission? ==> ev.qpc < d.end) &&
            (!d.clockFailed ==> ev.qpc <= d.freeze)
    then Some(ev.qpc) else None
  }

  /** Own serials and parent events rise; within one work body the vector ordinals fall. */
  predicate Admits(lane: Lane, d: Window, l: LaneState, ev: Event)
    requires ev.index < |lane.entries|
  {
    var e := lane.entries[ev.index];
    && ev.fields == ZEROS && ev.vector == ZEROS && ev.site == 0
    && ev.index == l.entered && ev.bindingMatches && ev.clockValid
    && e.own.serial > l.own && e.work.serial >= l.work && e.parentEvent > l.parentEvent
    && (l.entered > 0 && e.work.serial == l.work ==>
          e.workEntry == lane.entries[l.entered-1].workEntry && e.ordinal < lane.entries[l.entered-1].ordinal)
    && (d.lossless ==> e.own.serial == l.own + 1)
  }

  function LaneCheck(lane: Lane, d: Window, l: LaneState, ev: Event): Option<LaneState> {
    var clock := Clock(d, l.clock, ev);
    if ev.index >= |lane.entries| || clock.None? then None
    else
      var e := lane.entries[ev.index];
      if ev.invocation != e.own || e.own.epoch != lane.epoch || e.work.epoch != lane.workEpoch ||
         e.thread != lane.thread || e.own.epoch == 0 || e.work.epoch == 0 || e.own.serial == 0 || e.work.serial == 0 ||
         (!ev.bindingMatches && !(d.observerFailed && d.mismatched)) then None
      else if ev.kind.Admission? then
        if !Admits(lane, d, l, ev) then None
        else Some(LaneState(l.entered + 1, e.own.serial, e.work.serial, e.parentEvent, clock.value,
                            l.lexical[e.own := ev.parentAdmitted]))
      else if e.own !in l.lexical || l.lexical[e.own] != ev.parentAdmitted then None
      else Some(l.(clock := clock.value))
  }

  function Open(lane: Lane, top: Option<Frame>, ev: Event): Option<Frame> {
    if ev.parentAdmitted && top.None? then None
    else
      Some(NewFrame(ev.index, if top.Some? && top.value.index < |lane.entries| then lane.entries[top.value.index].own else NO_ID))
  }

  function StepIn(lane: Lane, f: Frame, ev: Event): Option<Frame> {
    if ev.index < |lane.entries| then Step(f, ev, lane.entries[ev.index]) else None
  }

  function PhaseOf(kind: Kind): N.Phase {
    if kind.Admission? then N.Opens
    else if kind.BodyReturn? then N.Closes(true)
    else if kind.BodyThrow? then N.Closes(false)
    else N.Inside
  }

  function Decoder(lane: Lane, d: Window): N.Machine<LaneState, Frame, Event> {
    N.Machine(MAX_DEPTH, (ev: Event) => ev.index + 1, (ev: Event) => PhaseOf(ev.kind),
              (l: LaneState, ev: Event) => LaneCheck(lane, d, l, ev),
              (l: LaneState, top: Option<Frame>, ev: Event) => Open(lane, top, ev),
              (f: Frame, ev: Event) => StepIn(lane, f, ev))
  }

  function Replayed(lane: Lane, d: Window): Option<N.Trace<LaneState, Frame, Event>> {
    N.Run(Decoder(lane, d), START, lane.events)
  }

  function Frames(stack: seq<N.Live<Frame, Event>>): seq<Frame> {
    seq(|stack|, i requires 0 <= i < |stack| => stack[i].frame)
  }

  /** The lane verdict: every entry admitted once, the recorded pending frames exactly those left. */
  predicate Accepted(lane: Lane, d: Window) {
    var t := Replayed(lane, d);
    t.Some? && t.value.lane.entered == |lane.entries| && lane.pending == Frames(t.value.stack) &&
    (lane.workEpoch != 0 <==> t.value.lane.entered != 0)
  }

  method ReplayLane(lane: Lane, d: Window) returns (ok: bool, completed: seq<N.Row<Frame, Event>>)
    ensures ok <==> Accepted(lane, d)
    ensures ok ==> completed == Replayed(lane, d).value.completed
  {
    hide LaneCheck, Open, Step;
    var r := N.Replay(Decoder(lane, d), START, lane.events);
    if r.None? { return false, []; }
    var t := r.value;
    ok := t.lane.entered == |lane.entries| && lane.pending == Frames(t.stack) &&
      (lane.workEpoch != 0 <==> t.lane.entered != 0);
    completed := t.completed;
  }

  lemma {:induction false} MeaningInductive(lane: Lane, d: Window)
    ensures N.Inductive(Decoder(lane, d), Meaning)
  {
    var m := Decoder(lane, d);
    forall l, f, ev: Event | m.phase(ev).Opens? && N.OpensTo(m, l, ev, f) ensures Meaning(f, [ev]) {
      var top :| m.open(l, top, ev) == Some(f);
      MeaningBegins(f.index, f.parent, ev);
    }
    hide Meaning, Step;
    forall f: Frame, seen: seq<Event>, ev: Event |
      Meaning(f, seen) && N.Running(m, seen) && !m.phase(ev).Opens? && m.step(f, ev).Some?
      ensures Meaning(m.step(f, ev).value, seen + [ev])
    {
      MeaningKept(f, seen, ev, lane.entries[ev.index]);
    }
  }

  /** TARGET BODIES. A normally returned body visited sites 0, 1, 2, 3, then 4 exactly when its one
      gate was 0, then 5, then 6 exactly when the low word of its one stored counter lies strictly
      between 32 and 2^31; and it returned from each before the next. */
  lemma {:induction false} NormalTargetBody(lane: Lane, d: Window, i: nat)
    requires Replayed(lane, d).Some? && i < |Replayed(lane, d).value.completed|
    requires Replayed(lane, d).value.completed[i].normal
    ensures var seen := Replayed(lane, d).value.completed[i].events;
            var gates, stores := Values(seen, SlotGate, 0), Values(seen, CounterStore, 2);
            |gates| == 1 && |stores| == 1 &&
            Sites(seen, CallPre) == Route(gates[0], stores[0]) && Sites(seen, CallReturn) == Sites(seen, CallPre)
  {
    RowMeaning(lane, d, i);
    hide Replayed, Sites, Values, Route;
  }

  lemma {:induction false} RowMeaning(lane: Lane, d: Window, i: nat)
    requires Replayed(lane, d).Some? && i < |Replayed(lane, d).value.completed|
    ensures var row := Replayed(lane, d).value.completed[i];
            Meaning(row.frame, row.events) && (row.normal ==> row.frame.stage == 12)
  {
    var m, row := Decoder(lane, d), Replayed(lane, d).value.completed[i];
    MeaningInductive(lane, d);
    N.HoldsEverywhere(m, START, lane.events, Meaning);
    N.NestsLifo(m, START, lane.events);
    hide Progress, N.Run, LaneCheck, Step, Open;
    assert Meaning(row.frame, row.events);
    assert N.Bracketed(m, lane.events, row);
    assert row.normal ==> PhaseOf(row.events[|row.events|-1].kind) == N.Closes(true);
  }

  // --------------------------------------------------- what the adjacent entry checks cover

  /** Of all admitted entries, not only neighbours: serials and parent events rise, and those of one
      work body share its entry and answer strictly falling ordinals. */
  ghost predicate EntriesOrdered(lane: Lane, entered: nat)
    requires entered <= |lane.entries|
  {
    forall i, k :: 0 <= i < k < entered ==>
      var a, b := lane.entries[i], lane.entries[k];
      a.own.serial < b.own.serial && a.parentEvent < b.parentEvent && a.work.serial <= b.work.serial &&
      (a.work.serial == b.work.serial ==> a.workEntry == b.workEntry && a.ordinal > b.ordinal)
  }

  ghost predicate Counted(lane: Lane, l: LaneState) {
    l.entered <= |lane.entries| && EntriesOrdered(lane, l.entered) &&
    (l.entered > 0 ==>
      var last := lane.entries[l.entered-1];
      l.own == last.own.serial && l.work == last.work.serial && l.parentEvent == last.parentEvent)
  }

  lemma {:induction false} CountedNext(lane: Lane, d: Window, l: LaneState, ev: Event)
    requires Counted(lane, l) && LaneCheck(lane, d, l, ev).Some?
    ensures Counted(lane, LaneCheck(lane, d, l, ev).value)
  {
    hide Clock;
    var next := LaneCheck(lane, d, l, ev).value;
    if ev.kind.Admission? && l.entered > 0 {
      var last, e := lane.entries[l.entered-1], lane.entries[l.entered];
      forall i | 0 <= i < l.entered
        ensures var a := lane.entries[i];
                a.own.serial < e.own.serial && a.parentEvent < e.parentEvent && a.work.serial <= e.work.serial &&
                (a.work.serial == e.work.serial ==> a.workEntry == e.workEntry && a.ordinal > e.ordinal)
      {
        if i < l.entered - 1 { assert lane.entries[i].work.serial <= last.work.serial; }
      }
    }
  }

  lemma {:induction false} AllEntriesOrdered(lane: Lane, d: Window, events: seq<Event>)
    requires N.Run(Decoder(lane, d), START, events).Some?
    ensures Counted(lane, N.Run(Decoder(lane, d), START, events).value.lane)
  {
    if events == [] {
    } else {
      var m, front := Decoder(lane, d), events[..|events|-1];
      N.RunSnoc(m, START, events);
      N.StepMoves(m, |events| - 1, N.Run(m, START, front).value, events[|events|-1]);
      AllEntriesOrdered(lane, d, front);
      hide N.Run, N.Step, N.Moves, Counted, LaneCheck;
      CountedNext(lane, d, N.Run(m, START, front).value.lane, events[|events|-1]);
    }
  }

  // ---------------------------------------------------------------------- clock nesting

  function ClockOf(l: LaneState): nat { l.clock }
  predicate ClockTaken(ev: Event) { ev.clockValid }
  function TimeOf(ev: Event): nat { ev.qpc }

  lemma {:induction false} LaneKeepsClock(lane: Lane, d: Window)
    ensures N.KeepsClock(Decoder(lane, d), ClockOf, ClockTaken, TimeOf)
  {
  }

  /** A target body admitted inside another has its whole clock bracket inside the other's. */
  lemma {:induction false} InnerTargetInsideOuter(lane: Lane, d: Window, i: nat, k: nat)
    requires Replayed(lane, d).Some? && forall n :: 0 <= n < |lane.events| ==> lane.events[n].clockValid
    requires i < |Replayed(lane, d).value.completed| && k < |Replayed(lane, d).value.completed|
    requires var rows := Replayed(lane, d).value.completed; rows[i].first < rows[k].first < rows[i].last
    ensures var rows := Replayed(lane, d).value.completed;
            rows[i].events != [] && rows[k].events != [] &&
            rows[i].events[0].qpc <= rows[k].events[0].qpc <= rows[k].events[|rows[k].events|-1].qpc <=
            rows[i].events[|rows[i].events|-1].qpc
  {
    LaneKeepsClock(lane, d);
    N.ClocksFollow(Decoder(lane, d), START, lane.events, ClockOf, ClockTaken, TimeOf);
    N.InnerInsideOuter(Decoder(lane, d), START, lane.events, TimeOf, i, k);
    hide N.Run, N.KeepsClock, Decoder;
  }
}
