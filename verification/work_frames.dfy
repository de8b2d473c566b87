/** What a work body's compact frame holds, read off its events at once instead of one by one. */
module WorkFrames {
  import opened Options
  import opened WorkEmission
  import L = WorkLanguage
  import R = WorkReplay
  import N = NestedReplay

  /** How often a kind occurs. */
  function Times(t: seq<Event>, kind: Kind): nat {
    if t == [] then 0 else Times(t[..|t|-1], kind) + if t[|t|-1].kind == kind then 1 else 0
  }

  /** One payload field of the last event of a kind, or 0. */
  function Last(t: seq<Event>, kind: Kind, field: nat): nat
    requires field < 10
  {
    if t == [] then 0
    else if t[|t|-1].kind == kind then t[|t|-1].fields[field]
    else Last(t[..|t|-1], kind, field)
  }

  /** The bound loaded last, for the first job or for a later one. */
  function LastBound(t: seq<Event>): nat {
    if t == [] then 0
    else if t[|t|-1].kind.JobBound? || t[|t|-1].kind.JobReload? then t[|t|-1].fields[0]
    else LastBound(t[..|t|-1])
  }

  function Minus(a: nat, b: nat): nat { if a > b then a - b else 0 }

  /** The stage an event leads to, after this many jobs and vectors of the counted ones have returned. */
  function StageAfter(before: Stage, ev: Event, jobs: nat, vectors: nat, count: nat): Stage {
    var raw := ev.fields[0];
    match ev.kind
    case MainGate => if raw == 0 then Done else MainSet
    case ScalarCount => ScalarReady
    case ScalarCall => ScalarActive
    case ScalarReturn => if raw % 256 == 0 then CleanupReady else ScalarReady
    case CleanupCall => CleanupActive
    case CleanupReturn => ScalarReady
    case ModeGate => if raw == 0 then JobInit else VectorInit
    case JobBound => if jobs < Signed(raw) then JobReady else WaitReady
    case JobReload => if jobs < Signed(raw) then JobReady else WaitReady
    case JobCall => JobActive
    case JobReturn => JobReloading
    case WaitCall => WaitActive
    case WaitReturn => Done
    case VectorCount => if raw == 0 then Done else VectorReady
    case VectorCall => VectorActive
    case VectorReturn => if vectors < count then VectorReady else Done
    case ScalarThrow => Thrown
    case CleanupThrow => Thrown
    case JobThrow => Thrown
    case WaitThrow => Thrown
    case VectorThrow => Thrown
    case _ => before
  }

  function StageOf(t: seq<Event>): Stage {
    if t == [] then Begun
    else StageAfter(StageOf(t[..|t|-1]), t[|t|-1], Times(t, JobReturn), Times(t, VectorReturn), Last(t, VectorCount, 0))
  }

  function GatesOf(t: seq<Event>): Gates {
    Gates(Times(t, MainGate) > 0, Last(t, MainGate, 0), Times(t, ModeGate) > 0, Last(t, ModeGate, 0))
  }

  function ScalarOf(t: seq<Event>): ScalarLoop {
    ScalarLoop(Times(t, ScalarCount) > 0, Last(t, ScalarCount, 0),
               if Times(t, ScalarCall) > 0 then Last(t, ScalarCall, 1) else Last(t, ScalarCount, 0),
               Last(t, ScalarCall, 1), Last(t, ScalarReturn, 0), Times(t, ScalarCall), Times(t, CleanupCall))
  }

  function JobOf(t: seq<Event>): JobLoop {
    JobLoop(Times(t, JobBound) + Times(t, JobReload) > 0, LastBound(t), Times(t, JobReturn), Last(t, JobReturn, 0),
            Times(t, JobCall), Times(t, WaitCall))
  }

  function VectorOf(t: seq<Event>): VectorLoop {
    VectorLoop(Times(t, VectorCount) > 0, Last(t, VectorCount, 0),
               Minus(Last(t, VectorCount, 0), 1 + Times(t, VectorReturn)), Times(t, VectorCall))
  }

  /** The frame of a body with these events after its admission. */
  function FrameOf(index: nat, parent: Id, t: seq<Event>): Frame {
    Frame(index, parent, StageOf(t), GatesOf(t), ScalarOf(t), JobOf(t), VectorOf(t))
  }

  /** What has not happened yet at an early stage. */
  predicate Before(stage: Stage, t: seq<Event>) {
    && (stage.Begun? || stage.MainSet? ==> Times(t, ScalarCall) == 0)
    && (!(stage.VectorReady? || stage.VectorActive? || stage.Done? || stage.Thrown?) ==> Times(t, VectorReturn) == 0)
  }

  ghost predicate Read(f: Frame, t: seq<Event>) { f == FrameOf(f.index, f.parent, t) && Before(f.stage, t) }

  lemma {:induction false} TimesGrow(t: seq<Event>, ev: Event, kind: Kind)
    ensures Times(t + [ev], kind) == if ev.kind == kind then Times(t, kind) + 1 else Times(t, kind)
  {
    assert (t + [ev])[..|t|] == t;
  }

  lemma {:induction false} LastGrows(t: seq<Event>, ev: Event, kind: Kind, field: nat)
    requires field < 10
    ensures Last(t + [ev], kind, field) == if ev.kind == kind then ev.fields[field] else Last(t, kind, field)
  {
    assert (t + [ev])[..|t|] == t;
  }

  lemma {:induction false} Grows(t: seq<Event>, ev: Event, kind: Kind)
    ensures Times(t + [ev], kind) == if ev.kind == kind then Times(t, kind) + 1 else Times(t, kind)
    ensures Last(t + [ev], kind, 0) == if ev.kind == kind then ev.fields[0] else Last(t, kind, 0)
    ensures Last(t + [ev], kind, 1) == if ev.kind == kind then ev.fields[1] else Last(t, kind, 1)
  {
    TimesGrow(t, ev, kind);
    LastGrows(t, ev, kind, 0);
    LastGrows(t, ev, kind, 1);
    hide Times, Last;
  }

  lemma {:induction false} BoundGrows(t: seq<Event>, ev: Event)
    ensures LastBound(t + [ev]) == if ev.kind.JobBound? || ev.kind.JobReload? then ev.fields[0] else LastBound(t)
  {
    assert (t + [ev])[..|t|] == t;
  }

  lemma {:induction false} StageGrows(t: seq<Event>, ev: Event)
    ensures StageOf(t + [ev]) ==
            StageAfter(StageOf(t), ev, Times(t + [ev], JobReturn), Times(t + [ev], VectorReturn),
                       Last(t + [ev], VectorCount, 0))
  {
    assert (t + [ev])[..|t|] == t;
    hide Times, Last, StageAfter;
  }

  lemma {:induction false} GatesGrow(t: seq<Event>, ev: Event)
    ensures GatesOf(t + [ev]) ==
            match ev.kind
            case MainGate => GatesOf(t).(mainObserved := true, mainRaw := ev.fields[0])
            case ModeGate => GatesOf(t).(modeObserved := true, modeRaw := ev.fields[0])
            case _ => GatesOf(t)
  {
    hide Times, Last;
    Grows(t, ev, MainGate);
    Grows(t, ev, ModeGate);
  }

  lemma {:induction false} ScalarGrows(t: seq<Event>, ev: Event)
    ensures ev.kind.ScalarCount? && Times(t, ScalarCall) == 0 ==>
              ScalarOf(t + [ev]) == ScalarOf(t).(observed := true, count := ev.fields[0], upper := ev.fields[0])
    ensures !ev.kind.ScalarCount? ==>
              ScalarOf(t + [ev]) ==
              match ev.kind
              case ScalarCall =>
                ScalarOf(t).(index := ev.fields[1], upper := ev.fields[1], calls := ScalarOf(t).calls + 1)
              case ScalarReturn => ScalarOf(t).(returned := ev.fields[0])
              case CleanupCall => ScalarOf(t).(cleanups := ScalarOf(t).cleanups + 1)
              case _ => ScalarOf(t)
  {
    hide Times, Last;
    Grows(t, ev, ScalarCount);
    Grows(t, ev, ScalarCall);
    Grows(t, ev, ScalarReturn);
    Grows(t, ev, CleanupCall);
  }

  lemma {:induction false} JobGrows(t: seq<Event>, ev: Event)
    ensures JobOf(t + [ev]) ==
            match ev.kind
            case JobBound => JobOf(t).(observed := true, bound := ev.fields[0])
            case JobReload => JobOf(t).(observed := true, bound := ev.fields[0])
            case JobCall => JobOf(t).(calls := JobOf(t).calls + 1)
            case JobReturn => JobOf(t).(returned := ev.fields[0], next := JobOf(t).next + 1)
            case WaitCall => JobOf(t).(waits := JobOf(t).waits + 1)
            case _ => JobOf(t)
  {
    hide Times, Last, LastBound;
    Grows(t, ev, JobBound);
    Grows(t, ev, JobReload);
    Grows(t, ev, JobCall);
    Grows(t, ev, JobReturn);
    Grows(t, ev, WaitCall);
    BoundGrows(t, ev);
  }

  lemma {:induction false} VectorGrows(t: seq<Event>, ev: Event)
    ensures ev.kind.VectorCount? && Times(t, VectorReturn) == 0 ==>
              VectorOf(t + [ev]) == VectorLoop(true, ev.fields[0], Previous(ev.fields[0]), VectorOf(t).calls)
    ensures !ev.kind.VectorCount? ==>
              VectorOf(t + [ev]) ==
              match ev.kind
              case VectorCall => VectorOf(t).(calls := VectorOf(t).calls + 1)
              case VectorReturn => VectorOf(t).(next := Previous(VectorOf(t).next))
              case _ => VectorOf(t)
  {
    hide Times, Last;
    Grows(t, ev, VectorCount);
    Grows(t, ev, VectorCall);
    Grows(t, ev, VectorReturn);
  }

  /** What has happened so far settles where the step leads. */
  lemma {:induction false} StageReads(f: Frame, t: seq<Event>, ev: Event)
    requires Read(f, t) && Step(f, ev).Some?
    ensures Step(f, ev).value.stage == StageOf(t + [ev]) && Before(StageOf(t + [ev]), t + [ev])
  {
    StageGrows(t, ev);
    Grows(t, ev, ScalarCall);
    Grows(t, ev, JobReturn);
    Grows(t, ev, VectorReturn);
    Grows(t, ev, VectorCount);
    hide Times, Last, LastBound, StageOf, Payload;
  }

  lemma {:induction false} PartsRead(f: Frame, t: seq<Event>, ev: Event)
    requires Read(f, t) && Step(f, ev).Some?
    ensures var g := Step(f, ev).value;
            && g.gates == GatesOf(t + [ev]) && g.scalar == ScalarOf(t + [ev])
            && g.job == JobOf(t + [ev]) && g.vector == VectorOf(t + [ev])
  {
    GatesGrow(t, ev);
    ScalarGrows(t, ev);
    JobGrows(t, ev);
    VectorGrows(t, ev);
    hide Times, Last, LastBound, StageOf, Payload, GatesOf, ScalarOf, JobOf, VectorOf;
  }

  lemma {:induction false} ReadNext(f: Frame, t: seq<Event>, ev: Event)
    requires Read(f, t) && Step(f, ev).Some?
    ensures Read(Step(f, ev).value, t + [ev])
  {
    hide Step, StageOf, GatesOf, ScalarOf, JobOf, VectorOf, Before;
    StageReads(f, t, ev);
    PartsRead(f, t, ev);
    L.StepKeepsName(f, ev);
  }

  lemma {:induction false} NewRead(index: nat, parent: Id)
    ensures Read(NewFrame(index, parent), []) && L.Feed(NewFrame(index, parent), []) == Some(NewFrame(index, parent))
  {
  }

  lemma {:induction false} FeedSnoc(f: Frame, t: seq<Event>)
    requires t != [] && L.Feed(f, t).Some?
    ensures L.Feed(f, t[..|t|-1]).Some? && Step(L.Feed(f, t[..|t|-1]).value, t[|t|-1]) == L.Feed(f, t)
  {
    hide Step;
  }

  lemma {:induction false} FeedRead(f: Frame, t: seq<Event>)
    requires L.Feed(f, t).Some? && Read(f, []) && L.Feed(f, []) == Some(f)
    ensures Read(L.Feed(f, t).value, t)
    ensures L.Feed(f, t).value.index == f.index && L.Feed(f, t).value.parent == f.parent
    decreases |t|
  {
    hide *;
    if t == [] {
    } else {
      var front, ev := t[..|t|-1], t[|t|-1];
      FeedSnoc(f, t);
      FeedRead(f, front);
      ReadNext(L.Feed(f, front).value, front, ev);
      L.StepKeepsName(L.Feed(f, front).value, ev);
      assert t == front + [ev];
    }
  }

  /** FRAMES. The frame the steps reach one by one is the one read off the whole list: every observed
      value is the last one loaded, every counter the number of its events. */
  lemma {:induction false} FrameExactly(index: nat, parent: Id, t: seq<Event>)
    requires L.Feed(NewFrame(index, parent), t).Some?
    ensures L.Feed(NewFrame(index, parent), t) == Some(FrameOf(index, parent, t))
  {
    hide L.Feed, FrameOf, Before;
    NewRead(index, parent);
    FeedRead(NewFrame(index, parent), t);
  }

  /** The frame of every body of a replayed lane, open or ended. */
  ghost predicate Framed(f: Frame, seen: seq<Event>) { seen != [] && f == FrameOf(f.index, f.parent, seen[1..]) }

  lemma {:induction false} FedFramed(f: Frame, seen: seq<Event>)
    requires L.Fed(f, seen)
    ensures Framed(f, seen)
  {
    FrameExactly(f.index, f.parent, seen[1..]);
    hide L.Feed, FrameOf;
  }

  /** ROWS. The frame recorded for an ended body, and that of one still open, is the one its own events
      say. */
  lemma {:induction false} FramesOfLane(lane: R.Lane, d: R.Window, claimed: R.Claimed)
    requires R.Replayed(lane, d, claimed).Some?
    ensures var t := R.Replayed(lane, d, claimed).value;
            && (forall live :: live in t.stack ==> Framed(live.frame, live.events))
            && (forall row :: row in t.completed ==> Framed(row.frame, row.events))
  {
    var t := R.Replayed(lane, d, claimed).value;
    hide N.Run, R.Decoder, L.Fed, Framed, N.Inductive, N.Running;
    L.FedInductive(lane, d);
    N.HoldsEverywhere(R.Decoder(lane, d), R.Start(claimed), lane.events, L.Fed);
    forall live | live in t.stack ensures Framed(live.frame, live.events) { FedFramed(live.frame, live.events); }
    forall row | row in t.completed ensures Framed(row.frame, row.events) { FedFramed(row.frame, row.events); }
  }
}
