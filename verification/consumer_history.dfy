/** Which calls a recorder takes, said over the events its invocation has in the log. */
module ConsumerHistory {
  import opened ConsumerDetail
  import opened ConsumerRecorder
  import L = ConsumerLanguage
  import F = ConsumerFaults

  /** The kinds of one invocation's events, in order. */
  function OwnKinds(log: seq<Event>, id: Id): seq<Kind> {
    if log == [] then []
    else
      var last := log[|log|-1];
      OwnKinds(log[..|log|-1], id) + if last.frame.entry.invocation == id then [last.kind] else []
  }

  /** The word its branch selected by. */
  function Selector(log: seq<Event>, id: Id): u64 {
    if log == [] then 0
    else
      var last := log[|log|-1];
      if last.frame.entry.invocation == id && last.kind.BranchEvent? then last.frame.r11
      else Selector(log[..|log|-1], id)
  }

  /** Entered, branched, and this many children called and returned. */
  function Done(children: nat): seq<Kind> {
    if children == 0 then [EntryEvent, BranchEvent] else Done(children - 1) + [ChildPreEvent, ChildReturnEvent]
  }

  /** The invocation's own events allow the call next. */
  predicate MayFollow(log: seq<Event>, call: Call) {
    match call
    case Enter(_) => true
    case Freeze => true
    case Branch(id, _) => OwnKinds(log, id) == [EntryEvent]
    case ChildPre(id, child, caller, _, _, ctr) =>
      child < 3 && OwnKinds(log, id) == Done(child) && Low32(Selector(log, id)) != 0 &&
      caller == CHILD_LR[child] && (child > 0 ==> ctr == 0)
    case ChildEnd(id, child, _) => child < 3 && OwnKinds(log, id) == Done(child) + [ChildPreEvent]
    case Exit(id, normal) =>
      normal ==> OwnKinds(log, id) == Done(if Low32(Selector(log, id)) == 0 then 0 else 3)
  }

  // ------------------------------------------------------------------ what a frame recalls

  /** The frame's stage is that of its own events. */
  predicate Recalls(f: Frame, kinds: seq<Kind>) {
    match f.stage
    case Entered => kinds == [EntryEvent]
    case Branched => kinds == Done(0)
    case ChildActive => kinds == Done(f.returned) + [ChildPreEvent]
    case ChildReturned => kinds == Done(f.returned)
    case ChildFailed => kinds == Done(f.returned) + [ChildPreEvent, ChildExceptionEvent]
  }

  lemma {:induction false} DoneShape(n: nat)
    ensures |Done(n)| == 2 + 2 * n
    ensures Done(n)[|Done(n)|-1] == if n == 0 then BranchEvent else ChildReturnEvent
  {
    if n > 0 { DoneShape(n - 1); }
  }

  lemma {:induction false} StageTells(f: Frame, kinds: seq<Kind>, child: nat)
    requires L.Route(f) && Recalls(f, kinds)
    ensures f.stage.Entered? <==> kinds == [EntryEvent]
    ensures kinds == Done(child) <==> (f.stage.Branched? || f.stage.ChildReturned?) && child == f.returned
    ensures kinds == Done(child) + [ChildPreEvent] <==> f.stage.ChildActive? && child == f.returned
  {
    DoneShape(child);
    DoneShape(f.returned);
    DoneShape(0);
    hide Done;
    var n := |kinds| - 1;
    assert (Done(child) + [ChildPreEvent])[|Done(child)|] == ChildPreEvent;
    assert f.stage.ChildFailed? ==> kinds[n] == ChildExceptionEvent;
    assert f.stage.ChildActive? ==> kinds[n] == ChildPreEvent;
  }

  ghost predicate Known(log: seq<Event>, f: Frame) {
    L.Route(f) && Recalls(f, OwnKinds(log, f.entry.invocation)) &&
    (f.observed ==> f.r11 == Selector(log, f.entry.invocation))
  }

  /** Open frames have rising serials of this recorder, none above the last one admitted, and each recalls
      its own events; no event names a serial not admitted yet. */
  ghost predicate Recorded(s: Recorder) {
    && (forall i :: 0 <= i < |s.stack| ==>
          Known(s.log, s.stack[i]) && s.stack[i].entry.invocation.serial <= s.lastSerial)
    && (forall i, k :: 0 <= i < k < |s.stack| ==>
          s.stack[i].entry.invocation.serial < s.stack[k].entry.invocation.serial)
    && (forall i :: 0 <= i < |s.log| ==> s.log[i].frame.entry.invocation.serial <= s.lastSerial)
  }

  lemma {:induction false} MayExactly(depth: nat, s: Recorder, call: Call)
    requires s.stack != [] && Known(s.log, s.stack[|s.stack|-1]) && F.Identified(s, call)
    requires !call.Enter? && !call.Freeze?
    ensures Decide(depth, s, call).Refuse? <==> !MayFollow(s.log, call)
    ensures Decide(depth, s, call).Refuse? ==> Decide(depth, s, call) == Refuse(TransitionFault)
  {
    var f := s.stack[|s.stack|-1];
    var kinds := OwnKinds(s.log, f.entry.invocation);
    StageTells(f, kinds, 0);
    StageTells(f, kinds, 3);
    if call.ChildPre? || call.ChildEnd? { StageTells(f, kinds, call.child); }
    hide Recalls, OwnKinds, Selector, Done, Selected, Branching, Calling, Ending;
  }

  lemma {:induction false} SnocOwn(log: seq<Event>, ev: Event, id: Id)
    ensures OwnKinds(log + [ev], id) ==
            if ev.frame.entry.invocation == id then OwnKinds(log, id) + [ev.kind] else OwnKinds(log, id)
    ensures Selector(log + [ev], id) ==
            if ev.frame.entry.invocation == id && ev.kind.BranchEvent? then ev.frame.r11 else Selector(log, id)
  {
    assert (log + [ev])[..|log|] == log;
  }

  lemma {:induction false} StrangerKnown(log: seq<Event>, ev: Event, f: Frame)
    requires Known(log, f) && ev.frame.entry.invocation != f.entry.invocation
    ensures Known(log + [ev], f)
  {
    SnocOwn(log, ev, f.entry.invocation);
    hide OwnKinds, Selector, Recalls;
  }

  lemma {:induction false} Unseen(log: seq<Event>, id: Id)
    requires forall i :: 0 <= i < |log| ==> log[i].frame.entry.invocation != id
    ensures OwnKinds(log, id) == []
  {
    if log != [] { Unseen(log[..|log|-1], id); }
  }

  lemma {:induction false} NewKnown(log: seq<Event>, entry: Entry, parent: Id)
    requires forall i :: 0 <= i < |log| ==> log[i].frame.entry.invocation != entry.invocation
    ensures var f := NewFrame(entry, parent); Known(log + [Event(EntryEvent, f)], f)
  {
    Unseen(log, entry.invocation);
    SnocOwn(log, Event(EntryEvent, NewFrame(entry, parent)), entry.invocation);
    hide OwnKinds, Selector;
  }

  lemma {:induction false} ChangeRecalls(depth: nat, s: Recorder, call: Call, kinds: seq<Kind>)
    requires s.stack != [] && L.Route(s.stack[|s.stack|-1]) && Recalls(s.stack[|s.stack|-1], kinds)
    requires !call.Freeze? && Decide(depth, s, call).Change?
    ensures var d := Decide(depth, s, call); Recalls(d.frame, kinds + [d.kind])
  {
    var n := s.stack[|s.stack|-1].returned;
    assert Done(n + 1) == Done(n) + [ChildPreEvent, ChildReturnEvent];
    assert [EntryEvent] + [BranchEvent] == Done(0);
    hide Done, Selected;
    assert (Done(n) + [ChildPreEvent]) + [ChildReturnEvent] == Done(n) + [ChildPreEvent, ChildReturnEvent];
    assert (Done(n) + [ChildPreEvent]) + [ChildExceptionEvent] == Done(n) + [ChildPreEvent, ChildExceptionEvent];
  }

  lemma {:induction false} ChangeSelects(depth: nat, s: Recorder, call: Call)
    requires s.stack != [] && !call.Freeze? && Decide(depth, s, call).Change?
    ensures var f, d := s.stack[|s.stack|-1], Decide(depth, s, call);
            !d.kind.BranchEvent? ==> d.frame.observed == f.observed && d.frame.r11 == f.r11
  {
    hide Selected;
  }

  /** The frame a call changes recalls one event more. */
  lemma {:induction false} ChangeKnown(depth: nat, s: Recorder, call: Call)
    requires s.stack != [] && Known(s.log, s.stack[|s.stack|-1]) && !call.Freeze? && Decide(depth, s, call).Change?
    ensures var d := Decide(depth, s, call);
            d.frame.entry == s.stack[|s.stack|-1].entry && Known(s.log + [Event(d.kind, d.frame)], d.frame)
  {
    hide OwnKinds, Selector, Recalls, L.Route, Decide;
    var f, d := s.stack[|s.stack|-1], Decide(depth, s, call);
    SnocOwn(s.log, Event(d.kind, d.frame), f.entry.invocation);
    ChangeRoute(depth, s, call);
    ChangeRecalls(depth, s, call, OwnKinds(s.log, f.entry.invocation));
    ChangeSelects(depth, s, call);
  }

  lemma {:induction false} ChangeRoute(depth: nat, s: Recorder, call: Call)
    requires s.stack != [] && L.Route(s.stack[|s.stack|-1]) && !call.Freeze? && Decide(depth, s, call).Change?
    ensures var d := Decide(depth, s, call); d.frame.entry == s.stack[|s.stack|-1].entry && L.Route(d.frame)
  {
  }

  // ---------------------------------------------------------------------------- every run

  lemma {:induction false} PushRecorded(s: Recorder, f: Frame, next: Recorder)
    requires Recorded(s) && f == NewFrame(f.entry, f.parent) && f.entry.invocation.serial > s.lastSerial
    requires next.stack == s.stack + [f] && next.log == s.log + [Event(EntryEvent, f)]
    requires next.lastSerial == f.entry.invocation.serial
    ensures Recorded(next)
  {
    hide Known, NewFrame;
    NewKnown(s.log, f.entry, f.parent);
    forall i | 0 <= i < |s.stack| ensures Known(next.log, next.stack[i]) {
      StrangerKnown(s.log, Event(EntryEvent, f), s.stack[i]);
    }
  }

  lemma {:induction false} ChangeRecorded(s: Recorder, f: Frame, kind: Kind, next: Recorder)
    requires Recorded(s) && s.stack != [] && f.entry == s.stack[|s.stack|-1].entry
    requires Known(s.log + [Event(kind, f)], f) && next.lastSerial == s.lastSerial
    requires next.stack == s.stack[..|s.stack|-1] + [f] && next.log == s.log + [Event(kind, f)]
    ensures Recorded(next)
  {
    hide Known;
    forall i | 0 <= i < |s.stack| - 1 ensures Known(next.log, next.stack[i]) {
      StrangerKnown(s.log, Event(kind, f), s.stack[i]);
    }
  }

  lemma {:induction false} PopRecorded(s: Recorder, kind: Kind, next: Recorder)
    requires Recorded(s) && s.stack != [] && next.lastSerial == s.lastSerial
    requires next.stack == s.stack[..|s.stack|-1] && next.log == s.log + [Event(kind, s.stack[|s.stack|-1])]
    ensures Recorded(next)
  {
    hide Known;
    forall i | 0 <= i < |s.stack| - 1 ensures Known(next.log, next.stack[i]) {
      StrangerKnown(s.log, Event(kind, s.stack[|s.stack|-1]), s.stack[i]);
    }
  }

  lemma {:induction false} RecordedNext(capacity: nat, depth: nat, s: Recorder, call: Call)
    requires Recorded(s)
    ensures Recorded(Apply(capacity, depth, s, call))
  {
    var next := Apply(capacity, depth, s, call);
    if call.Freeze? || !s.Writable() || next.log == s.log {
      NothingRecorded(capacity, depth, s, call);
    } else {
      Decided(depth, s, call);
      var d := Decide(depth, s, call);
      match d
      case Refuse(_) =>
      case Push(f) => PushRecorded(s, f, next);
      case Change(kind, f) =>
        ChangeKnown(depth, s, call);
        ChangeRecorded(s, f, kind, next);
      case Pop(kind) => PopRecorded(s, kind, next);
    }
    hide Decide, Recorded, Known, NewFrame;
  }

  lemma {:induction false} NothingRecorded(capacity: nat, depth: nat, s: Recorder, call: Call)
    requires Recorded(s)
    requires call.Freeze? || !s.Writable() || Apply(capacity, depth, s, call).log == s.log
    ensures Recorded(Apply(capacity, depth, s, call))
  {
    hide Decide, Known;
  }

  lemma {:induction false} Decided(depth: nat, s: Recorder, call: Call)
    requires !call.Freeze?
    ensures match Decide(depth, s, call)
            case Refuse(_) => true
            case Push(f) => f == NewFrame(f.entry, f.parent) && f.entry.invocation.serial > s.lastSerial
            case Change(_, _) => s.stack != []
            case Pop(_) => s.stack != []
  {
    hide MayPre, MayEnd, MayReturn, Selected, Branching, Calling, Ending;
  }

  lemma {:induction false} AlwaysRecorded(capacity: nat, depth: nat, epoch: u64, router: u64, calls: seq<Call>)
    ensures Recorded(Run(capacity, depth, Start(epoch, router), calls))
  {
    if calls != [] {
      var front := calls[..|calls|-1];
      AlwaysRecorded(capacity, depth, epoch, router, front);
      RecordedNext(capacity, depth, Run(capacity, depth, Start(epoch, router), front), calls[|calls|-1]);
      hide Recorded, Apply;
    }
  }

  /** CALLS. After any calls a recorder that may write takes the next one exactly when it names what the
      recorder may act on, the stack has room for an entry, the events of its invocation so far allow it
      and the log has room; each fault is the first of these to fail. */
  lemma {:induction false} CallExactly(capacity: nat, depth: nat, epoch: u64, router: u64, calls: seq<Call>, call: Call)
    requires Run(capacity, depth, Start(epoch, router), calls).Writable() && !call.Freeze?
    ensures var s := Run(capacity, depth, Start(epoch, router), calls);
            var next := Apply(capacity, depth, s, call);
            var full := call.Enter? && |s.stack| == depth;
            && (next.fault == IdentityFault <==> !F.Identified(s, call))
            && (next.fault == DepthFault <==> F.Identified(s, call) && full)
            && (next.fault == TransitionFault <==> F.Identified(s, call) && !full && !MayFollow(s.log, call))
            && (next.fault == CapacityFault <==>
                  F.Identified(s, call) && !full && MayFollow(s.log, call) && |s.log| >= capacity)
            && (next.fault == NoFault <==>
                  F.Identified(s, call) && !full && MayFollow(s.log, call) && |s.log| < capacity)
            && (next.fault == NoFault <==> |next.log| == |s.log| + 1)
            && (next.fault != NoFault ==> next == s.(fault := next.fault))
  {
    var s := Run(capacity, depth, Start(epoch, router), calls);
    AlwaysRecorded(capacity, depth, epoch, router, calls);
    hide Run;
    F.DecidesIdentity(depth, s, call);
    if !call.Enter? && F.Identified(s, call) { MayExactly(depth, s, call); }
    hide Decide, Known, F.Identified;
    assert call.Enter? ==> MayFollow(s.log, call);
    hide MayFollow;
  }
}
