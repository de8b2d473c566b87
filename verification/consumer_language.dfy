/** The native recorder and the offline replay describe the same language of journals. */
module ConsumerLanguage {
  import opened Options
  import opened ConsumerDetail
  import R = ConsumerRecorder
  import P = ConsumerReplay

  /** Every journalled invocation is bound to one Update lifetime on this native thread. */
  ghost predicate BoundTo(log: seq<Event>, thread: u32) {
    && (forall ev :: ev in log ==> ev.frame.entry.update.Bound() && ev.frame.entry.update.thread == thread)
    && (forall a, b :: a in log && b in log ==> a.frame.entry.update.epoch == b.frame.entry.update.epoch)
  }

  function LastSerial(log: seq<Event>): u64 {
    if log == [] then 0
    else if log[|log|-1].kind.EntryEvent? then log[|log|-1].frame.entry.invocation.serial
    else LastSerial(log[..|log|-1])
  }

  /** Admitted serials are allocated without gaps. */
  ghost predicate Consecutive(log: seq<Event>) {
    forall i :: 0 <= i < |log| && log[i].kind.EntryEvent? ==>
      log[i].frame.entry.invocation.serial == LastSerial(log[..i]) + 1
  }

  // ------------------------------------------------------------ recorder to replay

  /** Live frames are well shaped, belong to the lane, and were entered in the log. */
  ghost predicate FramesTraced(lane: P.Lane, log: seq<Event>, stack: seq<Frame>) {
    forall i :: 0 <= i < |stack| ==>
      P.FrameShape(stack[i]) && stack[i].entry.invocation.epoch == lane.epoch &&
      stack[i].entry.router.epoch == lane.routerEpoch && Logged(log, stack[i].entry)
  }

  ghost predicate Logged(log: seq<Event>, entry: Entry) {
    exists ev :: ev in log && ev.frame.entry == entry
  }

  lemma {:induction false} TracedNext(lane: P.Lane, log: seq<Event>, kept: seq<Frame>, ev: Event)
    requires FramesTraced(lane, log, kept)
    ensures FramesTraced(lane, log + [ev], kept)
    ensures (P.FrameShape(ev.frame) && ev.frame.entry.invocation.epoch == lane.epoch &&
             ev.frame.entry.router.epoch == lane.routerEpoch) ==> FramesTraced(lane, log + [ev], kept + [ev.frame])
  {
    var all := log + [ev];
    assert ev in all;
    forall i | 0 <= i < |kept| ensures Logged(all, kept[i].entry) {
      var x :| x in log && x.frame.entry == kept[i].entry;
      assert x in all;
    }
  }

  /** What ties a recorder to the replay of its log. */
  ghost predicate Tracks(lane: P.Lane, s: R.Recorder, st: P.State) {
    && st.stack == s.stack && st.lastSerial == s.lastSerial && st.lastRouter == s.lastRouter
    && (st.entries == 0 <==> s.routerEpoch == 0) && (st.entries == 0 ==> s.log == [])
    && (s.routerEpoch != 0 ==> s.routerEpoch == lane.routerEpoch)
    && (forall r :: r in st.routers ==> r.serial <= st.lastRouter)
    && FramesTraced(lane, s.log, s.stack)
    && LastSerial(s.log) == s.lastSerial
    && (s.log != [] ==> st.phase == Some(s.log[0].frame.entry.update.epoch))
    && (s.log == [] ==> st.phase == None)
    && (s.fault == R.NoFault ==> s.epoch == lane.epoch != 0)
  }

  /** A frame the recorder changes keeps its shape and is exactly the one replay wants. */
  lemma {:induction false} ChangeWanted(depth: nat, s: R.Recorder, call: R.Call)
    requires !call.Freeze? && s.stack != [] && P.FrameShape(s.stack[|s.stack|-1])
    requires R.Decide(depth, s, call).Change?
    ensures var d, top := R.Decide(depth, s, call), s.stack[|s.stack|-1];
            P.FrameShape(d.frame) && P.Wanted(top, Event(d.kind, d.frame)) == Some(d.frame) &&
            d.frame.entry == top.entry && !d.kind.EntryEvent? && !d.kind.NormalExit? && !d.kind.ExceptionalExit?
  {
    var top, d := s.stack[|s.stack|-1], R.Decide(depth, s, call);
    match call
    case ChildPre(_, child, caller, r3, f1, ctr) =>
      assert d.frame.children[child] == R.Selected(child, caller, r3, f1, ctr);
      assert d.frame == top.(children := top.children[child := d.frame.children[child]], stage := ChildActive);
    case ChildEnd(_, child, normal) =>
    case Branch(_, _) =>
    case Exit(_, _) =>
    case Enter(_) =>
  }

  lemma {:induction false} ReplayAppends(lane: P.Lane, healthy: bool, log: seq<Event>, ev: Event)
    ensures P.Run(lane, healthy, log + [ev]) ==
            if P.Run(lane, healthy, log).None? then None else P.Step(lane, healthy, P.Run(lane, healthy, log).value, ev)
  {
    assert (log + [ev])[..|log|] == log;
  }

  lemma {:induction false} BoundFront(log: seq<Event>, ev: Event, thread: u32)
    requires BoundTo(log + [ev], thread)
    ensures BoundTo(log, thread)
    ensures ev.frame.entry.update.Bound() && ev.frame.entry.update.thread == thread
    ensures log != [] ==> ev.frame.entry.update.epoch == log[0].frame.entry.update.epoch
  {
    var all := log + [ev];
    assert ev == all[|log|] && ev in all;
    assert forall x :: x in log ==> x in all;
    if log != [] { assert all[0] in all; }
  }

  lemma {:induction false} ConsecutiveFront(log: seq<Event>, ev: Event)
    requires Consecutive(log + [ev])
    ensures Consecutive(log)
    ensures ev.kind.EntryEvent? ==> ev.frame.entry.invocation.serial == LastSerial(log) + 1
  {
    var all := log + [ev];
    assert all[..|log|] == log;
    forall i | 0 <= i < |log| && log[i].kind.EntryEvent?
      ensures log[i].frame.entry.invocation.serial == LastSerial(log[..i]) + 1
    {
      assert all[i] == log[i] && all[..i] == log[..i];
    }
  }

  /** A call that wrote an event was decided, fitted the log, and changed nothing else. */
  lemma {:induction false} ApplyEmits(capacity: nat, depth: nat, s: R.Recorder, call: R.Call)
    requires R.Apply(capacity, depth, s, call).log != s.log
    ensures !call.Freeze? && s.fault == R.NoFault
    ensures var d, next := R.Decide(depth, s, call), R.Apply(capacity, depth, s, call);
            match d
            case Refuse(_) => false
            case Push(f) =>
              R.Admissible(s, f.entry) && f == NewFrame(f.entry, ParentOf(s.stack)) && |s.stack| != depth &&
              next == s.(stack := s.stack + [f], log := s.log + [Event(EntryEvent, f)],
                         routerEpoch := f.entry.router.epoch, lastSerial := f.entry.invocation.serial,
                         lastRouter := f.entry.router.serial)
            case Change(kind, f) =>
              s.stack != [] &&
              next == s.(stack := s.stack[..|s.stack|-1] + [f], log := s.log + [Event(kind, f)])
            case Pop(kind) =>
              s.stack != [] &&
              next == s.(stack := s.stack[..|s.stack|-1], log := s.log + [Event(kind, s.stack[|s.stack|-1])])
  {
    hide R.MayPre, R.MayEnd, R.MayReturn, R.Selected, R.Branching, R.Calling, R.Ending;
  }

  /** A call that wrote nothing moved neither the stack nor the identities. */
  lemma {:induction false} ApplyQuiet(capacity: nat, depth: nat, s: R.Recorder, call: R.Call)
    requires R.Apply(capacity, depth, s, call).log == s.log
    ensures var next := R.Apply(capacity, depth, s, call);
            next == s.(fault := next.fault, frozen := next.frozen) &&
            (s.fault != R.NoFault ==> next.fault == s.fault) &&
            (next.fault == R.DepthFault && s.fault != R.DepthFault ==> |s.stack| == depth) &&
            (next.fault == R.CapacityFault && s.fault != R.CapacityFault ==> |s.log| >= capacity)
  {
    hide R.MayPre, R.MayEnd, R.MayReturn, R.Selected, R.Branching, R.Calling, R.Ending, R.Admissible;
    if !call.Freeze? && s.Writable() {
      var d := R.Decide(depth, s, call);
      assert |R.Apply(capacity, depth, s, call).log| == |s.log|;
      assert d.Refuse? || |s.log| >= capacity;
    }
  }

  lemma {:induction false} TracksQuiet(lane: P.Lane, s: R.Recorder, next: R.Recorder, st: P.State)
    requires Tracks(lane, s, st) && next == s.(fault := next.fault, frozen := next.frozen)
    requires s.fault != R.NoFault ==> next.fault == s.fault
    ensures Tracks(lane, next, st)
  {
    hide FramesTraced, LastSerial;
  }

  lemma {:induction false} TracksFacts(lane: P.Lane, s: R.Recorder, st: P.State)
    requires Tracks(lane, s, st)
    ensures st.stack == s.stack && (s.routerEpoch != 0 ==> s.routerEpoch == lane.routerEpoch)
    ensures s.stack != [] ==> s.routerEpoch != 0
  {
    if s.stack != [] { assert Logged(s.log, s.stack[0].entry); }
  }

  /** One emitted event replays, and the two states stay together. */
  lemma {:induction false} EmitTracks(lane: P.Lane, healthy: bool, capacity: nat, depth: nat, s: R.Recorder,
      call: R.Call, st: P.State)
    requires depth <= P.MAX_NESTING && Tracks(lane, s, st) && P.Run(lane, healthy, s.log) == Some(st)
    requires R.Apply(capacity, depth, s, call).log != s.log && |s.stack| <= depth
    requires R.Apply(capacity, depth, s, call).routerEpoch == lane.routerEpoch
    requires BoundTo(R.Apply(capacity, depth, s, call).log, lane.thread)
    requires healthy ==> Consecutive(R.Apply(capacity, depth, s, call).log)
    ensures var next := R.Apply(capacity, depth, s, call);
            P.Run(lane, healthy, next.log).Some? && Tracks(lane, next, P.Run(lane, healthy, next.log).value) &&
            |next.stack| <= depth
  {
    hide *;
    ApplyEmits(capacity, depth, s, call);
    TracksFacts(lane, s, st);
    var d, next := R.Decide(depth, s, call), R.Apply(capacity, depth, s, call);
    var ev := next.log[|s.log|];
    assert next.log == s.log + [ev];
    ReplayAppends(lane, healthy, s.log, ev);
    BoundFront(s.log, ev, lane.thread);
    if healthy { ConsecutiveFront(s.log, ev); }
    if d.Push? {
      EnterTracks(lane, healthy, s, st, ev, next);
    } else {
      LaterTracks(lane, healthy, depth, s, call, st, ev);
      LaterStays(lane, s, st, ev, next, P.Step(lane, healthy, st, ev).value);
    }
  }

  lemma {:induction false} LaterStays(lane: P.Lane, s: R.Recorder, st: P.State, ev: Event, next: R.Recorder,
      after: P.State)
    requires Tracks(lane, s, st) && s.stack != [] && !ev.kind.EntryEvent?
    requires P.FrameShape(ev.frame) && ev.frame.entry == s.stack[|s.stack|-1].entry
    requires s.log != [] ==> ev.frame.entry.update.epoch == s.log[0].frame.entry.update.epoch
    requires after.lastSerial == st.lastSerial && after.lastRouter == st.lastRouter && after.entries == st.entries
    requires after.routers == st.routers && after.phase == Some(ev.frame.entry.update.epoch)
    requires next == s.(stack := after.stack, log := s.log + [ev])
    requires after.stack == s.stack[..|s.stack|-1] + [ev.frame] || after.stack == s.stack[..|s.stack|-1]
    ensures Tracks(lane, next, after)
  {
    LastSerialSnoc(s.log, ev);
    TracedNext(lane, s.log, s.stack[..|s.stack|-1], ev);
    assert Logged(s.log, s.stack[0].entry);
    assert next.log[0] == s.log[0];
  }

  /** An emitted event of the top invocation replays. */
  lemma {:induction false} LaterTracks(lane: P.Lane, healthy: bool, depth: nat, s: R.Recorder, call: R.Call,
      st: P.State, ev: Event)
    requires Tracks(lane, s, st) && !call.Freeze? && s.stack != []
    requires R.Decide(depth, s, call).Change? || R.Decide(depth, s, call).Pop?
    requires ev == var d, top := R.Decide(depth, s, call), s.stack[|s.stack|-1];
                   Event(d.kind, if d.Change? then d.frame else top)
    requires s.log != [] ==> ev.frame.entry.update.epoch == s.log[0].frame.entry.update.epoch
    requires ev.frame.entry.update.thread == lane.thread
    ensures P.FrameShape(ev.frame) && ev.frame.entry == s.stack[|s.stack|-1].entry
    ensures P.Step(lane, healthy, st, ev).Some?
    ensures var front := s.stack[..|s.stack|-1];
            P.Step(lane, healthy, st, ev).value.stack ==
              (if R.Decide(depth, s, call).Change? then front + [ev.frame] else front)
    ensures var after := P.Step(lane, healthy, st, ev).value;
            after.lastSerial == st.lastSerial && after.lastRouter == st.lastRouter && after.entries == st.entries &&
            after.routers == st.routers && after.phase == Some(ev.frame.entry.update.epoch) && !ev.kind.EntryEvent?
  {
    if R.Decide(depth, s, call).Change? { ChangeWanted(depth, s, call); }
  }

  lemma {:induction false} LastSerialSnoc(log: seq<Event>, ev: Event)
    ensures LastSerial(log + [ev]) ==
            if ev.kind.EntryEvent? then ev.frame.entry.invocation.serial else LastSerial(log)
  {
    assert (log + [ev])[..|log|] == log;
  }

  lemma {:induction false} EnterTracks(lane: P.Lane, healthy: bool, s: R.Recorder, st: P.State, ev: Event,
      next: R.Recorder)
    requires Tracks(lane, s, st) && |s.stack| < P.MAX_NESTING && s.fault == R.NoFault
    requires R.Admissible(s, ev.frame.entry) && ev == Event(EntryEvent, NewFrame(ev.frame.entry, ParentOf(s.stack)))
    requires ev.frame.entry.router.epoch == lane.routerEpoch
    requires ev.frame.entry.update.Bound() && ev.frame.entry.update.thread == lane.thread
    requires s.log != [] ==> ev.frame.entry.update.epoch == s.log[0].frame.entry.update.epoch
    requires healthy ==> ev.frame.entry.invocation.serial == LastSerial(s.log) + 1
    requires next == s.(stack := s.stack + [ev.frame], log := s.log + [ev], routerEpoch := lane.routerEpoch,
                        lastSerial := ev.frame.entry.invocation.serial, lastRouter := ev.frame.entry.router.serial)
    ensures P.Step(lane, healthy, st, ev).Some? && Tracks(lane, next, P.Step(lane, healthy, st, ev).value)
  {
    assert P.FrameShape(ev.frame);
    assert ev.frame.entry.router !in st.routers;
    LastSerialSnoc(s.log, ev);
    TracedNext(lane, s.log, s.stack, ev);
    if s.log != [] { assert next.log[0] == s.log[0]; }
  }

  /** Every call sequence on a recorder, faulted and frozen ones included, leaves a journal whose
      every transition replays to exactly the live stack. */
  lemma {:induction false} RecorderReplays(lane: P.Lane, healthy: bool, capacity: nat, depth: nat, calls: seq<R.Call>)
    requires depth <= P.MAX_NESTING
    requires var s := R.Run(capacity, depth, R.Start(lane.epoch, 0), calls);
             BoundTo(s.log, lane.thread) && (healthy ==> Consecutive(s.log)) &&
             (s.routerEpoch != 0 ==> lane.routerEpoch == s.routerEpoch)
    ensures var s := R.Run(capacity, depth, R.Start(lane.epoch, 0), calls);
            P.Run(lane, healthy, s.log).Some? && Tracks(lane, s, P.Run(lane, healthy, s.log).value) &&
            |s.stack| <= depth
  {
    hide *;
    if calls == [] {
      StartTracks(lane, healthy, capacity, depth);
    } else {
      var front := calls[..|calls|-1];
      RunSnoc(capacity, depth, R.Start(lane.epoch, 0), calls);
      var s := R.Run(capacity, depth, R.Start(lane.epoch, 0), front);
      LogGrows(lane, healthy, capacity, depth, s, calls[|calls|-1]);
      RecorderReplays(lane, healthy, capacity, depth, front);
      CallTracks(lane, healthy, capacity, depth, s, calls[|calls|-1], P.Run(lane, healthy, s.log).value);
    }
  }

  lemma {:induction false} StartTracks(lane: P.Lane, healthy: bool, capacity: nat, depth: nat)
    ensures var s := R.Run(capacity, depth, R.Start(lane.epoch, 0), []);
            P.Run(lane, healthy, s.log) == Some(P.EMPTY) && Tracks(lane, s, P.EMPTY) && s.stack == []
  {
  }

  lemma {:induction false} RunSnoc(capacity: nat, depth: nat, s: R.Recorder, calls: seq<R.Call>)
    requires calls != []
    ensures R.Run(capacity, depth, s, calls) ==
            R.Apply(capacity, depth, R.Run(capacity, depth, s, calls[..|calls|-1]), calls[|calls|-1])
  {
  }

  /** The log before a call satisfies whatever the log after it does. */
  lemma {:induction false} LogGrows(lane: P.Lane, healthy: bool, capacity: nat, depth: nat, s: R.Recorder, call: R.Call)
    requires var next := R.Apply(capacity, depth, s, call);
             BoundTo(next.log, lane.thread) && (healthy ==> Consecutive(next.log)) &&
             (next.routerEpoch != 0 ==> lane.routerEpoch == next.routerEpoch)
    ensures BoundTo(s.log, lane.thread) && (healthy ==> Consecutive(s.log))
    ensures s.routerEpoch != 0 ==> lane.routerEpoch == s.routerEpoch
  {
    var next := R.Apply(capacity, depth, s, call);
    if next.log != s.log {
      ApplyEmits(capacity, depth, s, call);
      RouterKept(capacity, depth, s, call);
      hide R.Apply, R.Decide, R.Admissible, BoundTo, Consecutive;
      var ev := next.log[|s.log|];
      assert next.log == s.log + [ev];
      BoundFront(s.log, ev, lane.thread);
      if healthy { ConsecutiveFront(s.log, ev); }
    } else {
      ApplyQuiet(capacity, depth, s, call);
    }
  }

  lemma {:induction false} RouterKept(capacity: nat, depth: nat, s: R.Recorder, call: R.Call)
    requires R.Apply(capacity, depth, s, call).log != s.log
    ensures s.routerEpoch != 0 ==> R.Apply(capacity, depth, s, call).routerEpoch == s.routerEpoch
    ensures s.stack == [] || s.routerEpoch != 0 ==> R.Apply(capacity, depth, s, call).routerEpoch != 0
  {
    ApplyEmits(capacity, depth, s, call);
    hide R.Apply, R.Decide;
  }

  lemma {:induction false} CallTracks(lane: P.Lane, healthy: bool, capacity: nat, depth: nat, s: R.Recorder,
      call: R.Call, st: P.State)
    requires depth <= P.MAX_NESTING && Tracks(lane, s, st) && P.Run(lane, healthy, s.log) == Some(st)
    requires |s.stack| <= depth
    requires var next := R.Apply(capacity, depth, s, call);
             BoundTo(next.log, lane.thread) && (healthy ==> Consecutive(next.log)) &&
             (next.routerEpoch != 0 ==> lane.routerEpoch == next.routerEpoch)
    ensures var next := R.Apply(capacity, depth, s, call);
            P.Run(lane, healthy, next.log).Some? && Tracks(lane, next, P.Run(lane, healthy, next.log).value) &&
            |next.stack| <= depth
  {
    hide *;
    if R.Apply(capacity, depth, s, call).log == s.log {
      ApplyQuiet(capacity, depth, s, call);
      TracksQuiet(lane, s, R.Apply(capacity, depth, s, call), st);
    } else {
      RouterKept(capacity, depth, s, call);
      TracksFacts(lane, s, st);
      EmitTracks(lane, healthy, capacity, depth, s, call, st);
    }
  }

  // ------------------------------------------------------------ replay to recorder

  /** The recorder call that writes an event. */
  function CallOf(ev: Event): R.Call {
    var f, id := ev.frame, ev.frame.entry.invocation;
    match ev.kind
    case EntryEvent => R.Enter(f.entry)
    case BranchEvent => R.Branch(id, f.r11)
    case ChildPreEvent =>
      var c := if f.returned < 3 then f.children[f.returned] else ZERO_CHILD;
      R.ChildPre(id, f.returned, c.caller, c.r3, c.f1, c.ctr)
    case ChildReturnEvent => R.ChildEnd(id, if f.returned == 0 then 3 else f.returned - 1, true)
    case ChildExceptionEvent => R.ChildEnd(id, f.returned, false)
    case NormalExit => R.Exit(id, true)
    case ExceptionalExit => R.Exit(id, false)
  }

  function CallsOf(events: seq<Event>): seq<R.Call> {
    if events == [] then [] else CallsOf(events[..|events|-1]) + [CallOf(events[|events|-1])]
  }

  /** The stack never outgrows the recorder's depth while the events replay. */
  ghost predicate WithinDepth(lane: P.Lane, healthy: bool, events: seq<Event>, depth: nat) {
    forall k :: 0 <= k <= |events| ==>
      var s := P.Run(lane, healthy, events[..k]);
      s.None? || |s.value.stack| <= depth
  }

  /** The recorder after writing these events, as the replay sees it. */
  function Mirror(lane: P.Lane, events: seq<Event>, st: P.State): R.Recorder {
    R.Recorder(lane.epoch, if st.entries == 0 then 0 else lane.routerEpoch, st.lastSerial, st.lastRouter,
               events, st.stack, R.NoFault, false)
  }

  /** What replay wants next is what the recorder would do. */
  lemma {:induction false} WantedChange(depth: nat, s: R.Recorder, ev: Event)
    requires s.stack != [] && s.stack[|s.stack|-1].entry.invocation == ev.frame.entry.invocation
    requires !ev.kind.EntryEvent? && P.FrameShape(ev.frame)
    requires P.Wanted(s.stack[|s.stack|-1], ev) == Some(ev.frame)
    ensures R.Decide(depth, s, CallOf(ev)) ==
            if ev.kind.NormalExit? || ev.kind.ExceptionalExit? then R.Pop(ev.kind) else R.Change(ev.kind, ev.frame)
  {
    var top, f := s.stack[|s.stack|-1], ev.frame;
    if ev.kind.ChildPreEvent? {
      var child := top.returned;
      var c := f.children[child];
      assert P.ChildShape(c, child) by {
        assert child == 0 || child == 1 || child == 2;
      }
      assert c == R.Selected(child, c.caller, c.r3, c.f1, c.ctr);
    }
  }

  lemma {:induction false} StepMirrors(lane: P.Lane, healthy: bool, capacity: nat, depth: nat, events: seq<Event>,
      ev: Event, st: P.State)
    requires lane.epoch != 0 && |events| < capacity
    requires P.Step(lane, healthy, st, ev).Some? && |P.Step(lane, healthy, st, ev).value.stack| <= depth
    requires st.entries == 0 ==> st.stack == []
    ensures R.Apply(capacity, depth, Mirror(lane, events, st), CallOf(ev)) ==
            Mirror(lane, events + [ev], P.Step(lane, healthy, st, ev).value)
    ensures P.Step(lane, healthy, st, ev).value.entries == 0 ==> P.Step(lane, healthy, st, ev).value.stack == []
  {
    var s := Mirror(lane, events, st);
    if !ev.kind.EntryEvent? {
      WantedChange(depth, s, ev);
      if ev.kind.NormalExit? || ev.kind.ExceptionalExit? {
        assert s.stack[|s.stack|-1] == ev.frame;
      }
    } else {
      assert R.Admissible(s, ev.frame.entry);
    }
  }

  /** Every replayable event list within the limits is written by some call sequence. */
  lemma {:induction false} ReplayRecords(lane: P.Lane, healthy: bool, capacity: nat, depth: nat, events: seq<Event>)
    requires lane.epoch != 0 && |events| <= capacity
    requires P.Run(lane, healthy, events).Some? && WithinDepth(lane, healthy, events, depth)
    ensures R.Run(capacity, depth, R.Start(lane.epoch, 0), CallsOf(events)) ==
            Mirror(lane, events, P.Run(lane, healthy, events).value)
    ensures P.Run(lane, healthy, events).value.entries == 0 ==> P.Run(lane, healthy, events).value.stack == []
  {
    hide *;
    if events == [] {
      NothingRecorded(lane, healthy, capacity, depth);
    } else {
      var front, ev := events[..|events|-1], events[|events|-1];
      DepthFront(lane, healthy, events, depth);
      ReplaySnoc(lane, healthy, events);
      ReplayRecords(lane, healthy, capacity, depth, front);
      StepMirrors(lane, healthy, capacity, depth, front, ev, P.Run(lane, healthy, front).value);
      assert events == front + [ev];
      CallsSnoc(capacity, depth, lane.epoch, front, ev);
    }
  }

  lemma {:induction false} NothingRecorded(lane: P.Lane, healthy: bool, capacity: nat, depth: nat)
    requires lane.epoch != 0
    ensures R.Run(capacity, depth, R.Start(lane.epoch, 0), CallsOf([])) == Mirror(lane, [], P.EMPTY)
    ensures P.Run(lane, healthy, []) == Some(P.EMPTY) && P.EMPTY.stack == []
  {
  }

  lemma {:induction false} ReplaySnoc(lane: P.Lane, healthy: bool, events: seq<Event>)
    requires events != [] && P.Run(lane, healthy, events).Some?
    ensures P.Run(lane, healthy, events[..|events|-1]).Some?
    ensures P.Run(lane, healthy, events) ==
            P.Step(lane, healthy, P.Run(lane, healthy, events[..|events|-1]).value, events[|events|-1])
  {
  }

  lemma {:induction false} DepthFront(lane: P.Lane, healthy: bool, events: seq<Event>, depth: nat)
    requires WithinDepth(lane, healthy, events, depth) && events != []
    ensures WithinDepth(lane, healthy, events[..|events|-1], depth)
    ensures P.Run(lane, healthy, events).None? || |P.Run(lane, healthy, events).value.stack| <= depth
  {
    var front := events[..|events|-1];
    assert events[..|events|] == events;
    forall k | 0 <= k <= |front|
      ensures P.Run(lane, healthy, front[..k]).None? || |P.Run(lane, healthy, front[..k]).value.stack| <= depth
    {
      assert front[..k] == events[..k];
    }
  }

  lemma {:induction false} CallsSnoc(capacity: nat, depth: nat, epoch: u64, front: seq<Event>, ev: Event)
    ensures R.Run(capacity, depth, R.Start(epoch, 0), CallsOf(front + [ev])) ==
            R.Apply(capacity, depth, R.Run(capacity, depth, R.Start(epoch, 0), CallsOf(front)), CallOf(ev))
  {
    assert (front + [ev])[..|front|] == front;
    var calls := CallsOf(front) + [CallOf(ev)];
    assert calls[..|calls|-1] == CallsOf(front);
  }

  lemma {:induction false} ReplayBounded(lane: P.Lane, healthy: bool, events: seq<Event>)
    ensures P.Run(lane, healthy, events).Some? ==>
              |P.Run(lane, healthy, events).value.stack| <= P.MAX_NESTING &&
              (P.Run(lane, healthy, events).value.entries > 0 ==> lane.routerEpoch > 0) &&
              (forall ev :: ev in events ==>
                ev.frame.entry.update.Bound() && ev.frame.entry.update.thread == lane.thread &&
                P.Run(lane, healthy, events).value.phase == Some(ev.frame.entry.update.epoch))
  {
    if events != [] {
      ReplayBounded(lane, healthy, events[..|events|-1]);
      assert events == events[..|events|-1] + [events[|events|-1]];
    }
    hide P.Wanted;
  }

  /** A journal some recorder of this thread lifetime can leave: its log and its live stack. */
  ghost predicate Recordable(capacity: nat, epoch: u64, log: seq<Event>, pending: seq<Frame>) {
    exists calls :: var s := R.Run(capacity, P.MAX_NESTING, R.Start(epoch, 0), calls);
      s.log == log && s.stack == pending
  }

  /** A journal the replay accepts, whatever router lifetime the lane names. */
  ghost predicate Replayable(capacity: nat, epoch: u64, thread: u32, log: seq<Event>, pending: seq<Frame>) {
    |log| <= capacity && exists routerEpoch :: P.Accepted(P.Lane(epoch, routerEpoch, thread, log, pending), false)
  }

  lemma {:induction false} LogFits(capacity: nat, depth: nat, s: R.Recorder, calls: seq<R.Call>)
    requires |s.log| <= capacity
    ensures |R.Run(capacity, depth, s, calls).log| <= capacity
  {
    if calls != [] { LogFits(capacity, depth, s, calls[..|calls|-1]); }
  }

  /** SAME LANGUAGE. Over journals bound to one Update lifetime, what the recorder can leave is
      exactly what the replay accepts. */
  lemma {:induction false} SameLanguage(capacity: nat, epoch: u64, thread: u32, log: seq<Event>, pending: seq<Frame>)
    requires epoch != 0
    ensures Recordable(capacity, epoch, log, pending) && BoundTo(log, thread) <==>
            Replayable(capacity, epoch, thread, log, pending)
  {
    if Recordable(capacity, epoch, log, pending) && BoundTo(log, thread) {
      var calls :| var s := R.Run(capacity, P.MAX_NESTING, R.Start(epoch, 0), calls); s.log == log && s.stack == pending;
      var s := R.Run(capacity, P.MAX_NESTING, R.Start(epoch, 0), calls);
      var lane := P.Lane(epoch, s.routerEpoch, thread, log, pending);
      RecorderReplays(lane, false, capacity, P.MAX_NESTING, calls);
      LogFits(capacity, P.MAX_NESTING, R.Start(epoch, 0), calls);
      assert P.Accepted(lane, false);
    }
    if Replayable(capacity, epoch, thread, log, pending) {
      var routerEpoch :| P.Accepted(P.Lane(epoch, routerEpoch, thread, log, pending), false);
      var lane := P.Lane(epoch, routerEpoch, thread, log, pending);
      forall k | 0 <= k <= |log|
        ensures P.Run(lane, false, log[..k]).None? || |P.Run(lane, false, log[..k]).value.stack| <= P.MAX_NESTING
      {
        ReplayBounded(lane, false, log[..k]);
      }
      ReplayRecords(lane, false, capacity, P.MAX_NESTING, log);
      ReplayBounded(lane, false, log);
      assert R.Run(capacity, P.MAX_NESTING, R.Start(epoch, 0), CallsOf(log)).log == log;
    }
  }

  /** Serial gaps are the only thing the stricter, loss-free replay refuses in addition. */
  lemma {:induction false} HealthyExactlyConsecutive(lane: P.Lane)
    requires P.Accepted(lane, false)
    ensures P.Accepted(lane, true) <==> Consecutive(lane.events)
  {
    HealthyRuns(lane, lane.events);
  }

  lemma {:induction false} HealthyStep(lane: P.Lane, s: P.State, ev: Event)
    requires P.Step(lane, false, s, ev).Some?
    ensures P.Step(lane, true, s, ev) ==
            if ev.kind.EntryEvent? && ev.frame.entry.invocation.serial != s.lastSerial + 1 then None
            else P.Step(lane, false, s, ev)
    ensures P.Step(lane, false, s, ev).value.lastSerial ==
            if ev.kind.EntryEvent? then ev.frame.entry.invocation.serial else s.lastSerial
  {
    hide P.Wanted;
  }

  lemma {:induction false} ConsecutiveSnoc(front: seq<Event>, ev: Event)
    ensures Consecutive(front + [ev]) <==>
            Consecutive(front) && (ev.kind.EntryEvent? ==> ev.frame.entry.invocation.serial == LastSerial(front) + 1)
  {
    var events := front + [ev];
    assert events[..|front|] == front;
    if Consecutive(events) {
      ConsecutiveFront(front, ev);
      assert events[|front|] == ev;
    }
    if Consecutive(front) && (ev.kind.EntryEvent? ==> ev.frame.entry.invocation.serial == LastSerial(front) + 1) {
      forall i | 0 <= i < |events| && events[i].kind.EntryEvent?
        ensures events[i].frame.entry.invocation.serial == LastSerial(events[..i]) + 1
      {
        if i < |front| { assert front[..i] == events[..i] && front[i] == events[i]; }
      }
    }
  }

  lemma {:induction false} HealthyRuns(lane: P.Lane, events: seq<Event>)
    requires P.Run(lane, false, events).Some?
    ensures P.Run(lane, false, events).value.lastSerial == LastSerial(events)
    ensures P.Run(lane, true, events).Some? <==> Consecutive(events)
    ensures P.Run(lane, true, events).Some? ==> P.Run(lane, true, events) == P.Run(lane, false, events)
  {
    if events != [] {
      var front, ev := events[..|events|-1], events[|events|-1];
      hide P.Step, Consecutive, LastSerial;
      HealthyRuns(lane, front);
      LastSerialSnoc(front, ev);
      ConsecutiveSnoc(front, ev);
      assert events == front + [ev];
      HealthyStep(lane, P.Run(lane, false, front).value, ev);
    }
  }

  lemma {:induction false} CallKeepsBounds(capacity: nat, depth: nat, s: R.Recorder, call: R.Call)
    requires |s.stack| <= depth && |s.log| <= capacity
    requires s.fault == R.DepthFault ==> |s.stack| == depth
    requires s.fault == R.CapacityFault ==> |s.log| == capacity
    ensures var next := R.Apply(capacity, depth, s, call);
            |next.stack| <= depth && |next.log| <= capacity &&
            (next.fault == R.DepthFault ==> |next.stack| == depth) &&
            (next.fault == R.CapacityFault ==> |next.log| == capacity)
  {
    if R.Apply(capacity, depth, s, call).log == s.log {
      ApplyQuiet(capacity, depth, s, call);
    } else {
      ApplyEmits(capacity, depth, s, call);
      ApplyFits(capacity, depth, s, call);
    }
    hide *;
  }

  lemma {:induction false} ApplyFits(capacity: nat, depth: nat, s: R.Recorder, call: R.Call)
    requires R.Apply(capacity, depth, s, call).log != s.log
    ensures |s.log| < capacity
  {
    hide R.Decide;
  }

  /** A depth fault is only ever raised on a full stack and a capacity fault on a full log, and
      neither changes afterwards. */
  lemma {:induction false} FaultsAreFull(capacity: nat, depth: nat, epoch: u64, calls: seq<R.Call>)
    ensures var s := R.Run(capacity, depth, R.Start(epoch, 0), calls);
            |s.stack| <= depth && |s.log| <= capacity &&
            (s.fault == R.DepthFault ==> |s.stack| == depth) &&
            (s.fault == R.CapacityFault ==> |s.log| == capacity)
  {
    if calls != [] {
      var s := R.Run(capacity, depth, R.Start(epoch, 0), calls[..|calls|-1]);
      RunSnoc(capacity, depth, R.Start(epoch, 0), calls);
      hide *;
      FaultsAreFull(capacity, depth, epoch, calls[..|calls|-1]);
      CallKeepsBounds(capacity, depth, s, calls[|calls|-1]);
    }
  }

  /** Once frozen or faulted, no call adds an event or moves the stack, and the fault is kept. */
  lemma {:induction false} StoppedForGood(capacity: nat, depth: nat, s: R.Recorder, calls: seq<R.Call>)
    requires !s.Writable()
    ensures var next := R.Run(capacity, depth, s, calls);
            !next.Writable() && next.log == s.log && next.stack == s.stack && next.fault == s.fault
  {
    if calls != [] { StoppedForGood(capacity, depth, s, calls[..|calls|-1]); }
  }

  // -------------------------------------------------------------- completed routes

  predicate ChildrenAre(f: Frame, returned: nat, next: ChildState)
    requires returned <= 3
  {
    forall i :: 0 <= i < 3 ==>
      f.children[i].state == if i < returned then Returned else if i == returned then next else Absent
  }

  /** How far an invocation has got along its selected route. */
  predicate Route(f: Frame) {
    f.returned <= 3 && (f.observed ==> (f.nonzero <==> Low32(f.r11) != 0)) &&
    match f.stage
    case Entered => !f.observed && f.returned == 0 && ChildrenAre(f, 0, Absent)
    case Branched => f.observed && f.returned == 0 && ChildrenAre(f, 0, Absent)
    case ChildActive => f.observed && f.nonzero && f.returned < 3 && ChildrenAre(f, f.returned, Active)
    case ChildReturned => f.observed && f.nonzero && 0 < f.returned && ChildrenAre(f, f.returned, Absent)
    case ChildFailed => f.observed && f.nonzero && f.returned < 3 && ChildrenAre(f, f.returned, Failed)
  }

  /** A normally returned invocation ran its whole selected route: no child after a zero low word,
      all three in order after a nonzero one. */
  predicate WholeRoute(f: Frame) {
    f.observed && (if Low32(f.r11) == 0 then ChildrenAre(f, 0, Absent) else ChildrenAre(f, 3, Absent))
  }

  lemma {:induction false} WantedRoute(top: Frame, ev: Event)
    requires Route(top) && P.Wanted(top, ev) == Some(ev.frame)
    ensures Route(ev.frame)
    ensures ev.kind.NormalExit? ==> WholeRoute(ev.frame)
  {
    if ev.kind.ChildPreEvent? {
      assert ev.frame.children == top.children[top.returned := ev.frame.children[top.returned]];
    }
  }

  /** ROUTES. Every summary of a replayed journal followed one route, and every normal one
      followed it to the end. */
  lemma {:induction false} CompletedRoutes(lane: P.Lane, healthy: bool, events: seq<Event>)
    requires P.Run(lane, healthy, events).Some?
    ensures forall f :: f in P.Run(lane, healthy, events).value.stack ==> Route(f)
    ensures forall row :: row in P.Run(lane, healthy, events).value.completed ==>
              Route(row.0) && (row.1 ==> WholeRoute(row.0))
  {
    if events != [] {
      var ev := events[|events|-1];
      CompletedRoutes(lane, healthy, events[..|events|-1]);
      var s := P.Run(lane, healthy, events[..|events|-1]).value;
      if !ev.kind.EntryEvent? {
        assert s.stack[|s.stack|-1] in s.stack;
        WantedRoute(s.stack[|s.stack|-1], ev);
      }
    }
  }
}
