/** The offline replay of a consumer-detail journal, with its own transition rules. Clocks and
    accessor observations are not part of this model; every scalar check of a frame is. */
module ConsumerReplay {
  import opened Options
  import opened ConsumerDetail

  const MAX_NESTING := 8

  /** One journalled thread lifetime. */
  datatype Lane = Lane(epoch: u64, routerEpoch: u64, thread: u32, events: seq<Event>, pending: seq<Frame>)

  predicate ChildShape(c: Child, index: nat)
    requires index < 3
  {
    if c.state == Absent then c == ZERO_CHILD
    else
      c.caller == CHILD_LR[index] && c.indirect == (index == 0) &&
      (if index == 0 then c.requested == Low32(c.ctr) else c.ctr == 0 && c.requested == DIRECT_TARGET[index])
  }

  /** What every journalled frame must look like, whatever its event. */
  predicate FrameShape(f: Frame) {
    && f.entry.invocation.epoch > 0 && f.entry.invocation.serial > 0
    && f.entry.router.epoch > 0 && f.entry.router.serial > 0
    && f.entry.update.Bound() && f.entry.target == TARGET && f.entry.caller == CALLER
    && f.returned <= 3
    && ChildShape(f.children[0], 0) && ChildShape(f.children[1], 1) && ChildShape(f.children[2], 2)
  }

  /** `completed` lists ended invocations, each with whether it returned normally. */
  datatype State = State(stack: seq<Frame>, lastSerial: u64, lastRouter: u64, phase: Option<u64>,
                         routers: set<Id>, entries: nat, completed: seq<(Frame, bool)>)

  const EMPTY := State([], 0, 0, None, {}, 0, [])

  /** Checks made on every event, before its kind is looked at. */
  predicate LaneBound(lane: Lane, s: State, ev: Event) {
    var e := ev.frame.entry;
    FrameShape(ev.frame) && e.invocation.epoch == lane.epoch && e.router.epoch == lane.routerEpoch &&
    e.update.thread == lane.thread && (s.phase.Some? ==> e.update.epoch == s.phase.value)
  }

  predicate Enters(s: State, ev: Event, healthy: bool) {
    var e := ev.frame.entry;
    e.invocation.serial > s.lastSerial && e.router.serial > s.lastRouter && e.router !in s.routers &&
    |s.stack| < MAX_NESTING && (healthy ==> e.invocation.serial == s.lastSerial + 1) &&
    ev.frame == NewFrame(e, ParentOf(s.stack))
  }

  /** The only snapshot a later event of the top invocation may carry. */
  function Wanted(top: Frame, ev: Event): Option<Frame> {
    var f, child := ev.frame, top.returned;
    match ev.kind
    case EntryEvent => None
    case BranchEvent =>
      if top.stage != Entered then None
      else Some(top.(stage := Branched, r11 := f.r11, observed := true, nonzero := Low32(f.r11) != 0))
    case ChildPreEvent =>
      if (top.stage != Branched && top.stage != ChildReturned) || !top.observed || !top.nonzero || child >= 3 ||
         f.children[child].state != Active then None
      else Some(top.(children := top.children[child := f.children[child]], stage := ChildActive))
    case ChildReturnEvent =>
      if top.stage != ChildActive || child >= 3 || top.children[child].state != Active then None
      else Some(top.(children := top.children[child := top.children[child].(state := Returned)],
                     stage := ChildReturned, returned := child + 1))
    case ChildExceptionEvent =>
      if top.stage != ChildActive || child >= 3 || top.children[child].state != Active then None
      else Some(top.(children := top.children[child := top.children[child].(state := Failed)], stage := ChildFailed))
    case NormalExit =>
      if top.observed && ((top.nonzero && top.stage == ChildReturned && child == 3) ||
                          (!top.nonzero && top.stage == Branched)) then Some(top) else None
    case ExceptionalExit => Some(top)
  }

  /** An entry event pushes its frame and becomes the lane's last one. */
  function WithEntry(s: State, ev: Event): State {
    var e := ev.frame.entry;
    s.(stack := s.stack + [ev.frame], lastSerial := e.invocation.serial, lastRouter := e.router.serial,
       phase := Some(e.update.epoch), routers := s.routers + {e.router}, entries := s.entries + 1)
  }

  /** Any other event changes the innermost frame, and an exit pops it. */
  function Progress(s: State, ev: Event): Option<State> {
    var e := ev.frame.entry;
    if s.stack == [] || s.stack[|s.stack|-1].entry.invocation != e.invocation then None
    else
      var top, front := s.stack[|s.stack|-1], s.stack[..|s.stack|-1];
      if Wanted(top, ev) != Some(ev.frame) then None
      else if ev.kind.NormalExit? || ev.kind.ExceptionalExit? then
        Some(s.(stack := front, phase := Some(e.update.epoch), completed := s.completed + [(ev.frame, ev.kind.NormalExit?)]))
      else Some(s.(stack := front + [ev.frame], phase := Some(e.update.epoch)))
  }

  function Step(lane: Lane, healthy: bool, s: State, ev: Event): Option<State> {
    if !LaneBound(lane, s, ev) then None
    else if ev.kind.EntryEvent? then if Enters(s, ev, healthy) then Some(WithEntry(s, ev)) else None
    else Progress(s, ev)
  }

  function Run(lane: Lane, healthy: bool, events: seq<Event>): Option<State> {
    if events == [] then Some(EMPTY)
    else
      var s := Run(lane, healthy, events[..|events|-1]);
      if s.None? then None else Step(lane, healthy, s.value, events[|events|-1])
  }

  /** The lane verdict: every event replays, and what is left is the recorded pending stack. */
  predicate Accepted(lane: Lane, healthy: bool) {
    var s := Run(lane, healthy, lane.events);
    s.Some? && s.value.stack == lane.pending && (lane.routerEpoch != 0 <==> s.value.entries != 0)
  }

  lemma {:induction false} RunFails(lane: Lane, healthy: bool, events: seq<Event>, i: nat)
    requires i <= |events| && Run(lane, healthy, events[..i]).None?
    ensures Run(lane, healthy, events).None?
  {
    if i == |events| {
      assert events[..i] == events;
    } else {
      assert events[..|events|-1][..i] == events[..i];
      RunFails(lane, healthy, events[..|events|-1], i);
    }
  }

  lemma {:induction false} RunNext(lane: Lane, healthy: bool, i: nat)
    requires i < |lane.events|
    ensures var before, after := Run(lane, healthy, lane.events[..i]), Run(lane, healthy, lane.events[..i+1]);
            before.Some? ==> after == Step(lane, healthy, before.value, lane.events[i])
    ensures Run(lane, healthy, lane.events[..i+1]).None? ==> Run(lane, healthy, lane.events).None?
  {
    assert lane.events[..i+1][..i] == lane.events[..i];
    if Run(lane, healthy, lane.events[..i+1]).None? { RunFails(lane, healthy, lane.events, i + 1); }
    hide Step;
  }

  lemma {:induction false} Verdict(lane: Lane, healthy: bool)
    ensures Run(lane, healthy, lane.events).None? ==> !Accepted(lane, healthy)
    ensures lane.events[..|lane.events|] == lane.events
    ensures Run(lane, healthy, lane.events[..0]) == Some(EMPTY)
  {
  }

  /** The replay loop over one lane. */
  method Replay(lane: Lane, healthy: bool) returns (ok: bool, completed: seq<(Frame, bool)>)
    ensures ok <==> Accepted(lane, healthy)
    ensures ok ==> completed == Run(lane, healthy, lane.events).value.completed
  {
    Verdict(lane, healthy);
    hide FrameShape, Wanted, NewFrame, Run;
    var stack: seq<Frame>, lastSerial: u64, lastRouter: u64 := [], 0, 0;
    var phase: Option<u64>, routers: set<Id>, entries: nat := None, {}, 0;
    completed := [];
    for i := 0 to |lane.events|
      invariant Run(lane, healthy, lane.events[..i]) ==
        Some(State(stack, lastSerial, lastRouter, phase, routers, entries, completed))
    {
      hide Accepted;
      var ev := lane.events[i];
      var f, e := ev.frame, ev.frame.entry;
      ghost var s := State(stack, lastSerial, lastRouter, phase, routers, entries, completed);
      ghost var next := Step(lane, healthy, s, ev);
      RunNext(lane, healthy, i);
      if !FrameShape(f) || e.invocation.epoch != lane.epoch || e.router.epoch != lane.routerEpoch ||
         e.update.thread != lane.thread
      {
        assert next.None?;
        return false, [];
      }
      if phase.None? { phase := Some(e.update.epoch); }
      if e.update.epoch != phase.value { return false, []; }
      assert LaneBound(lane, s, ev);
      hide LaneBound, FrameShape;
      assert next == if ev.kind.EntryEvent? then (if Enters(s, ev, healthy) then Some(WithEntry(s, ev)) else None)
                     else Progress(s, ev);
      hide Step;
      if ev.kind.EntryEvent? {
        if e.invocation.serial <= lastSerial || e.router.serial <= lastRouter || e.router in routers ||
           |stack| >= MAX_NESTING || (healthy && e.invocation.serial != lastSerial + 1) ||
           f != NewFrame(e, if stack == [] then NO_ID else stack[|stack|-1].entry.invocation)
        {
          assert !Enters(s, ev, healthy);
          return false, [];
        }
        assert Enters(s, ev, healthy);
        hide Enters, Progress;
        stack := stack + [f];
        lastSerial, lastRouter := e.invocation.serial, e.router.serial;
        entries, routers := entries + 1, routers + {e.router};
        assert next == Some(State(stack, lastSerial, lastRouter, phase, routers, entries, completed));
      } else {
        hide Enters, WithEntry;
        if stack == [] || stack[|stack|-1].entry.invocation != e.invocation { return false, []; }
        if Wanted(stack[|stack|-1], ev) != Some(f) { return false, []; }
        if ev.kind.NormalExit? || ev.kind.ExceptionalExit? {
          completed := completed + [(f, ev.kind.NormalExit?)];
          stack := stack[..|stack|-1];
        } else {
          stack := stack[..|stack|-1] + [f];
        }
        assert next == Some(State(stack, lastSerial, lastRouter, phase, routers, entries, completed));
      }
      hide *;
    }
    ok := stack == lane.pending && (lane.routerEpoch != 0 <==> entries != 0);
  }
}
