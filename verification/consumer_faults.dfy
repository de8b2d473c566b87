/** When the recorder stops for good, which single fault a refused call leaves, and which calls it
    always records. */
module ConsumerFaults {
  import opened ConsumerDetail
  import opened ConsumerRecorder

  /** FREEZE. Whatever is called after a freeze, everything recorded before it stands, nothing more is
      recorded, and the recorder is frozen. */
  lemma {:induction false} FreezeStops(capacity: nat, depth: nat, s: Recorder, calls: seq<Call>)
    ensures Run(capacity, depth, s, [Freeze] + calls) == s.(frozen := true)
    ensures !Run(capacity, depth, s, [Freeze] + calls).Writable()
  {
    var all := [Freeze] + calls;
    if calls == [] {
      assert all[..|all|-1] == [];
      assert Run(capacity, depth, s, []) == s;
    } else {
      FreezeStops(capacity, depth, s, calls[..|calls|-1]);
      assert all[..|all|-1] == [Freeze] + calls[..|calls|-1];
      hide Decide;
    }
  }

  // ------------------------------------------------------------------------ single faults

  /** The entry names this recorder and its router lifetime, with serials later than any before. */
  predicate Later(s: Recorder, entry: Entry) {
    && entry.invocation.epoch == s.epoch && entry.invocation.serial > s.lastSerial
    && entry.router.epoch > 0 && (s.routerEpoch == 0 || s.routerEpoch == entry.router.epoch)
    && entry.router.serial > s.lastRouter
    && entry.target == TARGET && entry.caller == CALLER && (entry.update.Bound() || entry.update.Unbound())
  }

  predicate OnTop(s: Recorder, id: Id) { s.stack != [] && s.stack[|s.stack|-1].entry.invocation == id }

  /** The call names an identity the recorder may act on now. */
  predicate Identified(s: Recorder, call: Call) {
    match call
    case Enter(entry) => Later(s, entry)
    case Branch(id, _) => OnTop(s, id)
    case ChildPre(id, _, _, _, _, _) => OnTop(s, id)
    case ChildEnd(id, _, _) => OnTop(s, id)
    case Exit(id, _) => OnTop(s, id)
    case Freeze => true
  }

  lemma {:induction false} DecidesIdentity(depth: nat, s: Recorder, call: Call)
    requires !call.Freeze?
    ensures Decide(depth, s, call) == Refuse(IdentityFault) <==> !Identified(s, call)
    ensures Decide(depth, s, call) == Refuse(DepthFault) <==> call.Enter? && Identified(s, call) && |s.stack| == depth
    ensures Decide(depth, s, call) == Refuse(TransitionFault) ==> !call.Enter? && Identified(s, call)
    ensures Decide(depth, s, call).Refuse? ==> Decide(depth, s, call).fault in {IdentityFault, DepthFault, TransitionFault}
  {
    hide MayPre, MayEnd, MayReturn, Selected, Branching, Calling, Ending, NewFrame;
  }

  // --------------------------------------------------------------- calls always recorded

  /** The calls of one normally returning invocation: branch, three children in order when its low
      word is not zero, and the exit. `args` are the operands of the three children. */
  function RouteCalls(entry: Entry, r11: u64, r3: seq<u64>, f1: seq<u64>, ctr: u64): seq<Call>
    requires |r3| == |f1| == 3
  {
    var id := entry.invocation;
    [Enter(entry), Branch(id, r11)] +
    (if Low32(r11) == 0 then []
     else ChildCalls(id, 0, r3[0], f1[0], ctr) + ChildCalls(id, 1, r3[1], f1[1], 0) + ChildCalls(id, 2, r3[2], f1[2], 0)) +
    [Exit(id, true)]
  }

  function ChildCalls(id: Id, child: nat, r3: u64, f1: u64, ctr: u64): seq<Call>
    requires child < 3
  {
    [ChildPre(id, child, CHILD_LR[child], r3, f1, ctr), ChildEnd(id, child, true)]
  }

  /** The kinds of the events of a log, in order. */
  function Kinds(log: seq<Event>): seq<Kind> {
    if log == [] then [] else Kinds(log[..|log|-1]) + [log[|log|-1].kind]
  }

  /** Part-way through an invocation on top of `s`: `f` is its frame, and events of these kinds were written. */
  ghost predicate PartWay(s: Recorder, now: Recorder, f: Frame, id: Id, kinds: seq<Kind>) {
    now.Writable() && now.stack == s.stack + [f] && f.entry.invocation == id && Wrote(s, now, kinds)
  }

  ghost predicate Wrote(s: Recorder, now: Recorder, kinds: seq<Kind>) {
    |now.log| == |s.log| + |kinds| && Kinds(now.log) == Kinds(s.log) + kinds
  }

  lemma {:induction false} WroteOne(s: Recorder, now: Recorder, next: Recorder, kinds: seq<Kind>, ev: Event)
    requires Wrote(s, now, kinds) && next.log == now.log + [ev]
    ensures Wrote(s, next, kinds + [ev.kind])
  {
    assert next.log[..|now.log|] == now.log;
  }

  lemma {:induction false} RunTwo(capacity: nat, depth: nat, s: Recorder, a: seq<Call>, b: seq<Call>)
    ensures Run(capacity, depth, s, a + b) == Run(capacity, depth, Run(capacity, depth, s, a), b)
  {
    hide Apply;
    if b == [] {
      assert a + b == a;
    } else {
      RunTwo(capacity, depth, s, a, b[..|b|-1]);
      assert (a + b)[..|a + b|-1] == a + b[..|b|-1];
    }
  }

  lemma {:induction false} RunOne(capacity: nat, depth: nat, s: Recorder, call: Call)
    ensures Run(capacity, depth, s, [call]) == Apply(capacity, depth, s, call)
  {
    hide Apply;
    assert [call][..0] == [];
    assert Run(capacity, depth, s, []) == s;
  }

  lemma {:induction false} RunPair(capacity: nat, depth: nat, s: Recorder, a: Call, b: Call)
    ensures Run(capacity, depth, s, [a, b]) == Apply(capacity, depth, Apply(capacity, depth, s, a), b)
  {
    hide Apply;
    assert [a, b] == [a] + [b];
    RunTwo(capacity, depth, s, [a], [b]);
    RunOne(capacity, depth, s, a);
    RunOne(capacity, depth, Apply(capacity, depth, s, a), b);
    hide Run;
  }

  /** A change to the top frame is written when there is room. */
  lemma {:induction false} ChangeWrites(capacity: nat, depth: nat, s: Recorder, now: Recorder, f: Frame, id: Id,
      kinds: seq<Kind>, call: Call, kind: Kind, next: Frame)
    requires PartWay(s, now, f, id, kinds) && |s.log| + |kinds| < capacity && !call.Freeze? && !call.Enter?
    requires Decide(depth, now, call) == Change(kind, next) && next.entry == f.entry
    ensures PartWay(s, Apply(capacity, depth, now, call), next, id, kinds + [kind])
  {
    hide Decide;
    var after := Apply(capacity, depth, now, call);
    assert after.log == now.log + [Event(kind, next)];
    WroteOne(s, now, after, kinds, Event(kind, next));
    hide Wrote, Apply;
    assert now.stack[..|now.stack|-1] == s.stack by { assert now.stack == s.stack + [f]; }
  }

  /** ENTERED. A recorded entry is logged with a frame that has done nothing yet and names the invocation it
      was entered under, and its serials become the last ones. */
  lemma {:induction false} EnterRecorded(capacity: nat, depth: nat, s: Recorder, entry: Entry)
    requires s.Writable() && Later(s, entry) && |s.stack| != depth && |s.log| < capacity
    ensures var next := Apply(capacity, depth, s, Enter(entry));
            var f := Frame(entry, if s.stack == [] then Id(0, 0) else s.stack[|s.stack|-1].entry.invocation, Entered, 0,
                           false, false, 0, [ZERO_CHILD, ZERO_CHILD, ZERO_CHILD]);
            && next.log == s.log + [Event(EntryEvent, f)] && next.stack == s.stack + [f] && next.Writable()
            && next.lastSerial == entry.invocation.serial && next.lastRouter == entry.router.serial
            && next.routerEpoch == entry.router.epoch && next.epoch == s.epoch
  {
  }

  lemma {:induction false} BeginsRecorded(capacity: nat, depth: nat, s: Recorder, entry: Entry, r11: u64)
    requires s.Writable() && Later(s, entry) && |s.stack| != depth && |s.log| + 2 <= capacity
    ensures PartWay(s, Run(capacity, depth, s, [Enter(entry), Branch(entry.invocation, r11)]),
                    Branching(NewFrame(entry, ParentOf(s.stack)), r11), entry.invocation, [EntryEvent, BranchEvent])
  {
    var f, id := NewFrame(entry, ParentOf(s.stack)), entry.invocation;
    var now := Apply(capacity, depth, s, Enter(entry));
    RunPair(capacity, depth, s, Enter(entry), Branch(id, r11));
    hide Run;
    EnterRecorded(capacity, depth, s, entry);
    assert Decide(depth, now, Branch(id, r11)) == Change(BranchEvent, Branching(f, r11));
    hide Decide, Apply;
    assert Kinds(s.log) + [] == Kinds(s.log);
    assert Wrote(s, s, []);
    WroteOne(s, s, now, [], Event(EntryEvent, f));
    assert [] + [EntryEvent] == [EntryEvent] && [EntryEvent] + [BranchEvent] == [EntryEvent, BranchEvent];
    hide Wrote;
    ChangeWrites(capacity, depth, s, now, f, id, [EntryEvent], Branch(id, r11), BranchEvent, Branching(f, r11));
  }

  /** The next child of a selected route may begin. */
  predicate NextChild(f: Frame, child: nat) {
    f.observed && f.nonzero && child < 3 && f.returned == child && f.stage == if child == 0 then Branched else ChildReturned
  }

  function Called(f: Frame, child: nat, r3: u64, f1: u64, ctr: u64): Frame
    requires child < 3
  {
    Ending(Calling(f, child, Selected(child, CHILD_LR[child], r3, f1, ctr)), child, true)
  }

  const CHILD: seq<Kind> := [ChildPreEvent, ChildReturnEvent]

  /** What the two calls of a child decide. */
  lemma {:induction false} ChildDecided(depth: nat, now: Recorder, f: Frame, id: Id, child: nat, r3: u64, f1: u64,
      ctr: u64)
    requires now.stack != [] && now.stack[|now.stack|-1] == f && f.entry.invocation == id && child < 3
    ensures NextChild(f, child) && (child != 0 ==> ctr == 0) ==>
              Decide(depth, now, ChildPre(id, child, CHILD_LR[child], r3, f1, ctr)) ==
                Change(ChildPreEvent, Calling(f, child, Selected(child, CHILD_LR[child], r3, f1, ctr)))
    ensures MayEnd(f, child) ==>
              Decide(depth, now, ChildEnd(id, child, true)) == Change(ChildReturnEvent, Ending(f, child, true))
  {
    hide Selected, Calling, Ending;
  }

  lemma {:induction false} CallingMayEnd(f: Frame, child: nat, r3: u64, f1: u64, ctr: u64)
    requires NextChild(f, child)
    ensures var g := Calling(f, child, Selected(child, CHILD_LR[child], r3, f1, ctr));
            MayEnd(g, child) && g.entry == f.entry && Ending(g, child, true).entry == f.entry
  {
  }

  lemma {:induction false} TopOf(s: Recorder, now: Recorder, f: Frame, id: Id, kinds: seq<Kind>)
    requires PartWay(s, now, f, id, kinds)
    ensures now.stack != [] && now.stack[|now.stack|-1] == f && f.entry.invocation == id
  {
  }

  lemma {:induction false} ChildRecorded(capacity: nat, depth: nat, s: Recorder, now: Recorder, f: Frame, id: Id,
      kinds: seq<Kind>, child: nat, r3: u64, f1: u64, ctr: u64)
    requires PartWay(s, now, f, id, kinds) && |s.log| + |kinds| + 2 <= capacity && child < 3 && NextChild(f, child)
    requires child != 0 ==> ctr == 0
    ensures PartWay(s, Run(capacity, depth, now, ChildCalls(id, child, r3, f1, ctr)), Called(f, child, r3, f1, ctr), id,
                    kinds + CHILD)
  {
    var pre, end := ChildPre(id, child, CHILD_LR[child], r3, f1, ctr), ChildEnd(id, child, true);
    var g := Calling(f, child, Selected(child, CHILD_LR[child], r3, f1, ctr));
    var mid := Apply(capacity, depth, now, pre);
    assert kinds + CHILD == (kinds + [ChildPreEvent]) + [ChildReturnEvent];
    assert ChildCalls(id, child, r3, f1, ctr) == [pre, end] && Called(f, child, r3, f1, ctr) == Ending(g, child, true);
    hide *;
    RunPair(capacity, depth, now, pre, end);
    TopOf(s, now, f, id, kinds);
    ChildDecided(depth, now, f, id, child, r3, f1, ctr);
    CallingMayEnd(f, child, r3, f1, ctr);
    ChangeWrites(capacity, depth, s, now, f, id, kinds, pre, ChildPreEvent, g);
    TopOf(s, mid, g, id, kinds + [ChildPreEvent]);
    ChildDecided(depth, mid, g, id, child, r3, f1, ctr);
    ChangeWrites(capacity, depth, s, mid, g, id, kinds + [ChildPreEvent], end, ChildReturnEvent, Ending(g, child, true));
  }

  lemma {:induction false} CalledNext(f: Frame, child: nat, r3: u64, f1: u64, ctr: u64)
    requires NextChild(f, child)
    ensures var g := Called(f, child, r3, f1, ctr);
            if child < 2 then NextChild(g, child + 1) else MayReturn(g)
  {
  }

  lemma {:induction false} ExitRecorded(capacity: nat, depth: nat, s: Recorder, now: Recorder, f: Frame, id: Id,
      kinds: seq<Kind>)
    requires PartWay(s, now, f, id, kinds) && |s.log| + |kinds| < capacity && MayReturn(f)
    ensures var next := Apply(capacity, depth, now, Exit(id, true));
            next.Writable() && next.stack == s.stack && Wrote(s, next, kinds + [NormalExit])
  {
    hide MayReturn;
    var next := Apply(capacity, depth, now, Exit(id, true));
    assert next.log == now.log + [Event(NormalExit, f)];
    WroteOne(s, now, next, kinds, Event(NormalExit, f));
    hide Wrote;
  }

  lemma {:induction false} ChildrenRecorded(capacity: nat, depth: nat, s: Recorder, now: Recorder, f: Frame, id: Id,
      kinds: seq<Kind>, r3: seq<u64>, f1: seq<u64>, ctr: u64) returns (g: Frame)
    requires |r3| == |f1| == 3 && PartWay(s, now, f, id, kinds) && |s.log| + |kinds| + 6 <= capacity && NextChild(f, 0)
    ensures MayReturn(g)
    ensures PartWay(s, Run(capacity, depth, now,
                           ChildCalls(id, 0, r3[0], f1[0], ctr) + ChildCalls(id, 1, r3[1], f1[1], 0) +
                           ChildCalls(id, 2, r3[2], f1[2], 0)), g, id, ((kinds + CHILD) + CHILD) + CHILD)
  {
    var a, b := ChildCalls(id, 0, r3[0], f1[0], ctr), ChildCalls(id, 1, r3[1], f1[1], 0);
    var c := ChildCalls(id, 2, r3[2], f1[2], 0);
    var first := Called(f, 0, r3[0], f1[0], ctr);
    var second := Called(first, 1, r3[1], f1[1], 0);
    g := Called(second, 2, r3[2], f1[2], 0);
    assert |CHILD| == 2;
    hide *;
    CalledNext(f, 0, r3[0], f1[0], ctr);
    CalledNext(first, 1, r3[1], f1[1], 0);
    CalledNext(second, 2, r3[2], f1[2], 0);
    RunTwo(capacity, depth, now, a, b);
    RunTwo(capacity, depth, now, a + b, c);
    ChildRecorded(capacity, depth, s, now, f, id, kinds, 0, r3[0], f1[0], ctr);
    ChildRecorded(capacity, depth, s, Run(capacity, depth, now, a), first, id, kinds + CHILD, 1, r3[1], f1[1], 0);
    ChildRecorded(capacity, depth, s, Run(capacity, depth, now, a + b), second, id, (kinds + CHILD) + CHILD,
                  2, r3[2], f1[2], 0);
  }

  /** The kinds a whole route writes, one for each of its calls. */
  function RouteKinds(r11: u64): seq<Kind> {
    if Low32(r11) == 0 then [EntryEvent, BranchEvent, NormalExit]
    else
      [EntryEvent, BranchEvent, ChildPreEvent, ChildReturnEvent, ChildPreEvent, ChildReturnEvent, ChildPreEvent,
       ChildReturnEvent, NormalExit]
  }

  /** The exit that ends a route. */
  lemma {:induction false} RouteEnds(capacity: nat, depth: nat, s: Recorder, calls: seq<Call>, f: Frame, id: Id,
      kinds: seq<Kind>)
    requires PartWay(s, Run(capacity, depth, s, calls), f, id, kinds) && |s.log| + |kinds| < capacity && MayReturn(f)
    ensures var next := Run(capacity, depth, s, calls + [Exit(id, true)]);
            next.Writable() && next.stack == s.stack && Wrote(s, next, kinds + [NormalExit])
  {
    hide *;
    RunTwo(capacity, depth, s, calls, [Exit(id, true)]);
    RunOne(capacity, depth, Run(capacity, depth, s, calls), Exit(id, true));
    ExitRecorded(capacity, depth, s, Run(capacity, depth, s, calls), f, id, kinds);
  }

  lemma {:induction false} BranchLeads(entry: Entry, stack: seq<Frame>, r11: u64)
    ensures var f := Branching(NewFrame(entry, ParentOf(stack)), r11);
            if Low32(r11) == 0 then MayReturn(f) else NextChild(f, 0)
  {
  }

  /** ROUTES. Given room, a writable recorder records every call of a whole route of a later entry, each as
      its own kind of event, and is left writable with the stack it had. */
  lemma {:induction false} RouteRecorded(capacity: nat, depth: nat, s: Recorder, entry: Entry, r11: u64, r3: seq<u64>,
      f1: seq<u64>, ctr: u64)
    requires s.Writable() && Later(s, entry) && |s.stack| != depth && |r3| == |f1| == 3
    requires |s.log| + |RouteKinds(r11)| <= capacity
    ensures var next := Run(capacity, depth, s, RouteCalls(entry, r11, r3, f1, ctr));
            next.Writable() && next.stack == s.stack && Wrote(s, next, RouteKinds(r11))
  {
    var id := entry.invocation;
    var begin, kinds := [Enter(entry), Branch(id, r11)], [EntryEvent, BranchEvent];
    var f := Branching(NewFrame(entry, ParentOf(s.stack)), r11);
    var children :=
      ChildCalls(id, 0, r3[0], f1[0], ctr) + ChildCalls(id, 1, r3[1], f1[1], 0) + ChildCalls(id, 2, r3[2], f1[2], 0);
    var middle := if Low32(r11) == 0 then [] else children;
    assert RouteCalls(entry, r11, r3, f1, ctr) == (begin + middle) + [Exit(id, true)];
    var all := if Low32(r11) == 0 then kinds else ((kinds + CHILD) + CHILD) + CHILD;
    assert all + [NormalExit] == RouteKinds(r11);
    hide *;
    BeginsRecorded(capacity, depth, s, entry, r11);
    BranchLeads(entry, s.stack, r11);
    if Low32(r11) == 0 {
      assert begin + middle == begin;
      RouteEnds(capacity, depth, s, begin, f, id, kinds);
    } else {
      var g := ChildrenRecorded(capacity, depth, s, Run(capacity, depth, s, begin), f, id, kinds, r3, f1, ctr);
      RunTwo(capacity, depth, s, begin, middle);
      RouteEnds(capacity, depth, s, begin + middle, g, id, all);
    }
  }

  /** UNWINDING. Given room, an exceptional exit of the top invocation is always recorded and pops it. */
  lemma {:induction false} UnwindRecorded(capacity: nat, depth: nat, s: Recorder, id: Id)
    requires s.Writable() && OnTop(s, id) && |s.log| < capacity
    ensures var next := Apply(capacity, depth, s, Exit(id, false));
            next.Writable() && next.stack == s.stack[..|s.stack|-1] &&
            next.log == s.log + [Event(ExceptionalExit, s.stack[|s.stack|-1])]
  {
  }
}
