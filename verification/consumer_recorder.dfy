/** The native recorder: a bounded stack of frames, a bounded log of snapshots, a sticky fault. */
module ConsumerRecorder {
  import opened ConsumerDetail

  datatype Fault = NoFault | IdentityFault | TransitionFault | CapacityFault | DepthFault

  /** The abstract value of a recorder. */
  datatype Recorder = Recorder(epoch: u64, routerEpoch: u64, lastSerial: u64, lastRouter: u64,
                               log: seq<Event>, stack: seq<Frame>, fault: Fault, frozen: bool)
  {
    predicate Writable() { !frozen && fault == NoFault }
  }

  datatype Call =
    | Enter(entry: Entry)
    | Branch(id: Id, r11: u64)
    | ChildPre(id: Id, child: nat, caller: u64, r3: u64, f1: u64, ctr: u64)
    | ChildEnd(id: Id, child: nat, normal: bool)
    | Exit(id: Id, normal: bool)
    | Freeze

  datatype Decision = Refuse(fault: Fault) | Push(frame: Frame) | Change(kind: Kind, frame: Frame) | Pop(kind: Kind)

  predicate Admissible(s: Recorder, entry: Entry) {
    && entry.invocation.epoch == s.epoch && entry.invocation.serial != 0
    && entry.invocation.serial > s.lastSerial && entry.router.epoch != 0
    && (s.routerEpoch != 0 ==> entry.router.epoch == s.routerEpoch)
    && entry.router.serial != 0 && entry.router.serial > s.lastRouter
    && entry.target == TARGET && entry.caller == CALLER
    && (entry.update.Bound() || entry.update.Unbound())
  }

  predicate MayPre(f: Frame, child: nat, caller: u64, ctr: u64) {
    && f.observed && f.nonzero && child < 3 && child == f.returned
    && (f.stage == Branched || f.stage == ChildReturned)
    && caller == CHILD_LR[child] && (child != 0 ==> ctr == 0)
  }

  predicate MayEnd(f: Frame, child: nat) {
    f.stage == ChildActive && child < 3 && child == f.returned && f.children[child].state == Active
  }

  predicate MayReturn(f: Frame) {
    f.observed && (if f.nonzero then f.stage == ChildReturned && f.returned == 3 else f.stage == Branched)
  }

  function Selected(child: nat, caller: u64, r3: u64, f1: u64, ctr: u64): Child
    requires child < 3
  {
    Child(caller, r3, f1, ctr, if child == 0 then Low32(ctr) else DIRECT_TARGET[child], Active, child == 0)
  }

  function Branching(f: Frame, r11: u64): Frame {
    f.(r11 := r11, observed := true, nonzero := Low32(r11) != 0, stage := Branched)
  }

  function Calling(f: Frame, child: nat, c: Child): Frame
    requires child < 3
  {
    f.(children := f.children[child := c], stage := ChildActive)
  }

  function Ending(f: Frame, child: nat, normal: bool): Frame
    requires child < 3
  {
    f.(children := f.children[child := f.children[child].(state := if normal then Returned else Failed)],
       stage := if normal then ChildReturned else ChildFailed,
       returned := if normal then f.returned + 1 else f.returned)
  }

  function Decide(depth: nat, s: Recorder, call: Call): Decision
    requires !call.Freeze?
  {
    if call.Enter? then
      if !Admissible(s, call.entry) then Refuse(IdentityFault)
      else if |s.stack| == depth then Refuse(DepthFault)
      else Push(NewFrame(call.entry, ParentOf(s.stack)))
    else if s.stack == [] || s.stack[|s.stack|-1].entry.invocation != call.id then Refuse(IdentityFault)
    else
      var f := s.stack[|s.stack|-1];
      match call
      case Branch(_, r11) =>
        if f.stage != Entered then Refuse(TransitionFault) else Change(BranchEvent, Branching(f, r11))
      case ChildPre(_, child, caller, r3, f1, ctr) =>
        if !MayPre(f, child, caller, ctr) then Refuse(TransitionFault)
        else Change(ChildPreEvent, Calling(f, child, Selected(child, caller, r3, f1, ctr)))
      case ChildEnd(_, child, normal) =>
        if !MayEnd(f, child) then Refuse(TransitionFault)
        else Change(if normal then ChildReturnEvent else ChildExceptionEvent, Ending(f, child, normal))
      case Exit(_, normal) =>
        if normal && !MayReturn(f) then Refuse(TransitionFault)
        else Pop(if normal then NormalExit else ExceptionalExit)
  }

  /** One call: nothing once frozen or faulted; room in the log is checked last. */
  function Apply(capacity: nat, depth: nat, s: Recorder, call: Call): Recorder {
    if call.Freeze? then s.(frozen := true)
    else if !s.Writable() then s
    else
      var decision := Decide(depth, s, call);
      if decision.Refuse? then s.(fault := decision.fault)
      else if |s.log| >= capacity then s.(fault := CapacityFault)
      else
        match decision
        case Push(frame) =>
          s.(stack := s.stack + [frame], log := s.log + [Event(EntryEvent, frame)],
             routerEpoch := if s.routerEpoch == 0 then frame.entry.router.epoch else s.routerEpoch,
             lastSerial := frame.entry.invocation.serial, lastRouter := frame.entry.router.serial)
        case Change(kind, frame) =>
          s.(stack := s.stack[..|s.stack|-1] + [frame], log := s.log + [Event(kind, frame)])
        case Pop(kind) =>
          s.(stack := s.stack[..|s.stack|-1], log := s.log + [Event(kind, s.stack[|s.stack|-1])])
  }

  function Start(epoch: u64, routerEpoch: u64): Recorder {
    Recorder(epoch, routerEpoch, 0, 0, [], [], if epoch == 0 then IdentityFault else NoFault, false)
  }

  function Run(capacity: nat, depth: nat, s: Recorder, calls: seq<Call>): Recorder {
    if calls == [] then s
    else Apply(capacity, depth, Run(capacity, depth, s, calls[..|calls|-1]), calls[|calls|-1])
  }

  /** The class as written: fixed arrays with counts, updated in place. */
  class Model {
    const capacity: nat
    const depthLimit: nat
    const epoch: u64
    const events: array<Event>
    const stack: array<Frame>
    var routerEpoch: u64
    var lastSerial: u64
    var lastRouter: u64
    var size: nat
    var depth: nat
    var fault: Fault
    var frozen: bool

    ghost predicate Valid()
      reads this
    {
      && events.Length == capacity && stack.Length == depthLimit
      && size <= capacity && depth <= depthLimit
    }

    /** The recorder this object stands for. */
    ghost function Value(): Recorder
      requires Valid()
      reads this, events, stack
    {
      Recorder(epoch, routerEpoch, lastSerial, lastRouter, events[..size], stack[..depth], fault, frozen)
    }

    constructor (capacity: nat, depthLimit: nat, epoch: u64, routerEpoch: u64)
      requires 0 < capacity <= 65536 && 0 < depthLimit <= 64
      ensures Valid() && fresh(events) && fresh(stack)
      ensures this.capacity == capacity && this.depthLimit == depthLimit && Value() == Start(epoch, routerEpoch)
    {
      this.capacity, this.depthLimit, this.epoch := capacity, depthLimit, epoch;
      this.events := new Event[capacity](_ => Event(EntryEvent, ZERO_FRAME));
      this.stack := new Frame[depthLimit](_ => ZERO_FRAME);
      this.routerEpoch, lastSerial, lastRouter := routerEpoch, 0, 0;
      size, depth, frozen := 0, 0, false;
      fault := if epoch == 0 then IdentityFault else NoFault;
    }

    predicate Writable()
      reads this
    {
      !frozen && fault == NoFault
    }

    method Fail(f: Fault) returns (ok: bool)
      requires Valid()
      modifies this`fault
      ensures Valid() && !ok
      ensures Value() == if old(Writable()) then old(Value()).(fault := f) else old(Value())
    {
      if Writable() { fault := f; }
      ok := false;
    }

    method Room() returns (ok: bool)
      requires Valid() && Writable()
      modifies this`fault
      ensures Valid() && ok == (old(size) < capacity)
      ensures Value() == if ok then old(Value()) else old(Value()).(fault := CapacityFault)
    {
      ok := size < capacity;
      if !ok { ok := Fail(CapacityFault); }
    }

    method Top(id: Id) returns (ok: bool)
      requires Valid()
      modifies this`fault
      ensures Valid()
      ensures ok == (old(Writable()) && depth > 0 && stack[depth-1].entry.invocation == id)
      ensures Value() == if old(Writable()) && !ok then old(Value()).(fault := IdentityFault) else old(Value())
    {
      if !Writable() { return false; }
      if depth == 0 || stack[depth-1].entry.invocation != id {
        ok := Fail(IdentityFault);
      } else {
        ok := true;
      }
    }

    method PushFrame(entry: Entry)
      requires Valid() && depth < depthLimit
      modifies this`depth, this`routerEpoch, this`lastSerial, this`lastRouter, stack
      ensures Valid() && 0 < depth && stack[depth-1] == NewFrame(entry, ParentOf(old(Value()).stack))
      ensures var was := old(Value());
              Value() == was.(stack := was.stack + [NewFrame(entry, ParentOf(was.stack))],
                              routerEpoch := if was.routerEpoch == 0 then entry.router.epoch else was.routerEpoch,
                              lastSerial := entry.invocation.serial, lastRouter := entry.router.serial)
    {
      var parent := NO_ID;
      if depth > 0 { parent := stack[depth-1].entry.invocation; }
      stack[depth] := NewFrame(entry, parent);
      depth := depth + 1;
      if routerEpoch == 0 { routerEpoch := entry.router.epoch; }
      lastSerial, lastRouter := entry.invocation.serial, entry.router.serial;
    }

    method Emit(kind: Kind)
      requires Valid() && 0 < depth && size < capacity
      modifies this`size, events
      ensures Valid() && depth == old(depth)
      ensures Value() == old(Value()).(log := old(Value()).log + [Event(kind, stack[depth-1])])
    {
      events[size] := Event(kind, stack[depth-1]);
      size := size + 1;
    }

    method Enter(entry: Entry) returns (ok: bool)
      requires Valid()
      modifies this, events, stack
      ensures Valid() && Value() == Apply(capacity, depthLimit, old(Value()), Call.Enter(entry))
      ensures ok == (size > old(size))
    {
      hide MayPre, MayEnd, MayReturn, Selected, Branching, Calling, Ending;
      if !Writable() { return false; }
      var b := entry.update;
      if entry.invocation.epoch != epoch || entry.invocation.serial == 0 ||
         entry.invocation.serial <= lastSerial || entry.router.epoch == 0 ||
         (routerEpoch != 0 && entry.router.epoch != routerEpoch) ||
         entry.router.serial == 0 || entry.router.serial <= lastRouter ||
         entry.target != TARGET || entry.caller != CALLER || (!b.Bound() && !b.Unbound())
      {
        assert !Admissible(Value(), entry);
        ok := Fail(IdentityFault);
        return;
      }
      assert Admissible(Value(), entry);
      hide Admissible, NewFrame, ParentOf;
      if depth == depthLimit { ok := Fail(DepthFault); return; }
      ok := Room();
      if !ok { return; }
      PushFrame(entry);
      Emit(EntryEvent);
    }

    method Branch(id: Id, r11: u64) returns (ok: bool)
      requires Valid()
      modifies this, events, stack
      ensures Valid() && Value() == Apply(capacity, depthLimit, old(Value()), Call.Branch(id, r11))
      ensures ok == (size > old(size))
    {
      hide Admissible, MayPre, MayEnd, MayReturn, Selected, Calling, Ending, NewFrame;
      ok := Top(id);
      if !ok { return; }
      var f := stack[depth-1];
      if f.stage != Entered { ok := Fail(TransitionFault); return; }
      ok := Room();
      if !ok { return; }
      f := f.(r11 := r11);
      f := f.(observed := true);
      f := f.(nonzero := Low32(r11) != 0);
      f := f.(stage := Branched);
      stack[depth-1] := f;
      Emit(BranchEvent);
    }

    method ChildPre(id: Id, child: nat, caller: u64, r3: u64, f1: u64, ctr: u64) returns (ok: bool)
      requires Valid()
      modifies this, events, stack
      ensures Valid()
      ensures Value() == Apply(capacity, depthLimit, old(Value()), Call.ChildPre(id, child, caller, r3, f1, ctr))
      ensures ok == (size > old(size))
    {
      hide Admissible, MayEnd, MayReturn, Selected, Branching, Ending, NewFrame;
      ok := Top(id);
      if !ok { return; }
      var f := stack[depth-1];
      if !f.observed || !f.nonzero || child >= 3 || child != f.returned ||
         (f.stage != Branched && f.stage != ChildReturned) ||
         caller != CHILD_LR[child] || (child != 0 && ctr != 0)
      {
        ok := Fail(TransitionFault);
        return;
      }
      ok := Room();
      if !ok { return; }
      f := f.(children := f.children[child := Selected(child, caller, r3, f1, ctr)]);
      f := f.(stage := ChildActive);
      stack[depth-1] := f;
      Emit(ChildPreEvent);
    }

    method ChildEnd(id: Id, child: nat, normal: bool) returns (ok: bool)
      requires Valid()
      modifies this, events, stack
      ensures Valid() && Value() == Apply(capacity, depthLimit, old(Value()), Call.ChildEnd(id, child, normal))
      ensures ok == (size > old(size))
    {
      hide Admissible, MayPre, MayReturn, Selected, Branching, Calling, NewFrame;
      ok := Top(id);
      if !ok { return; }
      var f := stack[depth-1];
      if f.stage != ChildActive || child >= 3 || child != f.returned || f.children[child].state != Active {
        ok := Fail(TransitionFault);
        return;
      }
      ok := Room();
      if !ok { return; }
      f := f.(children := f.children[child := f.children[child].(state := if normal then Returned else Failed)]);
      f := f.(stage := if normal then ChildReturned else ChildFailed);
      if normal { f := f.(returned := f.returned + 1); }
      stack[depth-1] := f;
      Emit(if normal then ChildReturnEvent else ChildExceptionEvent);
    }

    method Exit(id: Id, normal: bool) returns (ok: bool)
      requires Valid()
      modifies this, events, stack
      ensures Valid() && Value() == Apply(capacity, depthLimit, old(Value()), Call.Exit(id, normal))
      ensures ok == (size > old(size))
    {
      hide Admissible, MayPre, MayEnd, Selected, Branching, Calling, Ending, NewFrame;
      ok := Top(id);
      if !ok { return; }
      var f := stack[depth-1];
      if normal && (!f.observed ||
          (if f.nonzero then f.stage != ChildReturned || f.returned != 3 else f.stage != Branched))
      {
        ok := Fail(TransitionFault);
        return;
      }
      ok := Room();
      if !ok { return; }
      Emit(if normal then NormalExit else ExceptionalExit);
      depth := depth - 1;
      stack[depth] := ZERO_FRAME;
    }

    method Freeze()
      requires Valid()
      modifies this`frozen
      ensures Valid() && Value() == Apply(capacity, depthLimit, old(Value()), Call.Freeze)
    {
      frozen := true;
    }
  }
}
