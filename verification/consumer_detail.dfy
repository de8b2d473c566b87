/** Scalar frames and events shared by the consumer-detail recorder and its replay. */
module ConsumerDetail {
  const TWO32: nat := 0x1_0000_0000
  const TWO64: nat := 0x1_0000_0000_0000_0000

  type u32 = x: int | 0 <= x < TWO32
  type u64 = x: int | 0 <= x < TWO64

  const TARGET: u32 := 0x822C7870
  const CALLER: u64 := 0x822C5328
  const CHILD_LR: seq<u64> := [0x822C78C0, 0x822C78CC, 0x822C78D8]
  const DIRECT_TARGET: seq<u32> := [0, 0x82588428, 0x82476238]

  function Low32(x: u64): u32 { x % TWO32 }

  datatype Id = Id(epoch: u64, serial: u64)
  const NO_ID := Id(0, 0)

  datatype Update = Update(phaseCall: u64, epoch: u64, thread: u32)
  {
    predicate Bound() { phaseCall != 0 && epoch != 0 && thread != 0 }
    predicate Unbound() { phaseCall == 0 && epoch == 0 && thread == 0 }
  }

  datatype Entry = Entry(invocation: Id, router: Id, update: Update,
                         target: u32, caller: u64, r3: u64, f1: u64)

  datatype Stage = Entered | Branched | ChildActive | ChildReturned | ChildFailed
  datatype ChildState = Absent | Active | Returned | Failed
  datatype Kind = EntryEvent | BranchEvent | ChildPreEvent | ChildReturnEvent | ChildExceptionEvent
                | NormalExit | ExceptionalExit

  datatype Child = Child(caller: u64, r3: u64, f1: u64, ctr: u64, requested: u32,
                         state: ChildState, indirect: bool)
  const ZERO_CHILD := Child(0, 0, 0, 0, 0, Absent, false)

  type Children = c: seq<Child> | |c| == 3 witness [ZERO_CHILD, ZERO_CHILD, ZERO_CHILD]

  datatype Frame = Frame(entry: Entry, parent: Id, stage: Stage, r11: u64,
                         observed: bool, nonzero: bool, returned: nat, children: Children)

  /** A kind and the complete detached snapshot of the frame it left. */
  datatype Event = Event(kind: Kind, frame: Frame)

  function NewFrame(entry: Entry, parent: Id): Frame {
    Frame(entry, parent, Entered, 0, false, false, 0, [ZERO_CHILD, ZERO_CHILD, ZERO_CHILD])
  }

  function ParentOf(stack: seq<Frame>): Id {
    if stack == [] then NO_ID else stack[|stack|-1].entry.invocation
  }

  const ZERO_FRAME := NewFrame(Entry(NO_ID, NO_ID, Update(0, 0, 0), 0, 0, 0, 0), NO_ID)
}
