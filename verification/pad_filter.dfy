/** The pad activity filter: a ring of axis baselines with eviction, against each axis's travel. */
module PadActivity {
  import opened Options

  const DELTA: nat := 4096
  const CAPACITY: nat := 64

  datatype Axis = Axis(joystick: bool, device: nat, index: nat)
  datatype Entry = Entry(axis: Axis, baseline: int)

  datatype Filter = Filter(entries: seq<Option<Entry>>, next: nat)

  datatype Input = Moved(axis: Axis, value: int) | Removed(device: nat)

  function Abs(x: int): nat { if x < 0 then -x else x }

  predicate Sized(f: Filter) { |f.entries| == CAPACITY && f.next < CAPACITY }

  predicate Holds(e: Option<Entry>, axis: Axis) { e.Some? && e.value.axis == axis }

  /** The first slot of an axis, or the capacity. */
  function Find(entries: seq<Option<Entry>>, axis: Axis): (i: nat)
    ensures i <= |entries|
    ensures i < |entries| ==> Holds(entries[i], axis)
    ensures forall k :: 0 <= k < i ==> !Holds(entries[k], axis)
  {
    if entries == [] || Holds(entries[0], axis) then 0
    else
      assert forall k :: 1 <= k < |entries| ==> entries[k] == entries[1..][k-1];
      1 + Find(entries[1..], axis)
  }

  function Dropped(entries: seq<Option<Entry>>, device: nat): seq<Option<Entry>> {
    seq(|entries|, i requires 0 <= i < |entries| =>
      if entries[i].Some? && entries[i].value.axis.device == device then None else entries[i])
  }

  function Step(f: Filter, x: Input): Filter
    requires Sized(f)
  {
    match x
    case Removed(device) => f.(entries := Dropped(f.entries, device))
    case Moved(axis, value) =>
      var i := Find(f.entries, axis);
      if i == CAPACITY then Filter(f.entries[f.next := Some(Entry(axis, value))], (f.next + 1) % CAPACITY)
      else if Abs(value - f.entries[i].value.baseline) < DELTA then f
      else f.(entries := f.entries[i := Some(Entry(axis, value))])
  }

  predicate Active(f: Filter, x: Input)
    requires Sized(f)
  {
    x.Moved? && var i := Find(f.entries, x.axis);
    i < CAPACITY && Abs(x.value - f.entries[i].value.baseline) >= DELTA
  }

  class PadActivityFilter {
    const entries: array<Option<Entry>>
    var next: nat

    ghost predicate Valid()
      reads this
    {
      entries.Length == CAPACITY && next < CAPACITY
    }

    ghost function Value(): (f: Filter)
      requires Valid()
      reads this, entries
      ensures Sized(f)
    {
      Filter(entries[..], next)
    }

    constructor ()
      ensures Valid() && fresh(entries) && Value() == Empty()
    {
      entries := new Option<Entry>[CAPACITY](_ => None);
      next := 0;
    }

    method OnAxis(axis: Axis, value: int) returns (active: bool)
      requires Valid()
      modifies this, entries
      ensures Valid() && Value() == Step(old(Value()), Moved(axis, value))
      ensures active <==> Active(old(Value()), Moved(axis, value))
    {
      var i := 0;
      while i < CAPACITY && !Holds(entries[i], axis)
        invariant i <= CAPACITY && forall k :: 0 <= k < i ==> !Holds(entries[k], axis)
      {
        i := i + 1;
      }
      assert i == Find(entries[..], axis);
      if i == CAPACITY {
        entries[next] := Some(Entry(axis, value));
        next := (next + 1) % CAPACITY;
        return false;
      }
      var delta := Abs(value - entries[i].value.baseline);
      if delta < DELTA { return false; }
      entries[i] := Some(Entry(axis, value));
      active := true;
    }

    method OnDeviceRemoved(device: nat)
      requires Valid()
      modifies entries
      ensures Valid() && Value() == Step(old(Value()), Removed(device))
    {
      ghost var before := entries[..];
      for i := 0 to CAPACITY
        invariant forall k :: 0 <= k < i ==> entries[k] == Dropped(before, device)[k]
        invariant forall k :: i <= k < CAPACITY ==> entries[k] == before[k]
      {
        if entries[i].Some? && entries[i].value.axis.device == device { entries[i] := None; }
      }
      assert entries[..] == Dropped(before, device);
    }
  }

  function Empty(): Filter { Filter(seq(CAPACITY, _ => None), 0) }

  // ------------------------------------------------------------------- whole histories

  function Run(inputs: seq<Input>): (f: Filter)
    ensures Sized(f)
  {
    if inputs == [] then Empty() else Step(Run(inputs[..|inputs|-1]), inputs[|inputs|-1])
  }

  /** How often an axis counted as activity. */
  function Activities(inputs: seq<Input>, axis: Axis): nat {
    if inputs == [] then 0
    else
      var front, x := inputs[..|inputs|-1], inputs[|inputs|-1];
      Activities(front, axis) + if x.Moved? && x.axis == axis && Active(Run(front), x) then 1 else 0
  }

  /** The last value an axis showed. */
  function LastValue(inputs: seq<Input>, axis: Axis): Option<int> {
    if inputs == [] then None
    else
      var x := inputs[|inputs|-1];
      if x.Moved? && x.axis == axis then Some(x.value) else LastValue(inputs[..|inputs|-1], axis)
  }

  /** The distance an axis has travelled: the sum of the moves between its values. */
  function Travel(inputs: seq<Input>, axis: Axis): nat {
    if inputs == [] then 0
    else
      var front, x := inputs[..|inputs|-1], inputs[|inputs|-1];
      var last := LastValue(front, axis);
      Travel(front, axis) + if x.Moved? && x.axis == axis && last.Some? then Abs(x.value - last.value) else 0
  }

  /** No axis has two baselines. */
  ghost predicate Single(f: Filter)
    requires Sized(f)
  {
    forall i, k, axis: Axis :: 0 <= i < k < CAPACITY && Holds(f.entries[i], axis) ==> !Holds(f.entries[k], axis)
  }

  /** Activity paid for so far, and what the value has already moved from the current baseline. */
  ghost predicate Paid(f: Filter, axis: Axis, activities: nat, last: Option<int>, travel: nat)
    requires Sized(f)
  {
    activities * DELTA <= travel &&
    forall i :: 0 <= i < CAPACITY && Holds(f.entries[i], axis) ==>
      last.Some? && activities * DELTA + Abs(last.value - f.entries[i].value.baseline) <= travel
  }

  lemma {:induction false} SingleKept(f: Filter, x: Input)
    requires Sized(f) && Single(f)
    ensures Single(Step(f, x))
  {
  }

  /** Another axis's input, or a removal, can only evict this axis's baseline. */
  lemma {:induction false} OthersEvict(f: Filter, x: Input, axis: Axis, activities: nat, last: Option<int>, travel: nat)
    requires Sized(f) && Paid(f, axis, activities, last, travel)
    requires x.Moved? ==> x.axis != axis
    ensures Paid(Step(f, x), axis, activities, last, travel)
  {
  }

  lemma {:induction false} MovePaid(f: Filter, axis: Axis, value: int, activities: nat, last: Option<int>, travel: nat)
    requires Sized(f) && Single(f) && Paid(f, axis, activities, last, travel)
    ensures var x := Moved(axis, value);
            var moved := if last.Some? then Abs(value - last.value) else 0;
            Paid(Step(f, x), axis, activities + (if Active(f, x) then 1 else 0), Some(value), travel + moved)
  {
    var i := Find(f.entries, axis);
    if i < CAPACITY {
      assert Holds(f.entries[i], axis);
      var baseline := f.entries[i].value.baseline;
      assert Abs(value - baseline) <= Abs(last.value - baseline) + Abs(value - last.value);
    }
  }

  /** TRAVEL BOUND. However slots are seeded, evicted and freed, an axis's activities times 4096
      never exceed the distance the axis has travelled. */
  lemma {:induction false} ActivitiesWithinTravel(inputs: seq<Input>, axis: Axis)
    ensures Activities(inputs, axis) * DELTA <= Travel(inputs, axis)
    ensures Single(Run(inputs)) &&
            Paid(Run(inputs), axis, Activities(inputs, axis), LastValue(inputs, axis), Travel(inputs, axis))
  {
    hide *;
    if inputs == [] {
      NothingYet(axis);
    } else {
      var front, x := inputs[..|inputs|-1], inputs[|inputs|-1];
      ActivitiesWithinTravel(front, axis);
      HistoryStep(inputs, axis);
      SingleKept(Run(front), x);
      if x.Moved? && x.axis == axis {
        MovePaid(Run(front), axis, x.value, Activities(front, axis), LastValue(front, axis), Travel(front, axis));
      } else {
        OthersEvict(Run(front), x, axis, Activities(front, axis), LastValue(front, axis), Travel(front, axis));
      }
      PaidBounds(Run(inputs), axis, Activities(inputs, axis), LastValue(inputs, axis), Travel(inputs, axis));
    }
  }

  lemma {:induction false} NothingYet(axis: Axis)
    ensures Single(Run([])) && Paid(Run([]), axis, Activities([], axis), LastValue([], axis), Travel([], axis))
    ensures Activities([], axis) * DELTA <= Travel([], axis)
  {
  }

  lemma {:induction false} PaidBounds(f: Filter, axis: Axis, activities: nat, last: Option<int>, travel: nat)
    requires Sized(f) && Paid(f, axis, activities, last, travel)
    ensures activities * DELTA <= travel
  {
  }

  lemma {:induction false} HistoryStep(inputs: seq<Input>, axis: Axis)
    requires inputs != []
    ensures var front, x := inputs[..|inputs|-1], inputs[|inputs|-1];
            Run(inputs) == Step(Run(front), x) &&
            if x.Moved? && x.axis == axis then
              Activities(inputs, axis) == Activities(front, axis) + (if Active(Run(front), x) then 1 else 0) &&
              LastValue(inputs, axis) == Some(x.value) &&
              Travel(inputs, axis) ==
                Travel(front, axis) +
                (if LastValue(front, axis).Some? then Abs(x.value - LastValue(front, axis).value) else 0) &&
              x == Moved(axis, x.value)
            else
              Activities(inputs, axis) == Activities(front, axis) && LastValue(inputs, axis) == LastValue(front, axis) &&
              Travel(inputs, axis) == Travel(front, axis)
  {
    hide Step, Active;
  }
}
