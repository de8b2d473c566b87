/** The pad filter without its ring: each axis's baseline with the number of its seeding, forgotten after
    sixty-four later seedings. */
module PadAges {
  import opened Options
  import opened PadActivity

  /** A baseline and which seeding, counted from zero, put it there. */
  datatype Seed = Seed(baseline: int, number: nat)

  /** How many seedings there have been, and the latest seed of every axis not removed since. */
  datatype Ages = Ages(seedings: nat, seeds: map<Axis, Seed>)

  /** The seed is among the last sixty-four. */
  predicate Alive(a: Ages, axis: Axis) { axis in a.seeds && a.seedings <= a.seeds[axis].number + 64 }

  function Aged(a: Ages, x: Input): Ages {
    match x
    case Removed(device) =>
      a.(seeds := map axis | axis in a.seeds && axis.device != device :: a.seeds[axis])
    case Moved(axis, value) =>
      if !Alive(a, axis) then Ages(a.seedings + 1, a.seeds[axis := Seed(value, a.seedings)])
      else if -4096 < value - a.seeds[axis].baseline < 4096 then a
      else a.(seeds := a.seeds[axis := a.seeds[axis].(baseline := value)])
  }

  function History(inputs: seq<Input>): Ages {
    if inputs == [] then Ages(0, map[]) else Aged(History(inputs[..|inputs|-1]), inputs[|inputs|-1])
  }

  /** The ring holds exactly the living seeds, each in the slot its number names. */
  ghost predicate Rings(f: Filter, a: Ages)
    requires Sized(f)
  {
    && f.next == a.seedings % 64
    && (forall axis :: axis in a.seeds ==> a.seeds[axis].number < a.seedings)
    && (forall axis :: Alive(a, axis) ==>
          f.entries[a.seeds[axis].number % 64] == Some(Entry(axis, a.seeds[axis].baseline)))
    && (forall i :: 0 <= i < 64 && f.entries[i].Some? ==>
          var axis := f.entries[i].value.axis; Alive(a, axis) && a.seeds[axis].number % 64 == i)
  }

  lemma {:induction false} Near(n: nat, a: nat, b: nat)
    requires a < n <= a + 64 && b < n <= b + 64 && a % 64 == b % 64
    ensures a == b
  {
  }

  /** An axis is found in the ring exactly when its seed lives, with that baseline. */
  lemma {:induction false} FoundExactly(f: Filter, a: Ages, axis: Axis)
    requires Sized(f) && Rings(f, a)
    ensures Find(f.entries, axis) < 64 <==> Alive(a, axis)
    ensures Alive(a, axis) ==>
              Find(f.entries, axis) == a.seeds[axis].number % 64 &&
              f.entries[Find(f.entries, axis)] == Some(Entry(axis, a.seeds[axis].baseline))
  {
    var i := Find(f.entries, axis);
    if i < 64 { assert Holds(f.entries[i], axis); }
    if Alive(a, axis) { assert Holds(f.entries[a.seeds[axis].number % 64], axis); }
  }

  lemma {:induction false} SlotOfOldest(n: nat, number: nat)
    requires number < n <= number + 64
    ensures number % 64 == n % 64 <==> n == number + 64
  {
  }

  lemma {:induction false} SeedRings(f: Filter, a: Ages, axis: Axis, value: int)
    requires Sized(f) && Rings(f, a) && !Alive(a, axis)
    ensures Rings(Step(f, Moved(axis, value)), Aged(a, Moved(axis, value)))
  {
    FoundExactly(f, a, axis);
    var g, b := Step(f, Moved(axis, value)), Aged(a, Moved(axis, value));
    assert g == Filter(f.entries[f.next := Some(Entry(axis, value))], (f.next + 1) % 64);
    assert (a.seedings % 64 + 1) % 64 == (a.seedings + 1) % 64;
    hide Step, Aged, Find;
    forall x | x in a.seeds && a.seeds[x].number < a.seedings <= a.seeds[x].number + 64
      ensures a.seeds[x].number % 64 == a.seedings % 64 <==> a.seedings == a.seeds[x].number + 64
    {
      SlotOfOldest(a.seedings, a.seeds[x].number);
    }
    forall x | Alive(b, x)
      ensures g.entries[b.seeds[x].number % 64] == Some(Entry(x, b.seeds[x].baseline))
    {
      if x != axis { assert Alive(a, x); }
    }
    forall i | 0 <= i < 64 && g.entries[i].Some?
      ensures var x := g.entries[i].value.axis; Alive(b, x) && b.seeds[x].number % 64 == i
    {
      if i != f.next {
        assert f.entries[i].value.axis != axis;
        Rotated(a.seedings, a.seeds[f.entries[i].value.axis].number, i);
      }
    }
  }

  lemma {:induction false} Rotated(n: nat, number: nat, i: nat)
    requires number < n <= number + 64 && number % 64 == i && i != n % 64
    ensures n + 1 <= number + 64
  {
  }

  lemma {:induction false} MoveRings(f: Filter, a: Ages, axis: Axis, value: int)
    requires Sized(f) && Rings(f, a) && Alive(a, axis)
    ensures Rings(Step(f, Moved(axis, value)), Aged(a, Moved(axis, value)))
  {
    FoundExactly(f, a, axis);
    var slot := a.seeds[axis].number % 64;
    hide Find;
    forall x | Alive(a, x) && x != axis ensures a.seeds[x].number % 64 != slot {
      assert f.entries[a.seeds[x].number % 64] == Some(Entry(x, a.seeds[x].baseline));
    }
  }

  lemma {:induction false} RemoveRings(f: Filter, a: Ages, device: nat)
    requires Sized(f) && Rings(f, a)
    ensures Rings(Step(f, Removed(device)), Aged(a, Removed(device)))
  {
    var g, b := Step(f, Removed(device)), Aged(a, Removed(device));
    assert forall i :: 0 <= i < 64 ==>
      g.entries[i] == if f.entries[i].Some? && f.entries[i].value.axis.device == device then None else f.entries[i];
    assert forall x :: Alive(b, x) <==> Alive(a, x) && x.device != device;
  }

  lemma {:induction false} HistoryRings(inputs: seq<Input>)
    ensures Rings(Run(inputs), History(inputs))
  {
    if inputs == [] {
    } else {
      var front, x := inputs[..|inputs|-1], inputs[|inputs|-1];
      HistoryRings(front);
      var f, a := Run(front), History(front);
      assert Run(inputs) == Step(f, x) && History(inputs) == Aged(a, x);
      hide Rings, Run, History, Step, Aged, Alive;
      match x
      case Removed(device) => RemoveRings(f, a, device);
      case Moved(axis, value) => if Alive(a, axis) { MoveRings(f, a, axis, value); } else { SeedRings(f, a, axis, value); }
    }
  }

  /** ACTIVITY. An input is activity exactly when it moves an axis at least 4096 from a baseline that is
      neither removed nor followed by sixty-four later seedings. */
  lemma {:induction false} ActiveExactly(inputs: seq<Input>, x: Input)
    ensures Active(Run(inputs), x) <==>
            x.Moved? && Alive(History(inputs), x.axis) &&
            !(-4096 < x.value - History(inputs).seeds[x.axis].baseline < 4096)
  {
    HistoryRings(inputs);
    if x.Moved? { FoundExactly(Run(inputs), History(inputs), x.axis); }
    hide Rings, Run, History, Find;
  }
}
