/** Bracketed semaphore operations, their entry order, and their inclusive
    overlap components. Both semaphore audits are written over this module. */
module SemaphoreJournal {
  import opened Options

  const MAX_QPC: nat := 0x7FFF_FFFF_FFFF_FFFF
  const U64: nat := 0xFFFF_FFFF_FFFF_FFFF
  const U32: nat := 0xFFFF_FFFF
  const MAX_COUNT: nat := 0x7FFF_FFFF

  datatype Context = Update(threadEpoch: nat, serial: nat) | Control | Unknown

  datatype WaitResult =
    | WaitSuccess | WaitTimeout | WaitApc | WaitAlerted
    | WaitAbandoned | WaitFailed | WaitUnknown

  /** Outcomes are nullable because a frozen journal retains pending operations. */
  datatype Payload =
    | Release(count: nat, success: Option<bool>, previous: Option<nat>, context: Context)
    | Wait(result: Option<WaitResult>)
    | Other(kind: string)

  datatype Op = Op(id: nat, epoch: nat, entry: nat, exit: nat, payload: Payload)
  {
    predicate Released() { payload.Release? && payload.success == Some(true) }
    predicate Consumed() { payload.Wait? && payload.result == Some(WaitSuccess) }
  }

  datatype Origin = Fresh | Native | Restored | UnknownOrigin

  /** One object lifetime: the accounting identity of its operations. */
  datatype Epoch = Epoch(id: nat, cookie: nat, creation: nat, destroy: Option<nat>,
                         initial: nat, maximum: nat, origin: Origin, historyComplete: bool)

  predicate EpochShape(e: Epoch) {
    && 1 <= e.id <= U64 && 1 <= e.cookie <= U64
    && e.creation <= MAX_QPC && (e.destroy.Some? ==> e.destroy.value <= MAX_QPC)
    && 1 <= e.maximum <= MAX_COUNT && e.initial <= e.maximum
  }

  ghost predicate UniqueEpochs(epochs: seq<Epoch>) {
    forall i, j :: 0 <= i < j < |epochs| ==> epochs[i].id != epochs[j].id
  }

  function Lookup(epochs: seq<Epoch>, id: nat): (r: Option<Epoch>)
    ensures r.Some? ==> r.value in epochs && r.value.id == id
    ensures r.None? ==> forall e :: e in epochs ==> e.id != id
  {
    if epochs == [] then None
    else if epochs[0].id == id then Some(epochs[0])
    else Lookup(epochs[1..], id)
  }

  lemma {:induction false} LookupUnique(epochs: seq<Epoch>, e: Epoch)
    requires UniqueEpochs(epochs) && e in epochs
    ensures Lookup(epochs, e.id) == Some(e)
  {
    var found := Lookup(epochs, e.id).value;
    var i :| 0 <= i < |epochs| && epochs[i] == e;
    var j :| 0 <= j < |epochs| && epochs[j] == found;
    assert i == j;
  }

  /** Value ranges of an operation with known outcome in an epoch of this maximum. */
  predicate PayloadShape(payload: Payload, maximum: nat) {
    match payload
    case Release(count, success, previous, context) =>
      && 1 <= count <= MAX_COUNT && success.Some?
      && (previous.Some? ==> previous.value <= maximum)
      && (success.value <==> previous.Some?)
      && (context.Update? ==> 1 <= context.threadEpoch <= U64 && 1 <= context.serial <= U64)
    case Wait(result) => result.Some?
    case Other(kind) => kind != "release" && kind != "wait"
  }

  /** The operations of one epoch, in journal order. */
  function Select(ops: seq<Op>, epoch: nat): seq<Op> {
    if ops == [] then []
    else
      var rest := Select(ops[..|ops|-1], epoch);
      if ops[|ops|-1].epoch == epoch then rest + [ops[|ops|-1]] else rest
  }

  lemma {:induction false} SelectMembers(ops: seq<Op>, epoch: nat)
    ensures forall op :: op in Select(ops, epoch) <==> op in ops && op.epoch == epoch
    ensures Unique(ops) ==> Unique(Select(ops, epoch))
  {
    if ops != [] {
      SelectMembers(ops[..|ops|-1], epoch);
      assert ops == ops[..|ops|-1] + [ops[|ops|-1]];
    }
  }

  // ---------------------------------------------------------------- entry order

  /** The sort key of both audits: entry clock, then operation ID. */
  predicate Before(a: Op, b: Op) {
    a.entry < b.entry || (a.entry == b.entry && a.id < b.id)
  }

  ghost predicate Unique(ops: seq<Op>) {
    forall i, j :: 0 <= i < j < |ops| ==> ops[i].id != ops[j].id
  }

  ghost predicate Sorted(ops: seq<Op>) {
    forall i, j :: 0 <= i < j < |ops| ==> Before(ops[i], ops[j])
  }

  function Insert(op: Op, ops: seq<Op>): (r: seq<Op>)
    ensures multiset(r) == multiset(ops) + multiset{op}
    ensures |r| == |ops| + 1
  {
    if ops == [] then [op]
    else if Before(op, ops[0]) then [op] + ops
    else
      var r := [ops[0]] + Insert(op, ops[1..]);
      assert ops == [ops[0]] + ops[1..];
      r
  }

  function Sort(ops: seq<Op>): (r: seq<Op>)
    ensures multiset(r) == multiset(ops)
    ensures |r| == |ops|
  {
    if ops == [] then []
    else
      assert ops == [ops[0]] + ops[1..];
      Insert(ops[0], Sort(ops[1..]))
  }

  lemma {:induction false} SameElements(a: seq<Op>, b: seq<Op>)
    requires multiset(a) == multiset(b)
    ensures forall x :: x in a <==> x in b
  {
    forall x ensures x in a <==> x in b {
      assert x in a <==> x in multiset(a);
      assert x in b <==> x in multiset(b);
    }
  }

  lemma {:induction false} PrependSorted(op: Op, ops: seq<Op>)
    requires Sorted(ops) && forall x :: x in ops ==> Before(op, x)
    ensures Sorted([op] + ops)
  {
  }

  lemma {:induction false} InsertSorted(op: Op, ops: seq<Op>)
    requires Sorted(ops)
    requires forall x :: x in ops ==> x.id != op.id
    ensures Sorted(Insert(op, ops))
    ensures forall x :: x in Insert(op, ops) <==> x in ops || x == op
  {
    if ops != [] {
      assert ops == [ops[0]] + ops[1..];
      if Before(op, ops[0]) {
        forall x | x in ops ensures Before(op, x) { FirstIsLeast(ops, x); }
        PrependSorted(op, ops);
      } else {
        InsertSorted(op, ops[1..]);
        forall x | x in Insert(op, ops[1..]) ensures Before(ops[0], x) {
          if x in ops[1..] { TailElements(ops); FirstIsLeast(ops, x); }
        }
        PrependSorted(ops[0], Insert(op, ops[1..]));
      }
    }
  }

  lemma {:induction false} SortSorted(ops: seq<Op>)
    requires Unique(ops)
    ensures Sorted(Sort(ops))
    ensures forall x :: x in Sort(ops) <==> x in ops
  {
    SameElements(Sort(ops), ops);
    if ops != [] {
      SortSorted(ops[1..]);
      forall x | x in Sort(ops[1..]) ensures x.id != ops[0].id {
        assert x in ops[1..];
      }
      InsertSorted(ops[0], Sort(ops[1..]));
    }
  }

  lemma {:induction false} TailElements(a: seq<Op>)
    requires Sorted(a) && a != []
    ensures forall x :: x in a[1..] <==> x in a && x != a[0]
  {
    assert a == [a[0]] + a[1..];
    forall x | x in a[1..] ensures x != a[0] {
      var k :| 1 <= k < |a| && a[k] == x;
      assert Before(a[0], a[k]);
    }
  }

  lemma {:induction false} FirstIsLeast(a: seq<Op>, x: Op)
    requires Sorted(a) && x in a
    ensures x == a[0] || Before(a[0], x)
  {
    var i :| 0 <= i < |a| && a[i] == x;
  }

  lemma {:induction false} HasElement(a: seq<Op>)
    ensures a == [] || exists x :: x in a
  {
    if a != [] { assert a[0] in a; }
  }

  lemma {:induction false} SortedAgree(a: seq<Op>, b: seq<Op>)
    requires Sorted(a) && Sorted(b)
    requires forall x :: x in a <==> x in b
    ensures a == b
  {
    HasElement(a);
    HasElement(b);
    if a != [] && b != [] {
      assert a[0] in b && b[0] in a;
      FirstIsLeast(a, b[0]);
      FirstIsLeast(b, a[0]);
      assert a[0] == b[0];
      TailElements(a);
      TailElements(b);
      SortedAgree(a[1..], b[1..]);
    }
  }

  /** Sorting an already ordered list changes nothing: the projected prefix keeps its order. */
  lemma {:induction false} SortFixed(ops: seq<Op>)
    requires Sorted(ops) && Unique(ops)
    ensures Sort(ops) == ops
  {
    SortSorted(ops);
    SortedAgree(Sort(ops), ops);
  }

  // ---------------------------------------------------------- overlap components

  function Max(a: nat, b: nat): nat { if a > b then a else b }

  /** The largest exit of a component; 0 for no operations. */
  function LastExit(group: seq<Op>): nat {
    if group == [] then 0 else Max(LastExit(group[..|group|-1]), group[|group|-1].exit)
  }

  /** Adds the next operation in entry order: a strictly later start opens a component. */
  function Join(groups: seq<seq<Op>>, op: Op): seq<seq<Op>> {
    if groups == [] || op.entry > LastExit(groups[|groups|-1])
    then groups + [[op]]
    else groups[..|groups|-1] + [groups[|groups|-1] + [op]]
  }

  /** Inclusive transitive overlap/touch components of operations in entry order. */
  function Components(ops: seq<Op>): seq<seq<Op>> {
    if ops == [] then [] else Join(Components(ops[..|ops|-1]), ops[|ops|-1])
  }

  function Flatten(groups: seq<seq<Op>>): seq<Op> {
    if groups == [] then [] else Flatten(groups[..|groups|-1]) + groups[|groups|-1]
  }

  ghost predicate WellBracketed(ops: seq<Op>) {
    forall i :: 0 <= i < |ops| ==> ops[i].entry <= ops[i].exit
  }

  lemma {:induction false} LastExitBounds(group: seq<Op>)
    ensures forall op :: op in group ==> op.exit <= LastExit(group)
    ensures group != [] ==> exists op :: op in group && op.exit == LastExit(group)
  {
    if group != [] {
      var front, last := group[..|group|-1], group[|group|-1];
      LastExitBounds(front);
      assert group == front + [last];
      if last.exit >= LastExit(front) {
        assert last in group;
      } else {
        assert front != [];
        var op :| op in front && op.exit == LastExit(front);
        assert op in group;
      }
    }
  }

  lemma {:induction false} ComponentsSnoc(ops: seq<Op>, i: nat)
    requires i < |ops|
    ensures Components(ops[..i+1]) == Join(Components(ops[..i]), ops[i])
  {
    assert ops[..i+1][..i] == ops[..i];
  }

  lemma {:induction false} LastExitSnoc(group: seq<Op>, op: Op)
    ensures LastExit(group + [op]) == Max(LastExit(group), op.exit)
    ensures LastExit([op]) == op.exit
  {
    assert (group + [op])[..|group|] == group;
  }

  lemma {:induction false} JoinFlattens(groups: seq<seq<Op>>, op: Op)
    ensures Flatten(Join(groups, op)) == Flatten(groups) + [op]
    ensures (forall g :: g in groups ==> g != []) ==> forall g :: g in Join(groups, op) ==> g != []
  {
    var joined := Join(groups, op);
    if groups == [] || op.entry > LastExit(groups[|groups|-1]) {
      assert joined[..|groups|] == groups;
    } else {
      assert joined[..|groups|-1] == groups[..|groups|-1];
      forall i | 0 <= i < |joined| ensures joined[i] != [] || joined[i] in groups {
        assert i < |groups| - 1 ==> joined[i] == groups[i];
      }
    }
  }

  lemma {:induction false} ComponentsPartition(ops: seq<Op>)
    ensures Flatten(Components(ops)) == ops
    ensures forall g :: g in Components(ops) ==> g != []
  {
    if ops != [] {
      var front, op := ops[..|ops|-1], ops[|ops|-1];
      ComponentsPartition(front);
      JoinFlattens(Components(front), op);
      assert ops == front + [op];
    }
  }

  lemma {:induction false} FlattenMember(groups: seq<seq<Op>>, i: nat, op: Op)
    requires i < |groups| && op in groups[i]
    ensures op in Flatten(groups)
  {
    var n := |groups| - 1;
    if i < n {
      FlattenMember(groups[..n], i, op);
    }
  }

  lemma {:induction false} FlattenSplit(groups: seq<seq<Op>>, m: nat)
    requires m <= |groups|
    ensures Flatten(groups) == Flatten(groups[..m]) + Flatten(groups[m..])
  {
    if m == |groups| {
      assert groups[..m] == groups;
    } else {
      var n := |groups| - 1;
      FlattenSplit(groups[..n], m);
      assert groups[..n][..m] == groups[..m];
      assert groups[..n][m..] == groups[m..][..n-m];
      assert groups[m..][n-m] == groups[n];
    }
  }

  ghost predicate Separated(groups: seq<seq<Op>>) {
    forall i, j, a, b :: 0 <= i < j < |groups| && a in groups[i] && b in groups[j] ==> a.exit < b.entry
  }

  lemma {:induction false} JoinSeparated(groups: seq<seq<Op>>, op: Op)
    requires Separated(groups)
    requires forall g :: g in groups ==> g != []
    requires forall i, a :: 0 <= i < |groups| && a in groups[i] ==> a.entry <= op.entry
    ensures Separated(Join(groups, op))
  {
    var joined := Join(groups, op);
    if groups != [] {
      var n := |groups| - 1;
      LastExitBounds(groups[n]);
      // Everything before the last component ends before that component begins.
      assert groups[n] in groups;
      var head := groups[n][0];
      forall i, a: Op | 0 <= i < n && a in groups[i] ensures a.exit < op.entry {
        assert head in groups[n];
      }
      forall i, j, a: Op, b: Op | 0 <= i < j < |joined| && a in joined[i] && b in joined[j]
        ensures a.exit < b.entry
      {
        assert joined[i] == groups[i];
        if j < n { assert joined[j] == groups[j]; }
      }
    }
  }

  /** Distinct components are strictly disjoint in time, in the order they are listed. */
  lemma {:induction false} ComponentsSeparated(ops: seq<Op>)
    requires Sorted(ops) && WellBracketed(ops)
    ensures Separated(Components(ops))
  {
    if ops != [] {
      var front, op := ops[..|ops|-1], ops[|ops|-1];
      ComponentsSeparated(front);
      ComponentsPartition(front);
      var groups: seq<seq<Op>> := Components(front);
      forall i, a: Op | 0 <= i < |groups| && a in groups[i] ensures a.entry <= op.entry {
        FlattenMember(groups, i, a);
        var k :| 0 <= k < |front| && front[k] == a;
        assert Before(ops[k], ops[|ops|-1]);
      }
      JoinSeparated(groups, op);
    }
  }

  /** Inside a component every operation starts before the ones ahead of it have all ended. */
  ghost predicate Chained(groups: seq<seq<Op>>) {
    forall i, k :: 0 <= i < |groups| && 1 <= k < |groups[i]| ==>
      groups[i][0].entry <= groups[i][k].entry <= LastExit(groups[i][..k])
  }

  lemma {:induction false} JoinChained(groups: seq<seq<Op>>, op: Op)
    requires Chained(groups)
    requires forall i :: 0 <= i < |groups| ==> groups[i] != [] && groups[i][0].entry <= op.entry
    ensures Chained(Join(groups, op))
  {
    var joined: seq<seq<Op>> := Join(groups, op);
    forall i, k | 0 <= i < |joined| && 1 <= k < |joined[i]|
      ensures joined[i][0].entry <= joined[i][k].entry <= LastExit(joined[i][..k])
    {
      if k < |groups[i]| {
        assert joined[i][..k] == groups[i][..k];
      } else {
        assert joined[i][..k] == groups[i];
      }
    }
  }

  lemma {:induction false} ComponentsChained(ops: seq<Op>)
    requires Sorted(ops)
    ensures Chained(Components(ops))
  {
    if ops != [] {
      var front, op := ops[..|ops|-1], ops[|ops|-1];
      ComponentsChained(front);
      ComponentsPartition(front);
      var groups: seq<seq<Op>> := Components(front);
      forall i | 0 <= i < |groups| ensures groups[i] != [] && groups[i][0].entry <= op.entry {
        assert groups[i] in groups;
        FlattenMember(groups, i, groups[i][0]);
        var p :| 0 <= p < |front| && front[p] == groups[i][0];
        assert Before(ops[p], ops[|ops|-1]);
      }
      JoinChained(groups, op);
    }
  }

  /** The components found so far are final once the next operation starts strictly later. */
  ghost predicate Cut(ops: seq<Op>, k: nat)
    requires k <= |ops|
  {
    k == |ops| || Final(Components(ops[..k]), ops[k])
  }

  lemma {:induction false} JoinKeeps(groups: seq<seq<Op>>, op: Op, m: nat)
    requires m < |groups| || (m == |groups| && Final(groups, op))
    ensures m < |Join(groups, op)| && Join(groups, op)[..m] == groups[..m]
  {
  }

  ghost predicate Final(kept: seq<seq<Op>>, op: Op) {
    kept == [] || op.entry > LastExit(kept[|kept|-1])
  }

  lemma {:induction false} JoinExtends(kept: seq<seq<Op>>, groups: seq<seq<Op>>, op: Op)
    requires kept <= groups && (|kept| < |groups| || Final(kept, op))
    ensures kept <= Join(groups, op) && |kept| < |Join(groups, op)|
  {
    hide LastExit;
    assert |kept| == |groups| ==> kept == groups;
    JoinKeeps(groups, op, |kept|);
  }

  lemma {:induction false} CutGrows(ops: seq<Op>, k: nat, n: nat)
    requires k <= n <= |ops| && Cut(ops, k)
    ensures Components(ops[..k]) <= Components(ops[..n])
    ensures k < n ==> |Components(ops[..k])| < |Components(ops[..n])|
    decreases n
  {
    hide Final, Join, Components;
    if k < n {
      CutGrows(ops, k, n - 1);
      ComponentsSnoc(ops, n - 1);
      JoinExtends(Components(ops[..k]), Components(ops[..n-1]), ops[n-1]);
    }
  }

  lemma {:induction false} ComponentsCut(ops: seq<Op>, k: nat)
    requires k <= |ops| && Cut(ops, k)
    ensures Components(ops[..k]) <= Components(ops)
    ensures k < |ops| ==> |Components(ops[..k])| < |Components(ops)|
  {
    hide *;
    CutGrows(ops, k, |ops|);
    assert ops[..|ops|] == ops;
  }

  /** The first m components of a list are the components of the operations they contain. */
  lemma {:induction false} ComponentsPrefix(ops: seq<Op>, m: nat)
    requires m <= |Components(ops)|
    ensures |Flatten(Components(ops)[..m])| <= |ops|
    ensures Flatten(Components(ops)[..m]) == ops[..|Flatten(Components(ops)[..m])|]
    ensures Components(Flatten(Components(ops)[..m])) == Components(ops)[..m]
  {
    var groups := Components(ops);
    ComponentsPartition(ops);
    if m == |groups| {
      assert groups[..m] == groups;
      assert ops[..|ops|] == ops;
    } else {
      FlattenSplit(groups, m);
      var n := |ops| - 1;
      assert ops != [];
      var before := Components(ops[..n]);
      assert groups == Join(before, ops[n]);
      assert groups[..m] == before[..m];
      ComponentsPrefix(ops[..n], m);
    }
  }
}
