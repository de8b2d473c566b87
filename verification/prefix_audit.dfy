/** The version-2 prefix audit: a frozen admission inventory, one global barrier, and the
    complete zero-balance prefix of every epoch, projected into the version-1 audit. */
module PrefixAudit {
  import opened Options
  import opened SemaphoreJournal
  import V1 = CreditAudit

  const MAX_LOSS_RANGES := 4096

  /** An admitted operation: a clock the observer could not take is unknown, and a pending
      operation has neither an exit clock nor an outcome. */
  datatype Row = Row(id: nat, epoch: nat, entry: Option<nat>, exit: Option<nat>, completed: bool, payload: Payload)

  datatype LossKind = Overflow | CoverageGap | UnsupportedAccess
  datatype Loss = Loss(first: nat, last: nat, bound: Option<nat>, kind: LossKind)

  datatype Counts = Counts(observed: nat, stored: nat, completed: nat, pending: nat, lost: nat)

  datatype Journal = Journal(begin: nat, freeze: nat, frequency: nat, capacity: nat,
                             inventoryComplete: bool, observerFailed: bool, coverageGap: bool,
                             counts: Counts, epochs: seq<Epoch>, operations: seq<Row>, losses: seq<Loss>)

  datatype Contradiction = PreviousCountContradicts | WaitWithoutPrefixCredit | TimeoutWithPrefixCredit
  datatype Restriction = OverlapOutsideModel | BatchOrCompetingCredits

  datatype Issue =
    | AdmissionInventoryIncomplete | ObserverFailed | UnboundedCoverageGap
    | CreationNotAfterObserverStart | FreshCoverageRequired | InitialCredits
    | CookieReuse | UnknownOperationClock | LossWithoutBound
    | InEpoch(epoch: nat, contradiction: Contradiction)

  // ----------------------------------------------------------------- shape of a journal

  predicate ClockShape(clock: Option<nat>) { clock.Some? ==> 1 <= clock.value <= MAX_QPC }

  predicate PendingShape(payload: Payload) {
    match payload
    case Release(count, success, previous, context) =>
      && 1 <= count <= MAX_COUNT && success.None? && previous.None?
      && (context.Update? ==> 1 <= context.threadEpoch <= U64 && 1 <= context.serial <= U64)
    case Wait(result) => result.None?
    case Other(kind) => kind != "release" && kind != "wait"
  }

  predicate RowShape(row: Row, e: Epoch) {
    && 1 <= row.id <= U64 && ClockShape(row.entry) && ClockShape(row.exit)
    && (if row.completed then PayloadShape(row.payload, e.maximum)
        else row.exit.None? && PendingShape(row.payload))
    && (row.completed && row.entry.Some? && row.exit.Some? ==> row.entry.value <= row.exit.value)
    && (row.completed && row.payload.Release? && row.payload.success == Some(true) ==>
          row.payload.previous.value + row.payload.count <= e.maximum)
  }

  /** Admission and completion stay inside the observed window and the object's lifetime. */
  predicate RowWindow(j: Journal, row: Row, e: Epoch) {
    && (row.entry.Some? ==>
          j.begin <= row.entry.value <= j.freeze && row.entry.value > e.creation &&
          (e.destroy.Some? ==> row.entry.value < e.destroy.value))
    && (row.exit.Some? ==>
          row.exit.value <= j.freeze && (e.destroy.Some? ==> row.exit.value < e.destroy.value))
    && (!row.completed ==> e.destroy.None?)
  }

  predicate RowValid(j: Journal, row: Row) {
    var e := Lookup(j.epochs, row.epoch);
    e.Some? && RowShape(row, e.value) && RowWindow(j, row, e.value)
  }

  predicate EpochValid(j: Journal, e: Epoch) {
    EpochShape(e) && e.creation < j.freeze && (e.destroy.Some? ==> e.creation < e.destroy.value <= j.freeze)
  }

  predicate LossValid(j: Journal, loss: Loss) {
    1 <= loss.first <= loss.last <= U64 && (loss.bound.Some? ==> 1 <= loss.bound.value && j.begin <= loss.bound.value <= j.freeze)
  }

  function PendingCount(rows: seq<Row>): nat {
    if rows == [] then 0
    else PendingCount(rows[..|rows|-1]) + if rows[|rows|-1].completed then 0 else 1
  }

  function LostCount(losses: seq<Loss>): nat {
    if losses == [] then 0
    else
      var loss := losses[|losses|-1];
      LostCount(losses[..|losses|-1]) + if loss.last >= loss.first then loss.last - loss.first + 1 else 0
  }

  predicate CountsExact(j: Journal) {
    && j.counts.stored == |j.operations|
    && j.counts.pending == PendingCount(j.operations)
    && j.counts.completed + j.counts.pending == |j.operations|
    && j.counts.lost == LostCount(j.losses) <= U64
    && j.counts.observed == |j.operations| + j.counts.lost
  }

  /** Everything demanded of the frozen metadata except the ID/loss partition. */
  predicate WellShaped(j: Journal) {
    && 1 <= j.begin < j.freeze <= MAX_QPC && 1 <= j.frequency <= MAX_QPC
    && (j.capacity == 4096 || j.capacity == 32768)
    && 0 < |j.epochs| <= V1.MAX_EPOCHS && |j.operations| <= j.capacity && |j.losses| <= MAX_LOSS_RANGES
    && (forall e :: e in j.epochs ==> EpochValid(j, e))
    && (forall i, k :: 0 <= i < k < |j.epochs| ==> j.epochs[i].id != j.epochs[k].id)
    && (forall row :: row in j.operations ==> RowValid(j, row))
    && (forall i, k :: 0 <= i < k < |j.operations| ==> j.operations[i].id != j.operations[k].id)
    && (forall loss :: loss in j.losses ==> LossValid(j, loss))
    && CountsExact(j)
  }

  // ------------------------------------------------------------ admission inventory sweep

  /** An operation occupies its own ID; a loss occupies a range. */
  datatype Interval = Interval(first: nat, last: nat, clock: Option<nat>)

  function RowIntervals(rows: seq<Row>): seq<Interval> {
    if rows == [] then []
    else RowIntervals(rows[..|rows|-1]) + [Interval(rows[|rows|-1].id, rows[|rows|-1].id, rows[|rows|-1].entry)]
  }

  function LossIntervals(losses: seq<Loss>): seq<Interval> {
    if losses == [] then []
    else
      var loss := losses[|losses|-1];
      LossIntervals(losses[..|losses|-1]) + [Interval(loss.first, loss.last, loss.bound)]
  }

  function Inventory(j: Journal): seq<Interval> { RowIntervals(j.operations) + LossIntervals(j.losses) }

  predicate Precedes(a: Interval, b: Interval) {
    a.first < b.first || (a.first == b.first && a.last <= b.last)
  }

  function InsertInterval(x: Interval, s: seq<Interval>): (r: seq<Interval>)
    ensures multiset(r) == multiset(s) + multiset{x}
  {
    if s == [] || Precedes(x, s[0]) then [x] + s
    else
      assert s == [s[0]] + s[1..];
      [s[0]] + InsertInterval(x, s[1..])
  }

  function SortIntervals(s: seq<Interval>): (r: seq<Interval>)
    ensures multiset(r) == multiset(s)
  {
    if s == [] then []
    else
      assert s == [s[0]] + s[1..];
      InsertInterval(s[0], SortIntervals(s[1..]))
  }

  datatype Sweep = Sweep(ok: bool, next: nat, clock: Option<nat>)

  function SweepStep(s: Sweep, x: Interval): Sweep {
    Sweep(s.ok && x.first == s.next && (x.clock.Some? && s.clock.Some? ==> x.clock.value >= s.clock.value),
          x.last + 1,
          if x.clock.Some? then x.clock else s.clock)
  }

  function SweepRun(sorted: seq<Interval>): Sweep {
    if sorted == [] then Sweep(true, 1, None)
    else SweepStep(SweepRun(sorted[..|sorted|-1]), sorted[|sorted|-1])
  }

  predicate InventoryExact(j: Journal) {
    var s := SweepRun(SortIntervals(Inventory(j)));
    s.ok && s.next - 1 == j.counts.observed
  }

  lemma {:induction false} SweepFailsOnce(sorted: seq<Interval>, i: nat)
    requires i <= |sorted| && !SweepRun(sorted[..i]).ok
    ensures !SweepRun(sorted).ok
  {
    if i < |sorted| {
      assert sorted[..|sorted|-1][..i] == sorted[..i];
      SweepFailsOnce(sorted[..|sorted|-1], i);
    } else {
      assert sorted[..i] == sorted;
    }
  }

  /** The partition loop over sorted intervals: it stops at the first gap, overlap or clock
      regression. */
  method SweepIntervals(sorted: seq<Interval>, observed: nat) returns (ok: bool)
    ensures ok <==> SweepRun(sorted).ok && SweepRun(sorted).next - 1 == observed
  {
    var nextId: nat, lastClock: Option<nat> := 1, None;
    for i := 0 to |sorted|
      invariant SweepRun(sorted[..i]) == Sweep(true, nextId, lastClock)
    {
      var x := sorted[i];
      assert sorted[..i+1][..i] == sorted[..i];
      assert SweepRun(sorted[..i+1]) == SweepStep(SweepRun(sorted[..i]), x);
      if x.first != nextId || (x.clock.Some? && lastClock.Some? && x.clock.value < lastClock.value) {
        SweepFailsOnce(sorted, i + 1);
        return false;
      }
      nextId := x.last + 1;
      if x.clock.Some? { lastClock := x.clock; }
    }
    assert sorted[..|sorted|] == sorted;
    ok := nextId - 1 == observed;
  }

  // --------------------------------------------------------------- issues of the metadata

  function When(condition: bool, issue: Issue): set<Issue> {
    if condition then {issue} else {}
  }

  function LifetimeIssues(j: Journal, e: Epoch): set<Issue> {
    When(e.creation <= j.begin, CreationNotAfterObserverStart) +
    When(e.origin != Fresh || !e.historyComplete, FreshCoverageRequired) +
    When(e.initial != 0, InitialCredits)
  }

  function AllLifetimeIssues(j: Journal, epochs: seq<Epoch>): set<Issue> {
    if epochs == [] then {}
    else AllLifetimeIssues(j, epochs[..|epochs|-1]) + LifetimeIssues(j, epochs[|epochs|-1])
  }

  predicate ClockUnknown(row: Row) { row.entry.None? || (row.completed && row.exit.None?) }

  predicate EpochPrecedes(a: Epoch, b: Epoch) {
    a.cookie < b.cookie || (a.cookie == b.cookie && a.creation <= b.creation)
  }

  function InsertEpoch(e: Epoch, s: seq<Epoch>): (r: seq<Epoch>)
    ensures multiset(r) == multiset(s) + multiset{e}
  {
    if s == [] || EpochPrecedes(e, s[0]) then [e] + s
    else
      assert s == [s[0]] + s[1..];
      [s[0]] + InsertEpoch(e, s[1..])
  }

  function SortEpochs(s: seq<Epoch>): (r: seq<Epoch>)
    ensures multiset(r) == multiset(s)
  {
    if s == [] then []
    else
      assert s == [s[0]] + s[1..];
      InsertEpoch(s[0], SortEpochs(s[1..]))
  }

  /** Only neighbours in (cookie, creation) order are compared. */
  predicate AdjacentReuse(sorted: seq<Epoch>) {
    exists i :: 0 <= i < |sorted| - 1 && sorted[i].cookie == sorted[i+1].cookie &&
      (sorted[i].destroy.None? || sorted[i].destroy.value >= sorted[i+1].creation)
  }

  function MetadataIssues(j: Journal): set<Issue> {
    When(!j.inventoryComplete, AdmissionInventoryIncomplete) +
    When(j.observerFailed, ObserverFailed) +
    When(j.coverageGap, UnboundedCoverageGap) +
    AllLifetimeIssues(j, j.epochs) +
    When(AdjacentReuse(SortEpochs(j.epochs)), CookieReuse) +
    When(exists row :: row in j.operations && ClockUnknown(row), UnknownOperationClock) +
    When(exists loss :: loss in j.losses && loss.bound.None?, LossWithoutBound)
  }

  // ------------------------------------------------------------------------ the barrier

  predicate Unsupported(row: Row) {
    match row.payload
    case Release(_, _, _, _) => false
    case Wait(result) =>
      row.completed && result !in {Some(WaitSuccess), Some(WaitTimeout), Some(WaitApc), Some(WaitAlerted)}
    case Other(_) => true
  }

  function Lower(barrier: nat, clock: Option<nat>): nat {
    if clock.Some? && clock.value < barrier then clock.value else barrier
  }

  function RowBarrier(rows: seq<Row>, start: nat): nat {
    if rows == [] then start
    else
      var row, rest := rows[|rows|-1], RowBarrier(rows[..|rows|-1], start);
      if !row.completed || Unsupported(row) then Lower(rest, row.entry) else rest
  }

  function LossBarrier(losses: seq<Loss>, start: nat): nat {
    if losses == [] then start
    else Lower(LossBarrier(losses[..|losses|-1], start), losses[|losses|-1].bound)
  }

  /** Nothing at or after the first pending, unsupported or lost admission is interpreted. */
  function Barrier(j: Journal): nat { LossBarrier(j.losses, RowBarrier(j.operations, j.freeze)) }

  method ComputeBarrier(j: Journal) returns (barrier: nat)
    ensures barrier == Barrier(j)
  {
    barrier := j.freeze;
    for i := 0 to |j.operations|
      invariant barrier == RowBarrier(j.operations[..i], j.freeze)
    {
      assert j.operations[..i+1][..i] == j.operations[..i];
      var row := j.operations[i];
      if !row.completed { barrier := Lower(barrier, row.entry); }
      if Unsupported(row) { barrier := Lower(barrier, row.entry); }
    }
    assert j.operations[..|j.operations|] == j.operations;
    for i := 0 to |j.losses|
      invariant barrier == LossBarrier(j.losses[..i], RowBarrier(j.operations, j.freeze))
    {
      assert j.losses[..i+1][..i] == j.losses[..i];
      barrier := Lower(barrier, j.losses[i].bound);
    }
    assert j.losses[..|j.losses|] == j.losses;
  }

  // ------------------------------------------------------------------- the prefix of an epoch

  function Known(clock: Option<nat>): nat { if clock.Some? then clock.value else 0 }

  /** The bracket a row is grouped by; a pending operation may still end arbitrarily late.
      Only used when every admission clock is known. */
  function Span(row: Row): Op {
    Op(row.id, row.epoch, Known(row.entry), if row.completed then Known(row.exit) else MAX_QPC, row.payload)
  }

  function Spans(rows: seq<Row>): seq<Op> {
    if rows == [] then [] else Spans(rows[..|rows|-1]) + [Span(rows[|rows|-1])]
  }

  function EpochSpans(j: Journal, e: Epoch): seq<Op> { Sort(Select(Spans(j.operations), e.id)) }

  function Groups(j: Journal, e: Epoch): seq<seq<Op>> { Components(EpochSpans(j, e)) }

  function FirstEntry(group: seq<Op>): nat {
    if group == [] then 0
    else if |group| == 1 then group[0].entry
    else
      var rest := FirstEntry(group[..|group|-1]);
      if group[|group|-1].entry < rest then group[|group|-1].entry else rest
  }

  datatype StepOut = StepOut(balance: nat, restriction: Option<Restriction>, contradiction: Option<Contradiction>)

  /** The prefix audit's own component rule, written separately from the version-1 ledger. */
  function Step(group: seq<Op>, balance: nat): StepOut {
    if |group| != 1 then
      if V1.IsolatedPair(group, balance) then StepOut(0, None, None)
      else StepOut(balance, Some(OverlapOutsideModel), None)
    else
      match group[0].payload
      case Release(count, success, previous, _) =>
        if success != Some(true) then StepOut(balance, None, None)
        else if previous != Some(balance) then StepOut(balance, None, Some(PreviousCountContradicts))
        else if balance + count > 1 then StepOut(balance, Some(BatchOrCompetingCredits), None)
        else StepOut(balance + count, None, None)
      case Wait(result) =>
        if result == Some(WaitSuccess) then
          if balance == 0 then StepOut(balance, None, Some(WaitWithoutPrefixCredit))
          else StepOut(balance - 1, None, None)
        else if result == Some(WaitTimeout) && balance != 0 then
          StepOut(balance, None, Some(TimeoutWithPrefixCredit))
        else StepOut(balance, None, None)
      case Other(_) => StepOut(balance, None, None)
  }

  predicate Crosses(group: seq<Op>, barrier: nat) {
    FirstEntry(group) >= barrier || exists op :: op in group && op.exit >= barrier
  }

  datatype Reason = FrozenBarrier | TouchesBarrier | Restricted(r: Restriction) | Contradicted(c: Contradiction) | RolledBack
  datatype Stop = Stop(reason: Reason, qpc: nat)

  /** `taken` components accepted, the first `zero` of them ending with no credit outstanding. */
  datatype Scan = Scan(taken: nat, zero: nat, balance: nat, stop: Option<Stop>)

  function ScanStep(barrier: nat, s: Scan, group: seq<Op>): Scan {
    if s.stop.Some? then s
    else if Crosses(group, barrier) then
      s.(stop := Some(Stop(TouchesBarrier, if FirstEntry(group) < barrier then FirstEntry(group) else barrier)))
    else
      var out := Step(group, s.balance);
      if out.contradiction.Some? then s.(stop := Some(Stop(Contradicted(out.contradiction.value), FirstEntry(group))))
      else if out.restriction.Some? then s.(stop := Some(Stop(Restricted(out.restriction.value), FirstEntry(group))))
      else Scan(s.taken + 1, if out.balance == 0 then s.taken + 1 else s.zero, out.balance, None)
  }

  function ScanRun(barrier: nat, groups: seq<seq<Op>>): (s: Scan)
    ensures s.zero <= s.taken <= |groups|
    ensures s.stop.None? ==> s.taken == |groups|
    ensures s.stop.Some? ==> s.taken < |groups|
  {
    if groups == [] then Scan(0, 0, 0, None)
    else ScanStep(barrier, ScanRun(barrier, groups[..|groups|-1]), groups[|groups|-1])
  }

  /** The exclusive end of the retained prefix. */
  function StopOf(barrier: nat, groups: seq<seq<Op>>): Stop {
    var s := ScanRun(barrier, groups);
    var stop := if s.stop.Some? then s.stop.value else Stop(FrozenBarrier, barrier);
    if s.zero == s.taken then stop
    else
      var tail := FirstEntry(Flatten(groups[s.zero..s.taken]));
      Stop(RolledBack, if tail < stop.qpc then tail else stop.qpc)
  }

  /** The complete zero-balance prefix of an epoch. */
  function Prefix(j: Journal, e: Epoch): seq<Op> {
    Flatten(Groups(j, e)[..ScanRun(Barrier(j), Groups(j, e)).zero])
  }

  function PrefixEnd(j: Journal, e: Epoch): Stop { StopOf(Barrier(j), Groups(j, e)) }

  /** A complete prefix as a version-1 journal; a later destruction has not happened yet. */
  function Projection(j: Journal, e: Epoch, rows: seq<Op>, end: nat): V1.Journal {
    V1.Journal(j.begin, end, j.frequency, j.capacity, true, false,
               V1.Counts(|rows|, |rows|, |rows|, 0),
               [if e.destroy.Some? && e.destroy.value >= end then e.(destroy := None) else e],
               rows)
  }
}
