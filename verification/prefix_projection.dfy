/** Why the projected prefix of a frozen journal always satisfies the version-1 audit. */
module PrefixProjection {
  import opened Options
  import opened SemaphoreJournal
  import opened Linearization
  import opened PrefixAudit
  import V1 = CreditAudit
  import S = CreditSoundness

  /** The frozen metadata validated and raised no issue. */
  ghost predicate Healthy(j: Journal) {
    WellShaped(j) && MetadataIssues(j) == {}
  }

  // --------------------------------------------------------------- rows and their spans

  lemma {:induction false} SpansFrom(rows: seq<Row>)
    ensures |Spans(rows)| == |rows|
    ensures forall i :: 0 <= i < |rows| ==> Spans(rows)[i] == Span(rows[i])
  {
    if rows != [] { SpansFrom(rows[..|rows|-1]); }
  }

  lemma {:induction false} SpansUnique(j: Journal)
    requires WellShaped(j)
    ensures Unique(Spans(j.operations))
  {
    SpansFrom(j.operations);
  }

  lemma {:induction false} ClocksKnown(j: Journal, row: Row)
    requires Healthy(j) && row in j.operations
    ensures row.entry.Some? && (row.completed ==> row.exit.Some?)
  {
    UnknownClockIsAnIssue(j, row);
  }

  lemma {:induction false} UnknownClockIsAnIssue(j: Journal, row: Row)
    requires row in j.operations
    ensures ClockUnknown(row) ==> UnknownOperationClock in MetadataIssues(j)
  {
  }

  /** Every span of an epoch is the bracket of a valid row of that epoch. */
  lemma {:induction false} RowOf(j: Journal, e: Epoch, op: Op) returns (row: Row)
    requires Healthy(j) && e in j.epochs && op in EpochSpans(j, e)
    ensures row in j.operations && Span(row) == op && row.epoch == e.id
    ensures row.entry.Some? && (row.completed ==> row.exit.Some?)
    ensures RowShape(row, e) && RowWindow(j, row, e)
  {
    SpansUnique(j);
    SelectMembers(Spans(j.operations), e.id);
    SortSorted(Select(Spans(j.operations), e.id));
    SpansFrom(j.operations);
    var i :| 0 <= i < |j.operations| && Spans(j.operations)[i] == op;
    row := j.operations[i];
    ClocksKnown(j, row);
    LookupUnique(j.epochs, e);
    assert RowValid(j, row);
  }

  lemma {:induction false} SpansOrdered(j: Journal, e: Epoch)
    requires Healthy(j) && e in j.epochs
    ensures Sorted(EpochSpans(j, e)) && Unique(EpochSpans(j, e)) && WellBracketed(EpochSpans(j, e))
    ensures forall op :: op in EpochSpans(j, e) <==> op in Spans(j.operations) && op.epoch == e.id
  {
    SpansUnique(j);
    SelectMembers(Spans(j.operations), e.id);
    SortSorted(Select(Spans(j.operations), e.id));
    S.UniqueOrder(Select(Spans(j.operations), e.id), EpochSpans(j, e));
    forall i | 0 <= i < |EpochSpans(j, e)| ensures EpochSpans(j, e)[i].entry <= EpochSpans(j, e)[i].exit {
      var row := RowOf(j, e, EpochSpans(j, e)[i]);
    }
  }

  lemma {:induction false} GroupsTidy(j: Journal, e: Epoch)
    requires Healthy(j) && e in j.epochs
    ensures S.Tidy(Groups(j, e)) && Chained(Groups(j, e)) && Flatten(Groups(j, e)) == EpochSpans(j, e)
  {
    var groups: seq<seq<Op>> := Groups(j, e);
    SpansOrdered(j, e);
    ComponentsPartition(EpochSpans(j, e));
    ComponentsSeparated(EpochSpans(j, e));
    ComponentsChained(EpochSpans(j, e));
    forall i | 0 <= i < |groups| ensures groups[i] != [] {
      assert groups[i] in groups;
    }
  }

  // -------------------------------------------------------------------------- barrier

  lemma {:induction false} RowBarrierBounds(rows: seq<Row>, start: nat)
    ensures RowBarrier(rows, start) <= start
    ensures forall row :: row in rows && (!row.completed || Unsupported(row)) && row.entry.Some? ==>
              RowBarrier(rows, start) <= row.entry.value
    ensures RowBarrier(rows, start) == start ||
            exists row :: row in rows && (!row.completed || Unsupported(row)) && row.entry == Some(RowBarrier(rows, start))
  {
    if rows != [] {
      var front, last := rows[..|rows|-1], rows[|rows|-1];
      assert rows == front + [last];
      RowBarrierBounds(front, start);
      var rest := RowBarrier(front, start);
      if rest != start {
        var row :| row in front && (!row.completed || Unsupported(row)) && row.entry == Some(rest);
        assert row in rows;
      }
      assert last in rows;
      if RowBarrier(rows, start) != rest {
        assert last.entry == Some(RowBarrier(rows, start));
      }
    }
  }

  lemma {:induction false} LossBarrierBounds(losses: seq<Loss>, start: nat)
    ensures LossBarrier(losses, start) <= start
    ensures forall loss :: loss in losses && loss.bound.Some? ==> LossBarrier(losses, start) <= loss.bound.value
    ensures LossBarrier(losses, start) == start ||
            exists loss :: loss in losses && loss.bound == Some(LossBarrier(losses, start))
  {
    if losses != [] {
      var front, last := losses[..|losses|-1], losses[|losses|-1];
      assert losses == front + [last];
      LossBarrierBounds(front, start);
      var rest := LossBarrier(front, start);
      if rest != start {
        var loss :| loss in front && loss.bound == Some(rest);
        assert loss in losses;
      }
      assert last in losses;
      if LossBarrier(losses, start) != rest {
        assert last.bound == Some(LossBarrier(losses, start));
      }
    }
  }

  /** The barrier is at or before the freeze and every pending, unsupported or lost admission. */
  lemma {:induction false} BarrierBounds(j: Journal)
    ensures Barrier(j) <= j.freeze
    ensures forall row :: row in j.operations && (!row.completed || Unsupported(row)) && row.entry.Some? ==>
              Barrier(j) <= row.entry.value
    ensures forall loss :: loss in j.losses && loss.bound.Some? ==> Barrier(j) <= loss.bound.value
  {
    RowBarrierBounds(j.operations, j.freeze);
    LossBarrierBounds(j.losses, RowBarrier(j.operations, j.freeze));
  }

  // ------------------------------------------------------- the two component rules agree

  /** What the shape rules and the barrier leave in a component that does not cross it. */
  predicate Plain(op: Op, maximum: nat) {
    match op.payload
    case Release(count, success, previous, _) =>
      count >= 1 && success.Some? && (success.value ==> previous.Some? && previous.value + count <= maximum)
    case Wait(result) => result in {Some(WaitSuccess), Some(WaitTimeout), Some(WaitApc), Some(WaitAlerted)}
    case Other(_) => false
  }

  lemma {:induction false} SingleAgrees(e: Epoch, s: V1.Ledger, op: Op)
    requires s.issues == {} && Plain(op, e.maximum)
    requires Step([op], s.balance).restriction.None? && Step([op], s.balance).contradiction.None?
    ensures V1.LedgerSingle(e, s, op).issues == {}
    ensures V1.LedgerSingle(e, s, op).balance == Step([op], s.balance).balance
    ensures V1.LedgerSingle(e, s, op).halted == s.halted
  {
  }

  lemma {:induction false} StepAgrees(e: Epoch, s: V1.Ledger, group: seq<Op>)
    requires !s.halted && s.issues == {}
    requires forall op :: op in group ==> Plain(op, e.maximum)
    requires Step(group, s.balance).restriction.None? && Step(group, s.balance).contradiction.None?
    ensures !V1.LedgerStep(e, s, group).halted && V1.LedgerStep(e, s, group).issues == {}
    ensures V1.LedgerStep(e, s, group).balance == Step(group, s.balance).balance
  {
    if |group| == 1 {
      assert group == [group[0]] && group[0] in group;
      SingleAgrees(e, s, group[0]);
    }
  }

  ghost predicate NonEmpty(groups: seq<seq<Op>>) {
    forall i :: 0 <= i < |groups| ==> groups[i] != []
  }

  /** Everything ahead of the barrier is interpretable. */
  ghost predicate PlainBefore(groups: seq<seq<Op>>, barrier: nat, maximum: nat)
  {
    forall i, op :: 0 <= i < |groups| && !Crosses(groups[i], barrier) && op in groups[i] ==> Plain(op, maximum)
  }

  lemma {:induction false} TakenFront(barrier: nat, groups: seq<seq<Op>>)
    requires groups != []
    ensures var s, front := ScanRun(barrier, groups), groups[..|groups|-1];
            var before := ScanRun(barrier, front);
            (s.taken == before.taken && s.zero == before.zero &&
             groups[..s.taken] == front[..before.taken] && groups[..s.zero] == front[..before.zero]) ||
            (s.taken == |groups| && s.stop.None? && before.stop.None? && before.taken == |front| &&
             front[..before.taken] == front && groups[..s.taken] == groups &&
             !Crosses(groups[|groups|-1], barrier) &&
             Step(groups[|groups|-1], before.balance).restriction.None? &&
             Step(groups[|groups|-1], before.balance).contradiction.None? &&
             s.balance == Step(groups[|groups|-1], before.balance).balance &&
             (s.zero == |groups| <==> s.balance == 0) &&
             (s.zero != |groups| ==> s.zero == before.zero && groups[..s.zero] == front[..before.zero]))
  {
  }

  lemma {:induction false} PlainFront(groups: seq<seq<Op>>, barrier: nat, maximum: nat)
    requires groups != [] && PlainBefore(groups, barrier, maximum)
    ensures PlainBefore(groups[..|groups|-1], barrier, maximum)
    ensures !Crosses(groups[|groups|-1], barrier) ==> forall op :: op in groups[|groups|-1] ==> Plain(op, maximum)
  {
    hide Crosses, Plain;
    var front := groups[..|groups|-1];
    forall i, op | 0 <= i < |front| && !Crosses(front[i], barrier) && op in front[i] ensures Plain(op, maximum) {
      assert front[i] == groups[i];
    }
  }

  lemma {:induction false} PlainSupported(op: Op, maximum: nat)
    requires Plain(op, maximum)
    ensures S.Supported(op)
  {
  }

  lemma {:induction false} LedgerSnoc(e: Epoch, groups: seq<seq<Op>>)
    requires groups != []
    ensures V1.LedgerRun(e, groups) == V1.LedgerStep(e, V1.LedgerRun(e, groups[..|groups|-1]), groups[|groups|-1])
  {
  }

  lemma {:induction false} CleanParts(e: Epoch, groups: seq<seq<Op>>)
    requires groups != [] && S.Clean(e, groups[..|groups|-1])
    ensures !V1.LedgerRun(e, groups[..|groups|-1]).halted && V1.LedgerRun(e, groups[..|groups|-1]).issues == {}
    ensures (!V1.LedgerRun(e, groups).halted && V1.LedgerRun(e, groups).issues == {} &&
             (forall op :: op in groups[|groups|-1] ==> S.Supported(op))) ==> S.Clean(e, groups)
  {
    hide V1.LedgerRun, S.Supported;
    var front := groups[..|groups|-1];
    forall i, op | 0 <= i < |front| && op in groups[i] ensures S.Supported(op) {
      assert groups[i] == front[i];
    }
  }

  lemma {:induction false} CleanNext(e: Epoch, groups: seq<seq<Op>>)
    requires groups != [] && S.Clean(e, groups[..|groups|-1])
    requires forall op :: op in groups[|groups|-1] ==> Plain(op, e.maximum)
    requires var out := Step(groups[|groups|-1], V1.LedgerRun(e, groups[..|groups|-1]).balance);
             out.restriction.None? && out.contradiction.None?
    ensures S.Clean(e, groups)
    ensures V1.LedgerRun(e, groups).balance == Step(groups[|groups|-1], V1.LedgerRun(e, groups[..|groups|-1]).balance).balance
  {
    hide *;
    CleanParts(e, groups);
    LedgerSnoc(e, groups);
    StepAgrees(e, V1.LedgerRun(e, groups[..|groups|-1]), groups[|groups|-1]);
    forall op | op in groups[|groups|-1] ensures S.Supported(op) { PlainSupported(op, e.maximum); }
  }

  /** The accepted components run cleanly through the version-1 ledger with the same balances,
      and the retained ones end with no credit outstanding. */
  ghost predicate Agreement(e: Epoch, barrier: nat, groups: seq<seq<Op>>) {
    var s := ScanRun(barrier, groups);
    && S.Clean(e, groups[..s.taken]) && V1.LedgerRun(e, groups[..s.taken]).balance == s.balance
    && S.Clean(e, groups[..s.zero]) && V1.LedgerRun(e, groups[..s.zero]).balance == 0
    && forall i :: 0 <= i < s.taken ==> !Crosses(groups[i], barrier)
  }

  /** What the agreement says of the scan after one more component was accepted. */
  lemma {:induction false} AgreementTaken(e: Epoch, barrier: nat, groups: seq<seq<Op>>)
    requires groups != [] && Agreement(e, barrier, groups[..|groups|-1])
    requires PlainBefore(groups, barrier, e.maximum)
    requires ScanRun(barrier, groups).taken == |groups|
    ensures S.Clean(e, groups) && V1.LedgerRun(e, groups).balance == ScanRun(barrier, groups).balance
    ensures !Crosses(groups[|groups|-1], barrier)
  {
    TakenFront(barrier, groups);
    PlainFront(groups, barrier, e.maximum);
    hide PlainBefore, Plain, Crosses, Step, S.Clean, V1.LedgerRun, ScanRun;
    CleanNext(e, groups);
  }

  lemma {:induction false} AgreementNext(e: Epoch, barrier: nat, groups: seq<seq<Op>>)
    requires groups != [] && Agreement(e, barrier, groups[..|groups|-1])
    requires PlainBefore(groups, barrier, e.maximum)
    ensures Agreement(e, barrier, groups)
  {
    TakenFront(barrier, groups);
    ScanBalance(barrier, groups);
    hide PlainBefore, Crosses, Step, S.Clean, V1.LedgerRun, ScanRun;
    var front := groups[..|groups|-1];
    assert forall i :: 0 <= i < |front| ==> front[i] == groups[i];
    if ScanRun(barrier, groups).taken == |groups| {
      AgreementTaken(e, barrier, groups);
      assert groups[..|groups|] == groups;
    }
  }

  lemma {:induction false} ScanBalance(barrier: nat, groups: seq<seq<Op>>)
    requires groups != []
    ensures var s, before := ScanRun(barrier, groups), ScanRun(barrier, groups[..|groups|-1]);
            s.taken == before.taken ==> s.balance == before.balance && s.zero == before.zero
  {
  }

  lemma {:induction false} ScanAgrees(e: Epoch, barrier: nat, groups: seq<seq<Op>>)
    requires e.initial == 0 && 1 <= e.maximum
    requires PlainBefore(groups, barrier, e.maximum)
    ensures Agreement(e, barrier, groups)
  {
    if groups != [] {
      PlainFront(groups, barrier, e.maximum);
      hide *;
      ScanAgrees(e, barrier, groups[..|groups|-1]);
      AgreementNext(e, barrier, groups);
    }
  }

  // ---------------------------------------------------------------- the strict boundary

  lemma {:induction false} FirstEntryBounds(group: seq<Op>)
    requires group != []
    ensures forall op :: op in group ==> FirstEntry(group) <= op.entry
    ensures exists op :: op in group && op.entry == FirstEntry(group)
  {
    if |group| == 1 {
      assert group[0] in group;
    } else {
      var front, last := group[..|group|-1], group[|group|-1];
      assert group == front + [last];
      FirstEntryBounds(front);
      var op :| op in front && op.entry == FirstEntry(front);
      assert op in group && last in group;
    }
  }

  /** The scan stops at the first refused component's start, or at the barrier inside it. */
  lemma {:induction false} ScanStopsAt(barrier: nat, groups: seq<seq<Op>>)
    ensures var s := ScanRun(barrier, groups);
            s.stop.Some? ==>
              s.stop.value.qpc <= barrier && s.stop.value.qpc <= FirstEntry(groups[s.taken]) &&
              (s.stop.value.qpc == barrier || s.stop.value.qpc == FirstEntry(groups[s.taken]))
  {
    if groups != [] {
      var front := groups[..|groups|-1];
      ScanStopsAt(barrier, front);
      var before := ScanRun(barrier, front);
      if before.stop.Some? { assert front[before.taken] == groups[before.taken]; }
    }
  }

  ghost predicate InOrder(groups: seq<seq<Op>>) {
    && NonEmpty(groups) && Separated(groups)
    && forall i, op :: 0 <= i < |groups| && op in groups[i] ==> op.entry <= op.exit
  }

  /** Every operation of the first k components ends before q, every later one starts at or after it. */
  ghost predicate Splits(groups: seq<seq<Op>>, k: nat, q: nat) {
    && (forall i, op :: 0 <= i < k <= |groups| && op in groups[i] ==> op.exit < q)
    && (forall i, op :: k <= i < |groups| && op in groups[i] ==> q <= op.entry)
  }

  /** A component's start separates it from the ones before. */
  lemma {:induction false} StartSplits(groups: seq<seq<Op>>, k: nat)
    requires InOrder(groups) && k < |groups|
    ensures Splits(groups, k, FirstEntry(groups[k]))
  {
    FirstEntryBounds(groups[k]);
    var first: Op :| first in groups[k] && first.entry == FirstEntry(groups[k]);
    forall i, op: Op | k <= i < |groups| && op in groups[i] ensures first.entry <= op.entry {
      if i > k { assert first.exit < op.entry; }
    }
  }

  lemma {:induction false} TailStart(groups: seq<seq<Op>>, zero: nat, taken: nat)
    requires InOrder(groups) && zero < taken <= |groups|
    ensures FirstEntry(Flatten(groups[zero..taken])) == FirstEntry(groups[zero])
  {
    var tail := groups[zero..taken];
    var ops := Flatten(tail);
    assert forall i :: 0 <= i < |tail| ==> tail[i] == groups[zero + i];
    FirstEntryBounds(groups[zero]);
    var first: Op :| first in tail[0] && first.entry == FirstEntry(groups[zero]);
    FlattenMember(tail, 0, first);
    FirstEntryBounds(ops);
    var least :| least in ops && least.entry == FirstEntry(ops);
    var k := S.GroupOf(tail, least);
    StartSplits(groups, zero);
    assert least in groups[zero + k];
  }

  /** Between the last accepted component and the first refused one. */
  lemma {:induction false} BaseSplits(barrier: nat, groups: seq<seq<Op>>, base: nat)
    requires InOrder(groups)
    requires forall i :: 0 <= i < ScanRun(barrier, groups).taken ==> !Crosses(groups[i], barrier)
    requires var s := ScanRun(barrier, groups); base == if s.stop.Some? then s.stop.value.qpc else barrier
    ensures base <= barrier && Splits(groups, ScanRun(barrier, groups).taken, base)
  {
    var s := ScanRun(barrier, groups);
    ScanStopsAt(barrier, groups);
    forall i, op: Op | 0 <= i < s.taken && op in groups[i] ensures op.exit < barrier {
      assert !Crosses(groups[i], barrier);
    }
    if s.stop.Some? { StartSplits(groups, s.taken); }
  }

  /** The exclusive end lies strictly after the retained prefix and at or before everything else. */
  lemma {:induction false} StopSplits(barrier: nat, groups: seq<seq<Op>>)
    requires InOrder(groups)
    requires forall i :: 0 <= i < ScanRun(barrier, groups).taken ==> !Crosses(groups[i], barrier)
    ensures StopOf(barrier, groups).qpc <= barrier
    ensures Splits(groups, ScanRun(barrier, groups).zero, StopOf(barrier, groups).qpc)
  {
    var s := ScanRun(barrier, groups);
    var base := if s.stop.Some? then s.stop.value.qpc else barrier;
    BaseSplits(barrier, groups, base);
    if s.zero < s.taken {
      TailStart(groups, s.zero, s.taken);
      StartSplits(groups, s.zero);
      StopMin(groups, s.zero, s.taken, FirstEntry(groups[s.zero]), base);
    }
  }

  lemma {:induction false} StopMin(groups: seq<seq<Op>>, zero: nat, taken: nat, a: nat, b: nat)
    requires zero <= taken <= |groups| && Splits(groups, zero, a) && Splits(groups, taken, b)
    requires InOrder(groups) && zero < taken && a == FirstEntry(groups[zero])
    ensures Splits(groups, zero, if a < b then a else b)
  {
    FirstEntryBounds(groups[zero]);
    var first: Op :| first in groups[zero] && first.entry == a;
    assert a <= first.exit < b;
  }

  // ------------------------------------------------------ the projection satisfies version 1

  lemma {:induction false} GroupsInOrder(j: Journal, e: Epoch)
    requires Healthy(j) && e in j.epochs
    ensures InOrder(Groups(j, e)) && S.Tidy(Groups(j, e))
    ensures forall i, op :: 0 <= i < |Groups(j, e)| && op in Groups(j, e)[i] ==> op in EpochSpans(j, e)
  {
    var groups: seq<seq<Op>> := Groups(j, e);
    GroupsTidy(j, e);
    SpansOrdered(j, e);
    forall i, op: Op | 0 <= i < |groups| && op in groups[i] ensures op.entry <= op.exit && op in EpochSpans(j, e) {
      FlattenMember(groups, i, op);
    }
  }

  lemma {:induction false} GroupsPlain(j: Journal, e: Epoch)
    requires Healthy(j) && e in j.epochs
    ensures PlainBefore(Groups(j, e), Barrier(j), e.maximum)
  {
    var groups: seq<seq<Op>> := Groups(j, e);
    GroupsInOrder(j, e);
    forall i, op: Op | 0 <= i < |groups| && !Crosses(groups[i], Barrier(j)) && op in groups[i]
      ensures Plain(op, e.maximum)
    {
      var row := RowOf(j, e, op);
      BarrierBounds(j);
      assert op.exit < Barrier(j);
      assert row.completed && !Unsupported(row);
    }
  }

  lemma {:induction false} LifetimeIssuesHold(j: Journal, epochs: seq<Epoch>, e: Epoch)
    requires e in epochs
    ensures LifetimeIssues(j, e) <= AllLifetimeIssues(j, epochs)
  {
    if e != epochs[|epochs|-1] {
      assert e in epochs[..|epochs|-1];
      LifetimeIssuesHold(j, epochs[..|epochs|-1], e);
    }
  }

  lemma {:induction false} FreshEpoch(j: Journal, e: Epoch)
    requires Healthy(j) && e in j.epochs
    ensures j.begin < e.creation && e.origin == Fresh && e.historyComplete && e.initial == 0 && EpochValid(j, e)
  {
    LifetimeIssuesHold(j, j.epochs, e);
    assert LifetimeIssues(j, e) == {};
    NoLifetimeIssue(j, e);
  }

  lemma {:induction false} NoLifetimeIssue(j: Journal, e: Epoch)
    ensures LifetimeIssues(j, e) == {} ==>
              j.begin < e.creation && e.origin == Fresh && e.historyComplete && e.initial == 0
  {
    if e.creation <= j.begin {
      assert CreationNotAfterObserverStart in LifetimeIssues(j, e);
    } else if e.origin != Fresh || !e.historyComplete {
      assert FreshCoverageRequired in LifetimeIssues(j, e);
    } else if e.initial != 0 {
      assert InitialCredits in LifetimeIssues(j, e);
    }
  }

  /** The scan of a healthy epoch: its retained components run cleanly to a zero balance. */
  lemma {:induction false} PrefixClean(j: Journal, e: Epoch)
    requires Healthy(j) && e in j.epochs
    ensures var kept := Kept(j, e);
            S.Clean(e, kept) && V1.LedgerRun(e, kept).balance == 0
    ensures forall i :: 0 <= i < ScanRun(Barrier(j), Groups(j, e)).taken ==> !Crosses(Groups(j, e)[i], Barrier(j))
  {
    GroupsPlain(j, e);
    FreshEpoch(j, e);
    KeptDef(j, e);
    ScanAgrees(e, Barrier(j), Groups(j, e));
    hide Healthy, Groups, Barrier, ScanRun, Kept, S.Clean, V1.LedgerRun, Crosses;
  }

  /** The retained components of an epoch. */
  function Kept(j: Journal, e: Epoch): seq<seq<Op>> {
    Groups(j, e)[..ScanRun(Barrier(j), Groups(j, e)).zero]
  }

  lemma {:induction false} KeptDef(j: Journal, e: Epoch)
    ensures ScanRun(Barrier(j), Groups(j, e)).zero <= |Groups(j, e)|
    ensures Kept(j, e) == Groups(j, e)[..ScanRun(Barrier(j), Groups(j, e)).zero]
    ensures Prefix(j, e) == Flatten(Kept(j, e))
    ensures PrefixEnd(j, e) == StopOf(Barrier(j), Groups(j, e))
  {
  }

  /** The retained operations are a beginning of the epoch's rows, and version 1 will recompute
      exactly the retained components from them. */
  lemma {:induction false} PrefixBegins(j: Journal, e: Epoch)
    ensures |Prefix(j, e)| <= |EpochSpans(j, e)| && Prefix(j, e) == EpochSpans(j, e)[..|Prefix(j, e)|]
    ensures Components(Prefix(j, e)) == Kept(j, e)
  {
    ComponentsPrefix(EpochSpans(j, e), ScanRun(Barrier(j), Groups(j, e)).zero);
  }

  lemma {:induction false} MemberSide(groups: seq<seq<Op>>, k: nat, op: Op)
    requires k <= |groups|
    ensures op in Flatten(groups[..k]) ==> exists i :: 0 <= i < k && op in groups[i]
    ensures op in Flatten(groups) && op !in Flatten(groups[..k]) ==> exists i :: k <= i < |groups| && op in groups[i]
  {
    hide Flatten;
    if op in Flatten(groups[..k]) {
      var i := S.GroupOf(groups[..k], op);
      assert op in groups[i];
    } else if op in Flatten(groups) {
      var i := S.GroupOf(groups, op);
      if i < k {
        assert groups[..k][i] == groups[i];
        FlattenMember(groups[..k], i, op);
      }
    }
  }

  /** The exclusive end separates the retained operations from every other one of the epoch. */
  lemma {:induction false} PrefixSplits(j: Journal, e: Epoch)
    requires Healthy(j) && e in j.epochs
    ensures forall op :: op in Prefix(j, e) ==> op.exit < PrefixEnd(j, e).qpc && op in EpochSpans(j, e)
    ensures forall op :: op in EpochSpans(j, e) && op !in Prefix(j, e) ==> PrefixEnd(j, e).qpc <= op.entry
    ensures PrefixEnd(j, e).qpc <= Barrier(j)
  {
    PrefixClean(j, e);
    PrefixBegins(j, e);
    GroupsInOrder(j, e);
    GroupsTidy(j, e);
    KeptDef(j, e);
    hide Prefix, PrefixEnd, Kept, Groups, Components, Flatten, Barrier, ScanRun, StopOf, EpochSpans, Healthy, Crosses;
    var groups, zero := Groups(j, e), ScanRun(Barrier(j), Groups(j, e)).zero;
    StopSplits(Barrier(j), groups);
    forall op | op in Prefix(j, e) ensures op.exit < PrefixEnd(j, e).qpc && op in EpochSpans(j, e) {
      MemberSide(groups, zero, op);
    }
    forall op | op in EpochSpans(j, e) && op !in Prefix(j, e) ensures PrefixEnd(j, e).qpc <= op.entry {
      MemberSide(groups, zero, op);
    }
  }

  function Projected(j: Journal, e: Epoch): V1.Journal {
    Projection(j, e, Prefix(j, e), PrefixEnd(j, e).qpc)
  }

  lemma {:induction false} SelectAll(ops: seq<Op>, epoch: nat)
    requires forall op :: op in ops ==> op.epoch == epoch
    ensures Select(ops, epoch) == ops
  {
    if ops != [] {
      var front := ops[..|ops|-1];
      assert ops == front + [ops[|ops|-1]];
      SelectAll(front, epoch);
    }
  }

  lemma {:induction false} LedgerIgnoresLifetime(a: Epoch, b: Epoch, groups: seq<seq<Op>>)
    requires a.id == b.id && a.initial == b.initial && a.maximum == b.maximum
    ensures V1.LedgerRun(a, groups) == V1.LedgerRun(b, groups)
  {
    if groups != [] { LedgerIgnoresLifetime(a, b, groups[..|groups|-1]); }
  }

  lemma {:induction false} PrefixOrdered(j: Journal, e: Epoch)
    requires Healthy(j) && e in j.epochs
    ensures Sorted(Prefix(j, e)) && Unique(Prefix(j, e))
    ensures |Prefix(j, e)| <= |j.operations|
  {
    var prefix, spans := Prefix(j, e), EpochSpans(j, e);
    PrefixBegins(j, e);
    SpansOrdered(j, e);
    hide Prefix, EpochSpans, Components;
    SpansFrom(j.operations);
    SelectLength(Spans(j.operations), e.id);
    assert forall i :: 0 <= i < |prefix| ==> prefix[i] == spans[i];
  }

  /** A retained operation is a completed row, known to have finished inside the boundary. */
  lemma {:induction false} PrefixOp(j: Journal, e: Epoch, op: Op)
    requires Healthy(j) && e in j.epochs && op in Prefix(j, e)
    ensures op.epoch == e.id && 1 <= op.id <= U64 && PayloadShape(op.payload, e.maximum) && !op.payload.Other?
    ensures j.begin <= op.entry <= op.exit < PrefixEnd(j, e).qpc <= j.freeze && e.creation < op.entry
    ensures e.destroy.Some? ==> op.exit < e.destroy.value
  {
    PrefixSplits(j, e);
    BarrierBounds(j);
    hide Prefix, PrefixEnd, EpochSpans, Barrier, MetadataIssues;
    var row := RowOf(j, e, op);
    assert row.completed;
    assert !Unsupported(row);
  }

  lemma {:induction false} ProjectionShape(j: Journal, e: Epoch)
    requires Healthy(j) && e in j.epochs && Prefix(j, e) != []
    ensures e.creation < PrefixEnd(j, e).qpc
    ensures V1.WellShaped(Projected(j, e))
  {
    var p := Projected(j, e);
    FreshEpoch(j, e);
    PrefixOrdered(j, e);
    forall op | op in p.operations ensures V1.OpShape(op, p.epochs) {
      PrefixOp(j, e, op);
    }
    PrefixOp(j, e, p.operations[0]);
  }

  lemma {:induction false} ProjectionRows(j: Journal, e: Epoch)
    requires Healthy(j) && e in j.epochs
    ensures V1.Rows(Projected(j, e), Projected(j, e).epochs[0]) == Prefix(j, e)
    ensures V1.AllRowIssues(j.begin, PrefixEnd(j, e).qpc, Projected(j, e).epochs[0], Prefix(j, e)) == {}
  {
    PrefixOrdered(j, e);
    forall op | op in Prefix(j, e)
      ensures op.epoch == e.id
      ensures V1.RowIssues(j.begin, PrefixEnd(j, e).qpc, Projected(j, e).epochs[0], op) == {}
    {
      PrefixOp(j, e, op);
    }
    SelectAll(Prefix(j, e), e.id);
    SortFixed(Prefix(j, e));
    NoRowIssues(j.begin, PrefixEnd(j, e).qpc, Projected(j, e).epochs[0], Prefix(j, e));
  }

  lemma {:induction false} SelectLength(ops: seq<Op>, epoch: nat)
    ensures |Select(ops, epoch)| <= |ops|
  {
    if ops != [] { SelectLength(ops[..|ops|-1], epoch); }
  }

  lemma {:induction false} NoRowIssues(begin: nat, end: nat, e: Epoch, rows: seq<Op>)
    requires forall op :: op in rows ==> V1.RowIssues(begin, end, e, op) == {}
    ensures V1.AllRowIssues(begin, end, e, rows) == {}
  {
    if rows != [] {
      var front := rows[..|rows|-1];
      assert rows == front + [rows[|rows|-1]];
      NoRowIssues(begin, end, e, front);
    }
  }

  lemma {:induction false} GatherOne(p: V1.Journal, pe: Epoch)
    requires p.epochs == [pe]
    ensures V1.Gather(p, p.epochs) == V1.AddEpoch(p, V1.Totals({}, [], []), pe)
    ensures V1.AllLifetimeIssues(p.begin, p.end, p.epochs) == V1.LifetimeIssues(p.begin, p.end, pe)
    ensures !V1.AnyCookieClash(p.epochs)
  {
    assert p.epochs[..|p.epochs|-1] == [];
  }

  /** PROJECTION. The boundary is strict, version 1 finds the same components and balances in the
      projected prefix, raises no diagnostic, ends with no credit, and reports the matches of
      exactly the retained components. */
  lemma {:induction false} ProjectionAccepted(j: Journal, e: Epoch)
    requires Healthy(j) && e in j.epochs && Prefix(j, e) != []
    ensures e.creation < PrefixEnd(j, e).qpc
    ensures forall op :: op in Prefix(j, e) ==> op.exit < PrefixEnd(j, e).qpc
    ensures V1.WellShaped(Projected(j, e)) && V1.Diagnostics(Projected(j, e)) == {}
    ensures V1.ReportOf(Projected(j, e)).consumptions == PrefixMatches(j, e)
    ensures V1.ReportOf(Projected(j, e)).associations == V1.Updates(PrefixMatches(j, e))
    ensures |V1.ReportOf(Projected(j, e)).summaries| == 1 &&
            V1.ReportOf(Projected(j, e)).summaries[0].ending == Some(0)
  {
    ProjectionShape(j, e);
    ProjectionLedger(j, e);
    PrefixSplits(j, e);
    hide Projected, Kept, Prefix, PrefixEnd, V1.LedgerRun, V1.WellShaped, V1.Diagnostics, V1.Gather, PrefixMatches, Healthy;
  }

  lemma {:induction false} ProjectionLedger(j: Journal, e: Epoch)
    requires Healthy(j) && e in j.epochs && Prefix(j, e) != []
    ensures var p := Projected(j, e);
            V1.Diagnostics(p) == {} &&
            V1.Gather(p, p.epochs).consumptions == PrefixMatches(j, e) &&
            |V1.Gather(p, p.epochs).summaries| == 1 &&
            V1.Gather(p, p.epochs).summaries[0].ending == Some(0)
  {
    var p := Projected(j, e);
    var pe := p.epochs[0];
    ProjectionHeader(j, e);
    ProjectionRows(j, e);
    ProjectionEpoch(j, e);
    GatherOne(p, pe);
    PrefixClean(j, e);
    hide Projected, Kept, Prefix, PrefixEnd, V1.LedgerRun, V1.Gather, Healthy, V1.Rows, V1.AllRowIssues,
         V1.LifetimeIssues, V1.AllLifetimeIssues, V1.EpochLedger, Components;
    assert PrefixMatches(j, e) == V1.LedgerRun(e, Kept(j, e)).matches;
  }

  lemma {:induction false} ProjectionHeader(j: Journal, e: Epoch)
    requires Healthy(j) && e in j.epochs && Prefix(j, e) != []
    ensures var p := Projected(j, e);
            V1.HeaderIssues(p) == {} && V1.LifetimeIssues(p.begin, p.end, p.epochs[0]) == {} &&
            p.epochs == [p.epochs[0]]
    ensures Projected(j, e).begin == j.begin && Projected(j, e).end == PrefixEnd(j, e).qpc
  {
    FreshEpoch(j, e);
    ProjectionShape(j, e);
  }

  lemma {:induction false} ProjectionEpoch(j: Journal, e: Epoch)
    requires Healthy(j) && e in j.epochs && Prefix(j, e) != []
    ensures V1.EpochLedger(Projected(j, e), Projected(j, e).epochs[0]) == V1.LedgerRun(e, Kept(j, e))
  {
    ProjectionRows(j, e);
    PrefixBegins(j, e);
    LedgerIgnoresLifetime(e, Projected(j, e).epochs[0], Kept(j, e));
    hide Kept, Prefix, PrefixEnd, V1.LedgerRun, Healthy, V1.Rows, V1.AllRowIssues, Components;
  }

  /** The consumptions a prefix contributes. */
  function PrefixMatches(j: Journal, e: Epoch): seq<V1.Match> {
    V1.LedgerRun(e, Kept(j, e)).matches
  }
}
