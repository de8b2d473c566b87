/** Which journals pass the version-1 audit, said over the journal's own fields, and what each
    part of its report says about the journal. */
module CreditVerdict {
  import opened Options
  import opened SemaphoreJournal
  import opened CreditAudit
  import opened CreditSoundness

  // ----------------------------------------------------- components without a ledger

  /** Credits given by these operations less credits taken. */
  function Held(ops: seq<Op>): int {
    if ops == [] then 0
    else
      var last := ops[|ops|-1];
      Held(ops[..|ops|-1]) + if last.Released() then last.payload.count else if last.Consumed() then -1 else 0
  }

  /** A successful release of a single credit when none was outstanding. */
  predicate Gives(op: Op) {
    op.payload.Release? && op.payload.success == Some(true) && op.payload.count == 1 && op.payload.previous == Some(0)
  }

  predicate Takes(op: Op) { op.payload == Wait(Some(WaitSuccess)) }

  /** What one operation alone may have done with `held` credits outstanding. */
  predicate Fits(op: Op, held: int) {
    if op.payload.Release? then op.payload.success == Some(true) ==> Gives(op) && held == 0
    else if op.payload.Wait? then
      op.payload.result in {Some(WaitApc), Some(WaitAlerted)} || (Takes(op) && held == 1) ||
      (op.payload.result == Some(WaitTimeout) && held == 0)
    else false
  }

  /** A component the audit covers: one fitting operation, or one give and one take from nothing. */
  predicate Covered(group: seq<Op>, held: int) {
    (|group| == 1 && Fits(group[0], held)) ||
    (|group| == 2 && held == 0 &&
     ((Gives(group[0]) && Takes(group[1])) || (Takes(group[0]) && Gives(group[1]))))
  }

  /** Every component is covered, given the credits outstanding before it. */
  ghost predicate AllCovered(groups: seq<seq<Op>>) {
    forall i :: 0 <= i < |groups| ==> Covered(groups[i], Held(Flatten(groups[..i])))
  }

  lemma {:induction false} HeldAppend(a: seq<Op>, b: seq<Op>)
    ensures Held(a + b) == Held(a) + Held(b)
  {
    if b == [] {
      assert a + b == a;
    } else {
      HeldAppend(a, b[..|b|-1]);
      assert (a + b)[..|a + b|-1] == a + b[..|b|-1];
    }
  }

  lemma {:induction false} HeldOne(op: Op)
    ensures Held([op]) == if op.Released() then op.payload.count else if op.Consumed() then -1 else 0
  {
    assert [op][..0] == [];
    assert Held([]) == 0;
  }

  lemma {:induction false} HeldPair(group: seq<Op>)
    requires |group| == 2
    requires (Gives(group[0]) && Takes(group[1])) || (Takes(group[0]) && Gives(group[1]))
    ensures Held(group) == 0
  {
    assert group == [group[0]] + [group[1]];
    HeldAppend([group[0]], [group[1]]);
    HeldOne(group[0]);
    HeldOne(group[1]);
    hide Held;
  }

  lemma {:induction false} ReleaseExactly(e: Epoch, s: Ledger, op: Op)
    requires Balanced(s) && s.issues == {} && Supported(op) && op.payload.Release? && 1 <= e.maximum
    ensures LedgerSingle(e, s, op).issues == {} <==> Fits(op, s.balance)
    ensures LedgerSingle(e, s, op).issues == {} ==>
              LedgerSingle(e, s, op).balance == s.balance + if op.Released() then op.payload.count else 0
  {
    var next := LedgerSingle(e, s, op);
    if op.Released() && !Fits(op, s.balance) {
      if op.payload.previous != Some(s.balance) {
        assert InEpoch(e.id, PreviousCountContradictsLedger) in next.issues;
      } else {
        assert InEpoch(e.id, CompetingOrBatchCredits) in next.issues;
      }
    }
  }

  lemma {:induction false} WaitExactly(e: Epoch, s: Ledger, op: Op)
    requires Balanced(s) && s.issues == {} && op.payload.Wait?
    ensures LedgerSingle(e, s, op).issues == {} <==> Fits(op, s.balance)
    ensures LedgerSingle(e, s, op).issues == {} ==>
              LedgerSingle(e, s, op).balance == s.balance + if op.Consumed() then -1 else 0
  {
    var next := LedgerSingle(e, s, op);
    if !Fits(op, s.balance) {
      var result := op.payload.result;
      if result == Some(WaitSuccess) {
        assert InEpoch(e.id, WaitWithoutCredit) in next.issues;
      } else if result == Some(WaitTimeout) {
        assert InEpoch(e.id, TimeoutWithAvailableCredit) in next.issues;
      } else {
        assert InEpoch(e.id, UnsupportedWaitResult(result)) in next.issues;
      }
    }
  }

  lemma {:induction false} PairExactly(group: seq<Op>, balance: nat)
    requires |group| != 1
    ensures IsolatedPair(group, balance) <==> Covered(group, balance)
  {
  }

  /** The ledger passes a component exactly when it is covered, and then counts its credits. */
  lemma {:induction false} StepExactly(e: Epoch, s: Ledger, group: seq<Op>)
    requires Balanced(s) && !s.halted && s.issues == {} && 1 <= e.maximum
    requires forall op :: op in group ==> Supported(op)
    ensures !LedgerStep(e, s, group).halted && LedgerStep(e, s, group).issues == {} <==> Covered(group, s.balance)
    ensures Covered(group, s.balance) ==> LedgerStep(e, s, group).balance == s.balance + Held(group)
  {
    if |group| == 1 {
      assert group == [group[0]] && group[0] in group;
      HeldOne(group[0]);
      if group[0].payload.Release? { ReleaseExactly(e, s, group[0]); } else { WaitExactly(e, s, group[0]); }
      hide Held, Fits, LedgerSingle;
    } else {
      PairExactly(group, s.balance);
      if Covered(group, s.balance) { HeldPair(group); }
      hide Held, Covered, IsolatedPair;
    }
  }

  lemma {:induction false} CoveredFront(groups: seq<seq<Op>>)
    requires groups != []
    ensures AllCovered(groups) <==>
            AllCovered(groups[..|groups|-1]) && Covered(groups[|groups|-1], Held(Flatten(groups[..|groups|-1])))
  {
    hide Covered, Held, Flatten;
    var front := groups[..|groups|-1];
    assert forall i :: 0 <= i < |front| ==> front[i] == groups[i] && front[..i] == groups[..i];
  }

  lemma {:induction false} NotCleanFront(e: Epoch, groups: seq<seq<Op>>)
    requires groups != [] && e.initial == 0 && 1 <= e.maximum
    requires forall i, op :: 0 <= i < |groups| && op in groups[i] ==> Supported(op)
    ensures var front := groups[..|groups|-1]; forall i, op :: 0 <= i < |front| && op in front[i] ==> Supported(op)
    ensures var s := LedgerRun(e, groups[..|groups|-1]);
            Clean(e, groups) <==>
            Clean(e, groups[..|groups|-1]) && !LedgerStep(e, s, groups[|groups|-1]).halted &&
            LedgerStep(e, s, groups[|groups|-1]).issues == {}
  {
    var front := groups[..|groups|-1];
    assert LedgerRun(e, groups) == LedgerStep(e, LedgerRun(e, front), groups[|groups|-1]);
    assert forall i :: 0 <= i < |front| ==> front[i] == groups[i];
    hide Supported;
    if Clean(e, groups) { CleanFront(e, groups); }
  }

  /** LEDGER. The ledger of an epoch is clean exactly when each of its components is covered. */
  lemma {:induction false} LedgerExactly(e: Epoch, groups: seq<seq<Op>>)
    requires e.initial == 0 && 1 <= e.maximum
    requires forall i, op :: 0 <= i < |groups| && op in groups[i] ==> Supported(op)
    ensures Clean(e, groups) <==> AllCovered(groups)
    ensures Clean(e, groups) ==> LedgerRun(e, groups).balance == Held(Flatten(groups))
  {
    if groups != [] {
      var front, g := groups[..|groups|-1], groups[|groups|-1];
      NotCleanFront(e, groups);
      LedgerExactly(e, front);
      CoveredFront(groups);
      FlattenFront(groups);
      HeldAppend(Flatten(front), g);
      assert LedgerRun(e, groups) == LedgerStep(e, LedgerRun(e, front), g);
      if Clean(e, front) {
        LedgerBalanced(e, front);
        assert forall op :: op in g ==> Supported(op);
        CleanRuns(e, front);
        hide *;
        StepExactly(e, LedgerRun(e, front), g);
      }
    }
  }

  lemma {:induction false} CleanRuns(e: Epoch, groups: seq<seq<Op>>)
    requires Clean(e, groups)
    ensures !LedgerRun(e, groups).halted && LedgerRun(e, groups).issues == {}
  {
  }

  // ------------------------------------------------------------ the whole journal

  /** The lifetime is witnessed from its creation, without credits, inside the window. */
  predicate Lifetime(j: Journal, e: Epoch) {
    && j.begin <= e.creation < j.end
    && (e.destroy.Some? ==> e.creation < e.destroy.value < j.end)
    && e.initial == 0 && e.origin == Fresh && e.historyComplete
  }

  predicate EndsBefore(a: Epoch, b: Epoch) { a.destroy.Some? && a.destroy.value < b.creation }

  /** The operation is a release or a wait inside the window and inside its object's lifetime. */
  predicate Within(j: Journal, e: Epoch, op: Op) {
    && j.begin <= op.entry <= op.exit < j.end && e.creation < op.entry
    && (e.destroy.Some? ==> op.exit < e.destroy.value) && !op.payload.Other?
  }

  ghost predicate FullyRecorded(j: Journal) {
    && j.historyComplete && !j.observerFailed && j.counts.overflow == 0 && j.counts.completed == j.counts.observed
    && (forall e :: e in j.epochs ==> Lifetime(j, e))
    && (forall i, k :: 0 <= i < k < |j.epochs| && j.epochs[i].cookie == j.epochs[k].cookie ==>
          EndsBefore(j.epochs[i], j.epochs[k]) || EndsBefore(j.epochs[k], j.epochs[i]))
    && (forall e, op :: e in j.epochs && op in j.operations && op.epoch == e.id ==> Within(j, e, op))
    && (forall e :: e in j.epochs ==> AllCovered(Components(Rows(j, e))))
  }

  lemma {:induction false} HeaderExactly(j: Journal)
    ensures Global(JournalHistoryIncomplete) in HeaderIssues(j) <==> !j.historyComplete
    ensures Global(ObserverFailed) in HeaderIssues(j) <==> j.observerFailed
    ensures Global(OperationOverflow) in HeaderIssues(j) <==> j.counts.overflow != 0
    ensures Global(OperationsNotDrained) in HeaderIssues(j) <==> j.counts.completed != j.counts.observed
    ensures HeaderIssues(j) == {} <==>
            j.historyComplete && !j.observerFailed && j.counts.overflow == 0 && j.counts.completed == j.counts.observed
    ensures forall i :: i in HeaderIssues(j) ==> i.Global? && !i.code.CookieLifetimesOverlapOrGap? && !i.code.NoUnambiguousCandidate?
  {
  }

  lemma {:induction false} LifetimeExactly(begin: nat, end: nat, e: Epoch)
    ensures var issues := LifetimeIssues(begin, end, e);
            && (InEpoch(e.id, CreationOutsideWindow) in issues <==> !(begin <= e.creation < end))
            && (InEpoch(e.id, InvalidDestructionBracket) in issues <==>
                e.destroy.Some? && !(e.creation < e.destroy.value < end))
            && (InEpoch(e.id, InitialCreditsNotAttributable) in issues <==> e.initial != 0)
            && (InEpoch(e.id, NonfreshCreationOrRestore) in issues <==> e.origin != Fresh)
            && (InEpoch(e.id, EpochHistoryIncomplete) in issues <==> !e.historyComplete)
    ensures forall i :: i in LifetimeIssues(begin, end, e) ==> i.InEpoch? && i.epoch == e.id && OfLifetime(i.code)
  {
  }

  predicate OfLifetime(code: Code) {
    code in {CreationOutsideWindow, InvalidDestructionBracket, InitialCreditsNotAttributable,
             NonfreshCreationOrRestore, EpochHistoryIncomplete}
  }

  lemma {:induction false} LifetimeEmpty(j: Journal, e: Epoch)
    ensures LifetimeIssues(j.begin, j.end, e) == {} <==> Lifetime(j, e)
  {
    LifetimeExactly(j.begin, j.end, e);
  }

  lemma {:induction false} AllLifetimesFrom(begin: nat, end: nat, epochs: seq<Epoch>, i: Issue)
    ensures i in AllLifetimeIssues(begin, end, epochs) <==>
            exists e :: e in epochs && i in LifetimeIssues(begin, end, e)
  {
    hide LifetimeIssues;
    if epochs != [] {
      var front, last := epochs[..|epochs|-1], epochs[|epochs|-1];
      AllLifetimesFrom(begin, end, front, i);
      assert epochs == front + [last];
    }
  }

  lemma {:induction false} AllLifetimesEmpty(j: Journal)
    ensures AllLifetimeIssues(j.begin, j.end, j.epochs) == {} <==> forall e :: e in j.epochs ==> Lifetime(j, e)
  {
    var all := AllLifetimeIssues(j.begin, j.end, j.epochs);
    hide AllLifetimeIssues, LifetimeIssues, Lifetime;
    forall e | e in j.epochs && !Lifetime(j, e) ensures all != {} {
      LifetimeEmpty(j, e);
      var i :| i in LifetimeIssues(j.begin, j.end, e);
      AllLifetimesFrom(j.begin, j.end, j.epochs, i);
    }
    forall i | i in all ensures exists e :: e in j.epochs && !Lifetime(j, e) {
      AllLifetimesFrom(j.begin, j.end, j.epochs, i);
      var e :| e in j.epochs && i in LifetimeIssues(j.begin, j.end, e);
      LifetimeEmpty(j, e);
    }
  }

  lemma {:induction false} RowExactly(j: Journal, e: Epoch, op: Op)
    ensures RowIssues(j.begin, j.end, e, op) == {} <==> Within(j, e, op)
  {
    IssueFreeRow(j.begin, j.end, e, op);
  }

  lemma {:induction false} AllRowsEmpty(j: Journal, e: Epoch, rows: seq<Op>)
    ensures AllRowIssues(j.begin, j.end, e, rows) == {} <==> forall op :: op in rows ==> Within(j, e, op)
  {
    hide Within, RowIssues;
    if rows != [] {
      var front, last := rows[..|rows|-1], rows[|rows|-1];
      AllRowsEmpty(j, e, front);
      RowExactly(j, e, last);
      assert rows == front + [last];
    }
  }

  lemma {:induction false} CookiesExactly(j: Journal)
    requires forall e :: e in j.epochs ==> Lifetime(j, e)
    ensures AnyCookieClash(j.epochs) <==>
            exists i, k :: 0 <= i < k < |j.epochs| && j.epochs[i].cookie == j.epochs[k].cookie &&
              !EndsBefore(j.epochs[i], j.epochs[k]) && !EndsBefore(j.epochs[k], j.epochs[i])
  {
    forall i, k | 0 <= i < k < |j.epochs|
      ensures CookieClash(j.epochs[i], j.epochs[k]) <==>
              j.epochs[i].cookie == j.epochs[k].cookie &&
              !EndsBefore(j.epochs[i], j.epochs[k]) && !EndsBefore(j.epochs[k], j.epochs[i])
    {
      assert Lifetime(j, j.epochs[i]) && Lifetime(j, j.epochs[k]);
    }
    hide CookieClash, EndsBefore, Lifetime;
  }

  lemma {:induction false} GatherEmpty(j: Journal, epochs: seq<Epoch>)
    ensures Gather(j, epochs).issues == {} <==>
            forall e :: e in epochs ==>
              AllRowIssues(j.begin, j.end, e, Rows(j, e)) == {} && EpochLedger(j, e).issues == {}
  {
    hide AllRowIssues, Rows, EpochLedger;
    if epochs != [] {
      var front, last := epochs[..|epochs|-1], epochs[|epochs|-1];
      GatherEmpty(j, front);
      assert epochs == front + [last];
    }
  }

  /** An epoch whose rows are all within it has no issue exactly when its components are covered. */
  lemma {:induction false} EpochExactly(j: Journal, e: Epoch)
    requires WellShaped(j) && e in j.epochs && Lifetime(j, e)
    ensures AllRowIssues(j.begin, j.end, e, Rows(j, e)) == {} && EpochLedger(j, e).issues == {} <==>
            (forall op :: op in j.operations && op.epoch == e.id ==> Within(j, e, op)) &&
            AllCovered(Components(Rows(j, e)))
  {
    var rows := Rows(j, e);
    var groups: seq<seq<Op>> := Components(rows);
    RowsSorted(j, e);
    AllRowsEmpty(j, e, rows);
    if AllRowIssues(j.begin, j.end, e, rows) == {} {
      assert EpochLedger(j, e) == LedgerRun(e, groups);
      RowsSupported(j, e);
      HaltedHasIssue(e, groups);
      LedgerExactly(e, groups);
      assert EpochShape(e);
    }
    hide Within, AllRowIssues, LedgerRun, Rows, Components, AllCovered, Supported;
  }

  lemma {:induction false} RowsSupported(j: Journal, e: Epoch)
    requires WellShaped(j) && e in j.epochs
    requires forall op :: op in Rows(j, e) ==> Within(j, e, op)
    ensures forall i, op :: 0 <= i < |Components(Rows(j, e))| && op in Components(Rows(j, e))[i] ==> Supported(op)
  {
    var rows := Rows(j, e);
    var groups: seq<seq<Op>> := Components(rows);
    RowsSorted(j, e);
    ComponentsPartition(rows);
    forall i, op | 0 <= i < |groups| && op in groups[i] ensures Supported(op) {
      FlattenMember(groups, i, op);
      assert OpShape(op, j.epochs) && Within(j, e, op);
    }
  }

  lemma {:induction false} NoDiagnosticsExactly(j: Journal)
    ensures Diagnostics(j) == {} <==>
            HeaderIssues(j) == {} && AllLifetimeIssues(j.begin, j.end, j.epochs) == {} &&
            !AnyCookieClash(j.epochs) && Gather(j, j.epochs).issues == {}
  {
    hide HeaderIssues, AllLifetimeIssues, AnyCookieClash, Gather;
    if AnyCookieClash(j.epochs) { assert Global(CookieLifetimesOverlapOrGap) in Diagnostics(j); }
  }

  lemma {:induction false} IssueFreeIsNoDiagnostics(j: Journal)
    requires WellShaped(j)
    ensures IssueFree(j) <==> Diagnostics(j) == {}
  {
    if IssueFree(j) { IssueFreeHasNoDiagnostics(j); }
    hide Diagnostics, Gather, Updates;
  }

  lemma {:induction false} EpochsExactly(j: Journal)
    requires WellShaped(j) && forall e :: e in j.epochs ==> Lifetime(j, e)
    ensures Gather(j, j.epochs).issues == {} <==>
            (forall e, op :: e in j.epochs && op in j.operations && op.epoch == e.id ==> Within(j, e, op)) &&
            (forall e :: e in j.epochs ==> AllCovered(Components(Rows(j, e))))
  {
    hide *;
    GatherEmpty(j, j.epochs);
    forall e | e in j.epochs
      ensures AllRowIssues(j.begin, j.end, e, Rows(j, e)) == {} && EpochLedger(j, e).issues == {} <==>
              (forall op :: op in j.operations && op.epoch == e.id ==> Within(j, e, op)) &&
              AllCovered(Components(Rows(j, e)))
    {
      EpochExactly(j, e);
    }
  }

  /** PASSES. A well-shaped journal raises no issue exactly when its history is complete, every
      lifetime was witnessed whole and without credits, no pointer was reused early, every operation
      is a release or wait inside its lifetime, and every overlap component is covered. */
  lemma {:induction false} IssueFreeExactly(j: Journal)
    requires WellShaped(j)
    ensures IssueFree(j) <==> FullyRecorded(j)
  {
    hide WellShaped, HeaderIssues, AllLifetimeIssues, AnyCookieClash, Gather, AllRowIssues, EpochLedger, Lifetime,
         Within, EndsBefore, AllCovered, Components, Rows, Diagnostics, IssueFree;
    IssueFreeIsNoDiagnostics(j);
    NoDiagnosticsExactly(j);
    HeaderExactly(j);
    AllLifetimesEmpty(j);
    if forall e :: e in j.epochs ==> Lifetime(j, e) {
      CookiesExactly(j);
      EpochsExactly(j);
    }
  }

  // --------------------------------------------------------- which issue means what

  lemma {:induction false} GatherIssueFrom(j: Journal, epochs: seq<Epoch>, i: Issue)
    ensures i in Gather(j, epochs).issues <==>
            exists e :: e in epochs && i in AllRowIssues(j.begin, j.end, e, Rows(j, e)) + EpochLedger(j, e).issues
  {
    hide AllRowIssues, Rows, EpochLedger;
    if epochs != [] {
      var front, last := epochs[..|epochs|-1], epochs[|epochs|-1];
      GatherIssueFrom(j, front, i);
      assert epochs == front + [last];
    }
  }

  predicate OfRow(code: Code) {
    code.InvalidOrOutsideOperationBracket? || code.TouchesOrExceedsLifetime? || code.UnsupportedOperation?
  }

  predicate OfLedger(code: Code) {
    code.OverlapOutsideCoverage? || code.PreviousCountContradictsLedger? || code.ReleaseExceedsMaximum? ||
    code.CompetingOrBatchCredits? || code.WaitWithoutCredit? || code.TimeoutWithAvailableCredit? ||
    code.UnsupportedWaitResult?
  }

  lemma {:induction false} RowCodes(begin: nat, end: nat, e: Epoch, op: Op)
    ensures forall i :: i in RowIssues(begin, end, e, op) ==> i.InEpoch? && i.epoch == e.id && OfRow(i.code)
    ensures InEpoch(e.id, InvalidOrOutsideOperationBracket) in RowIssues(begin, end, e, op) <==>
            !(begin <= op.entry <= op.exit < end)
    ensures InEpoch(e.id, TouchesOrExceedsLifetime) in RowIssues(begin, end, e, op) <==>
            op.entry <= e.creation || (e.destroy.Some? && op.exit >= e.destroy.value)
    ensures forall kind :: InEpoch(e.id, UnsupportedOperation(kind)) in RowIssues(begin, end, e, op) <==>
              op.payload == Other(kind)
  {
  }

  lemma {:induction false} RowIssueFrom(begin: nat, end: nat, e: Epoch, rows: seq<Op>, i: Issue)
    ensures i in AllRowIssues(begin, end, e, rows) <==> exists op :: op in rows && i in RowIssues(begin, end, e, op)
    ensures i in AllRowIssues(begin, end, e, rows) ==> i.InEpoch? && i.epoch == e.id && OfRow(i.code)
  {
    hide RowIssues, OfRow;
    if rows != [] {
      var front, last := rows[..|rows|-1], rows[|rows|-1];
      RowIssueFrom(begin, end, e, front, i);
      RowCodes(begin, end, e, last);
      assert rows == front + [last];
    }
  }

  lemma {:induction false} LedgerCodes(e: Epoch, groups: seq<seq<Op>>)
    ensures forall i :: i in LedgerRun(e, groups).issues ==> i.InEpoch? && i.epoch == e.id && OfLedger(i.code)
  {
    if groups != [] { LedgerCodes(e, groups[..|groups|-1]); }
  }

  lemma {:induction false} EpochLedgerCodes(j: Journal, e: Epoch)
    ensures forall i :: i in EpochLedger(j, e).issues ==> i.InEpoch? && i.epoch == e.id && OfLedger(i.code)
  {
    LedgerCodes(e, Components(Rows(j, e)));
    hide LedgerRun, OfLedger;
  }

  /** Every issue of an epoch's lifetime, rows or ledger names that epoch and is of its own family. */
  lemma {:induction false} EpochCodes(j: Journal, e: Epoch, i: Issue)
    ensures i in LifetimeIssues(j.begin, j.end, e) ==> i.InEpoch? && i.epoch == e.id && OfLifetime(i.code)
    ensures i in AllRowIssues(j.begin, j.end, e, Rows(j, e)) ==> i.InEpoch? && i.epoch == e.id && OfRow(i.code)
    ensures i in EpochLedger(j, e).issues ==> i.InEpoch? && i.epoch == e.id && OfLedger(i.code)
  {
    LifetimeExactly(j.begin, j.end, e);
    RowIssueFrom(j.begin, j.end, e, Rows(j, e), i);
    EpochLedgerCodes(j, e);
    hide *;
  }

  lemma {:induction false} FamiliesApart(code: Code)
    ensures !(OfLifetime(code) && OfRow(code)) && !(OfLifetime(code) && OfLedger(code)) && !(OfRow(code) && OfLedger(code))
  {
  }

  lemma {:induction false} DiagnosedIn(j: Journal, i: Issue)
    requires i.InEpoch?
    ensures i in Diagnostics(j) <==>
            exists e :: e in j.epochs && (i in LifetimeIssues(j.begin, j.end, e) ||
              i in AllRowIssues(j.begin, j.end, e, Rows(j, e)) || i in EpochLedger(j, e).issues)
  {
    HeaderExactly(j);
    AllLifetimesFrom(j.begin, j.end, j.epochs, i);
    GatherIssueFrom(j, j.epochs, i);
    hide HeaderIssues, LifetimeIssues, AllLifetimeIssues, AnyCookieClash, Gather, AllRowIssues, RowIssues,
         EpochLedger, Rows;
  }

  /** An issue about an epoch comes from its lifetime, from one of its rows, or from its ledger. */
  lemma {:induction false} EpochIssueFrom(j: Journal, e: Epoch, code: Code)
    requires WellShaped(j) && e in j.epochs
    ensures InEpoch(e.id, code) in Diagnostics(j) <==>
            InEpoch(e.id, code) in LifetimeIssues(j.begin, j.end, e) ||
            (exists op :: op in Rows(j, e) && InEpoch(e.id, code) in RowIssues(j.begin, j.end, e, op)) ||
            InEpoch(e.id, code) in EpochLedger(j, e).issues
  {
    var i := InEpoch(e.id, code);
    hide *;
    DiagnosedIn(j, i);
    RowIssueFrom(j.begin, j.end, e, Rows(j, e), i);
    SameIdSameEpoch(j);
    forall other | other in j.epochs && other != e
      ensures i !in LifetimeIssues(j.begin, j.end, other) &&
              i !in AllRowIssues(j.begin, j.end, other, Rows(j, other)) && i !in EpochLedger(j, other).issues
    {
      EpochCodes(j, other, i);
    }
  }

  lemma {:induction false} SameIdSameEpoch(j: Journal)
    requires WellShaped(j)
    ensures forall a, b :: a in j.epochs && b in j.epochs && a.id == b.id ==> a == b
  {
    forall a, b | a in j.epochs && b in j.epochs && a.id == b.id ensures a == b {
      LookupUnique(j.epochs, a);
      LookupUnique(j.epochs, b);
    }
  }

  lemma {:induction false} ReportedIssues(j: Journal, i: Issue)
    requires WellShaped(j) && i != Global(NoUnambiguousCandidate)
    ensures i in ReportOf(j).issues <==> i in Diagnostics(j)
  {
    hide Diagnostics, Gather, Updates;
  }

  lemma {:induction false} LifetimeDiagnosis(j: Journal, e: Epoch, code: Code)
    requires WellShaped(j) && e in j.epochs && OfLifetime(code)
    ensures InEpoch(e.id, code) in ReportOf(j).issues <==> InEpoch(e.id, code) in LifetimeIssues(j.begin, j.end, e)
  {
    var i := InEpoch(e.id, code);
    hide *;
    ReportedIssues(j, i);
    EpochIssueFrom(j, e, code);
    EpochCodes(j, e, i);
    RowIssueFrom(j.begin, j.end, e, Rows(j, e), i);
    FamiliesApart(code);
  }

  /** LIFETIME DIAGNOSES. Each issue of a lifetime is in the report exactly for its own fault. */
  lemma {:induction false} LifetimeDiagnoses(j: Journal, e: Epoch)
    requires WellShaped(j) && e in j.epochs
    ensures var issues := ReportOf(j).issues;
            && (InEpoch(e.id, CreationOutsideWindow) in issues <==> !(j.begin <= e.creation < j.end))
            && (InEpoch(e.id, InvalidDestructionBracket) in issues <==>
                e.destroy.Some? && !(e.creation < e.destroy.value < j.end))
            && (InEpoch(e.id, InitialCreditsNotAttributable) in issues <==> e.initial != 0)
            && (InEpoch(e.id, NonfreshCreationOrRestore) in issues <==> e.origin != Fresh)
            && (InEpoch(e.id, EpochHistoryIncomplete) in issues <==> !e.historyComplete)
  {
    LifetimeExactly(j.begin, j.end, e);
    hide LifetimeIssues, ReportOf, WellShaped;
    LifetimeDiagnosis(j, e, CreationOutsideWindow);
    LifetimeDiagnosis(j, e, InvalidDestructionBracket);
    LifetimeDiagnosis(j, e, InitialCreditsNotAttributable);
    LifetimeDiagnosis(j, e, NonfreshCreationOrRestore);
    LifetimeDiagnosis(j, e, EpochHistoryIncomplete);
  }

  lemma {:induction false} RowDiagnosis(j: Journal, e: Epoch, code: Code)
    requires WellShaped(j) && e in j.epochs && OfRow(code)
    ensures InEpoch(e.id, code) in ReportOf(j).issues <==>
            exists op :: op in j.operations && op.epoch == e.id && InEpoch(e.id, code) in RowIssues(j.begin, j.end, e, op)
  {
    var i := InEpoch(e.id, code);
    hide *;
    ReportedIssues(j, i);
    EpochIssueFrom(j, e, code);
    EpochCodes(j, e, i);
    FamiliesApart(code);
    RowsSorted(j, e);
  }

  /** ROW DIAGNOSES. Each issue of an operation's bracket, lifetime or kind is in the report exactly
      when some operation of that epoch has the fault. */
  lemma {:induction false} RowDiagnoses(j: Journal, e: Epoch, kind: string)
    requires WellShaped(j) && e in j.epochs
    ensures InEpoch(e.id, InvalidOrOutsideOperationBracket) in ReportOf(j).issues <==>
            exists op :: op in j.operations && op.epoch == e.id && !(j.begin <= op.entry <= op.exit < j.end)
    ensures InEpoch(e.id, TouchesOrExceedsLifetime) in ReportOf(j).issues <==>
            exists op :: op in j.operations && op.epoch == e.id &&
              (op.entry <= e.creation || (e.destroy.Some? && op.exit >= e.destroy.value))
    ensures InEpoch(e.id, UnsupportedOperation(kind)) in ReportOf(j).issues <==>
            exists op :: op in j.operations && op.epoch == e.id && op.payload == Other(kind)
  {
    hide ReportOf, WellShaped, RowIssues;
    RowDiagnosis(j, e, InvalidOrOutsideOperationBracket);
    RowDiagnosis(j, e, TouchesOrExceedsLifetime);
    RowDiagnosis(j, e, UnsupportedOperation(kind));
    forall op { RowCodes(j.begin, j.end, e, op); }
  }

  /** HEADER DIAGNOSES. The journal-wide issues, each exactly for its own fault; the absence of a
      candidate is said exactly when no association is listed. */
  lemma {:induction false} HeaderDiagnoses(j: Journal)
    requires WellShaped(j)
    ensures var issues := ReportOf(j).issues;
            && (Global(JournalHistoryIncomplete) in issues <==> !j.historyComplete)
            && (Global(ObserverFailed) in issues <==> j.observerFailed)
            && (Global(OperationOverflow) in issues <==> j.counts.overflow != 0)
            && (Global(OperationsNotDrained) in issues <==> j.counts.completed != j.counts.observed)
            && (Global(CookieLifetimesOverlapOrGap) in issues <==> AnyCookieClash(j.epochs))
            && (Global(NoUnambiguousCandidate) in issues <==> ReportOf(j).associations == [])
  {
    HeaderExactly(j);
    EpochIssuesAreEpochal(j.begin, j.end, j.epochs);
    GatherIssuesAreEpochal(j, j.epochs);
    hide HeaderIssues, AllLifetimeIssues, Gather, AnyCookieClash, Updates, WellShaped;
  }

  // --------------------------------------------------------------- what is listed

  lemma {:induction false} UpdatesFrom(matches: seq<Match>, m: Match)
    ensures m in Updates(matches) <==>
            m in matches && m.release.payload.Release? && m.release.payload.context.Update?
  {
    if matches != [] {
      var front, last := matches[..|matches|-1], matches[|matches|-1];
      UpdatesFrom(front, m);
      assert matches == front + [last];
    }
  }

  /** LISTED. A journal with any issue lists nothing; of the consumptions of one without, exactly
      those whose release ran inside an Update are listed as associations. */
  lemma {:induction false} ListedExactly(j: Journal)
    requires WellShaped(j)
    ensures !FullyRecorded(j) ==> ReportOf(j).associations == [] && ReportOf(j).consumptions == []
    ensures forall m :: m in ReportOf(j).associations <==>
              m in ReportOf(j).consumptions && m.release.payload.Release? && m.release.payload.context.Update?
  {
    IssueFreeExactly(j);
    IssueFreeIsNoDiagnostics(j);
    hide FullyRecorded, Diagnostics, Gather, WellShaped;
    forall m ensures m in Updates(ReportOf(j).consumptions) <==>
              m in ReportOf(j).consumptions && m.release.payload.Release? && m.release.payload.context.Update? {
      UpdatesFrom(ReportOf(j).consumptions, m);
    }
  }

  /** Matches of clean components: the rule tells whether the release had ended before the wait. */
  ghost predicate RulesRight(s: Ledger) {
    forall m :: m in s.matches ==> (m.rule.StrictDisjoint? <==> m.release.exit < m.wait.entry)
  }

  lemma {:induction false} PairOverlaps(group: seq<Op>)
    requires PairShape(group) && WellBracketed(group)
    requires group[0].entry <= group[1].entry <= group[0].exit
    ensures !(ReleaseOf(group).exit < WaitOf(group).entry)
  {
  }

  lemma {:induction false} RulesSingle(e: Epoch, s: Ledger, op: Op)
    requires RulesRight(s) && (s.pending.Some? ==> s.pending.value.exit < op.entry)
    ensures RulesRight(LedgerSingle(e, s, op))
    ensures LedgerSingle(e, s, op).pending.Some? ==> LedgerSingle(e, s, op).pending in {s.pending, Some(op)}
  {
  }

  lemma {:induction false} ChainedLast(groups: seq<seq<Op>>)
    requires Chained(groups) && groups != []
    ensures Chained(groups[..|groups|-1])
    ensures var g := groups[|groups|-1]; |g| == 2 ==> g[0].entry <= g[1].entry <= g[0].exit
  {
    var g := groups[|groups|-1];
    if |g| == 2 {
      LastExitSnoc([], g[0]);
      assert g[..1] == [g[0]];
    }
    hide LastExit;
  }

  lemma {:induction false} RulesStep(e: Epoch, s: Ledger, group: seq<Op>)
    requires RulesRight(s) && !s.halted && (|group| == 1 || IsolatedPair(group, s.balance)) && WellBracketed(group)
    requires forall op :: s.pending.Some? && op in group ==> s.pending.value.exit < op.entry
    requires |group| == 2 ==> group[0].entry <= group[1].entry <= group[0].exit
    ensures RulesRight(LedgerStep(e, s, group))
    ensures var pending := LedgerStep(e, s, group).pending;
            pending.Some? ==> pending == s.pending || pending.value in group
  {
    if |group| == 1 {
      assert group[0] in group;
      RulesSingle(e, s, group[0]);
      hide LedgerSingle, RulesRight;
    } else {
      PairOverlaps(group);
    }
  }

  lemma {:induction false} RulesHold(e: Epoch, groups: seq<seq<Op>>)
    requires Clean(e, groups) && Tidy(groups) && Chained(groups)
    ensures RulesRight(LedgerRun(e, groups))
    ensures LedgerRun(e, groups).pending.Some? ==> LedgerRun(e, groups).pending.value in Flatten(groups)
  {
    if groups != [] {
      var front, g := groups[..|groups|-1], groups[|groups|-1];
      CleanFront(e, groups);
      CleanRuns(e, front);
      TidyFront(groups);
      ChainedLast(groups);
      assert LedgerRun(e, groups) == LedgerStep(e, LedgerRun(e, front), g);
      hide *;
      RulesHold(e, front);
      RulesStep(e, LedgerRun(e, front), g);
    }
  }

  /** RULE. A listed consumption is called strictly disjoint exactly when its release had ended
      before its wait began, and it belongs to the epoch of both. */
  lemma {:induction false} RuleSaysDisjoint(j: Journal, e: Epoch, m: Match)
    requires WellShaped(j) && IssueFree(j) && e in j.epochs && m in ReportOf(j).consumptions && m.epoch == e.id
    ensures m.rule.StrictDisjoint? <==> m.release.exit < m.wait.entry
    ensures m.release in j.operations && m.wait in j.operations && m.release.epoch == m.wait.epoch == e.id
  {
    ReportedMatches(j, e);
    IssueFreeHasNoDiagnostics(j);
    EpochClean(j, e);
    RulesHold(e, Components(Rows(j, e)));
    AuditMatching(j, e);
    hide IssueFree, Clean, Tidy, Chained, LedgerRun, Rows, Components, Diagnostics, ReportOf, WellShaped;
  }

  // --------------------------------------------------------------------- summaries

  function Given(ops: seq<Op>): nat {
    if ops == [] then 0
    else Given(ops[..|ops|-1]) + if ops[|ops|-1].Released() then ops[|ops|-1].payload.count else 0
  }

  function Taken(ops: seq<Op>): nat {
    if ops == [] then 0 else Taken(ops[..|ops|-1]) + if ops[|ops|-1].Consumed() then 1 else 0
  }

  lemma {:induction false} CountsAppend(a: seq<Op>, b: seq<Op>)
    ensures Given(a + b) == Given(a) + Given(b) && Taken(a + b) == Taken(a) + Taken(b)
  {
    if b == [] {
      assert a + b == a;
    } else {
      CountsAppend(a, b[..|b|-1]);
      assert (a + b)[..|a + b|-1] == a + b[..|b|-1];
    }
  }

  lemma {:induction false} CountsOne(op: Op)
    ensures Given([op]) == (if op.Released() then op.payload.count else 0) && Taken([op]) == (if op.Consumed() then 1 else 0)
  {
    assert [op][..0] == [];
    assert Given([]) == 0 && Taken([]) == 0;
  }

  lemma {:induction false} CountsStep(e: Epoch, s: Ledger, group: seq<Op>)
    requires !LedgerStep(e, s, group).halted
    ensures var next := LedgerStep(e, s, group);
            next.releases == s.releases + Given(group) && next.waits == s.waits + Taken(group)
  {
    if |group| == 1 {
      CountsOne(group[0]);
      assert group == [group[0]];
    } else {
      CountsOne(group[0]);
      CountsOne(group[1]);
      CountsAppend([group[0]], [group[1]]);
      assert group == [group[0]] + [group[1]];
    }
    hide Given, Taken;
  }

  lemma {:induction false} LedgerCounts(e: Epoch, groups: seq<seq<Op>>)
    ensures var s := LedgerRun(e, groups);
            !s.halted ==> s.releases == Given(Flatten(groups)) && s.waits == Taken(Flatten(groups))
  {
    if groups != [] {
      var front, g := groups[..|groups|-1], groups[|groups|-1];
      LedgerCounts(e, front);
      FlattenFront(groups);
      CountsAppend(Flatten(front), g);
      assert LedgerRun(e, groups) == LedgerStep(e, LedgerRun(e, front), g);
      if !LedgerRun(e, groups).halted { CountsStep(e, LedgerRun(e, front), g); }
      hide Given, Taken, Flatten, LedgerRun, LedgerSingle;
    }
  }

  lemma {:induction false} SummaryAt(j: Journal, epochs: seq<Epoch>, i: nat)
    requires i < |epochs|
    ensures |Gather(j, epochs).summaries| == |epochs|
    ensures Gather(j, epochs).summaries[i] == EpochSummary(epochs[i], |Rows(j, epochs[i])|, EpochLedger(j, epochs[i]))
  {
    hide EpochSummary, EpochLedger, Rows, AllRowIssues;
    var front := epochs[..|epochs|-1];
    if i < |front| { SummaryAt(j, front, i); } else if front != [] { SummaryAt(j, front, 0); }
  }

  lemma {:induction false} EpochCounts(j: Journal, e: Epoch)
    ensures var s := EpochLedger(j, e);
            !s.halted ==> s.releases == Given(Rows(j, e)) && s.waits == Taken(Rows(j, e))
  {
    LedgerCounts(e, Components(Rows(j, e)));
    ComponentsPartition(Rows(j, e));
    hide Given, Taken, LedgerRun, Components, Rows, AllRowIssues;
  }

  /** SUMMARIES. One per epoch; an evaluated one counts the epoch's released credits and successful
      waits, and of a journal without issues it ends with their difference and names the one
      release nobody consumed. */
  lemma {:induction false} SummariesExactly(j: Journal, i: nat)
    requires WellShaped(j) && i < |j.epochs|
    ensures |ReportOf(j).summaries| == |j.epochs|
    ensures var e, m := j.epochs[i], ReportOf(j).summaries[i];
            && m.epoch == e.id && m.operations == |Select(j.operations, e.id)|
            && (if m.evaluated then m.releases == Some(Given(Rows(j, e))) && m.waits == Some(Taken(Rows(j, e)))
                else m.releases.None? && m.waits.None? && m.ending.None?)
            && (IssueFree(j) ==>
                  && m.evaluated && m.ending.Some? && m.ending.value == Held(Rows(j, e))
                  && (forall op: Op :: m.unconsumed == Some(op.id) && op in Rows(j, e) <==>
                        LeftOver(EpochLedger(j, e).matches, Rows(j, e), op)))
  {
    var e := j.epochs[i];
    SummaryAt(j, j.epochs, i);
    EpochCounts(j, e);
    if IssueFree(j) { CleanSummary(j, e); }
    hide Given, Taken, Held, Gather, EpochLedger, IssueFree, LeftOver, WellShaped, Diagnostics, Updates;
  }

  lemma {:induction false} CleanSummary(j: Journal, e: Epoch)
    requires IssueFree(j) && e in j.epochs
    ensures var s := EpochLedger(j, e);
            && !s.halted && s.balance == Held(Rows(j, e))
            && (forall op: Op :: s.pending.Some? && s.pending.value.id == op.id && op in Rows(j, e) <==>
                  LeftOver(s.matches, Rows(j, e), op))
  {
    IssueFreeHasNoDiagnostics(j);
    EpochClean(j, e);
    var groups: seq<seq<Op>> := Components(Rows(j, e));
    CleanRuns(e, groups);
    LedgerExactly(e, groups);
    LeftOverIsPending(j, e);
    hide Held, LedgerRun, Components, Rows, Diagnostics, Clean, Tidy, Chained;
  }

  /** With every credit listed once, the pending release is the one no match used. */
  lemma {:induction false} PendingIsLeft(s: Ledger, rows: seq<Op>)
    requires Unique(rows) && Unique(Releases(s.matches) + Unmatched(s))
    requires forall op :: op in Releases(s.matches) + Unmatched(s) <==> op in rows && op.Released()
    ensures forall op: Op :: s.pending.Some? && s.pending.value.id == op.id && op in rows <==>
              LeftOver(s.matches, rows, op)
  {
    hide Releases;
    var used := Releases(s.matches);
    var credits := used + Unmatched(s);
    if s.pending.Some? {
      assert credits[|used|] == s.pending.value;
      assert s.pending.value in credits;
      forall op | op in used ensures op.id != s.pending.value.id {
        var k :| 0 <= k < |used| && used[k] == op;
        assert credits[k] == op;
      }
      forall op | op in rows && op.id == s.pending.value.id ensures op == s.pending.value {
        UniqueById(rows, op, s.pending.value);
      }
    }
  }

  lemma {:induction false} LeftOverIsPending(j: Journal, e: Epoch)
    requires IssueFree(j) && e in j.epochs
    ensures var s := EpochLedger(j, e);
            forall op: Op :: s.pending.Some? && s.pending.value.id == op.id && op in Rows(j, e) <==>
              LeftOver(s.matches, Rows(j, e), op)
  {
    IssueFreeHasNoDiagnostics(j);
    MatchedUnique(j, e);
    RowsSorted(j, e);
    var s, rows := EpochLedger(j, e), Rows(j, e);
    var order := Canonical(Components(rows));
    assert multiset(rows) == multiset(order);
    hide *;
    SameElements(rows, order);
    FilterMembers(order);
    PendingIsLeft(s, rows);
  }

  lemma {:induction false} UniqueById(ops: seq<Op>, a: Op, b: Op)
    requires Unique(ops) && a in ops && b in ops && a.id == b.id
    ensures a == b
  {
    var i :| 0 <= i < |ops| && ops[i] == a;
    var k :| 0 <= k < |ops| && ops[k] == b;
    assert i == k;
  }
}
