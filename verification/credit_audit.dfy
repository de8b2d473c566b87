/** The version-1 semaphore credit audit: inclusive overlap components, a credit
    ledger over them, and the matches it may report. */
module CreditAudit {
  import opened Options
  import opened SemaphoreJournal
  import opened Linearization

  const MAX_EPOCHS := 64

  datatype Counts = Counts(observed: nat, stored: nat, completed: nat, overflow: nat)

  datatype Journal = Journal(begin: nat, end: nat, frequency: nat, capacity: nat,
                             historyComplete: bool, observerFailed: bool, counts: Counts,
                             epochs: seq<Epoch>, operations: seq<Op>)

  datatype Code =
    | JournalHistoryIncomplete | ObserverFailed | OperationOverflow | OperationsNotDrained
    | CreationOutsideWindow | InvalidDestructionBracket | InitialCreditsNotAttributable
    | NonfreshCreationOrRestore | EpochHistoryIncomplete | CookieLifetimesOverlapOrGap
    | InvalidOrOutsideOperationBracket | TouchesOrExceedsLifetime | UnsupportedOperation(kind: string)
    | OverlapOutsideCoverage | PreviousCountContradictsLedger | ReleaseExceedsMaximum
    | CompetingOrBatchCredits | WaitWithoutCredit | TimeoutWithAvailableCredit
    | UnsupportedWaitResult(result: Option<WaitResult>) | NoUnambiguousCandidate

  datatype Issue = Global(code: Code) | InEpoch(epoch: nat, code: Code)

  datatype Rule = IsolatedOverlap | StrictDisjoint

  /** One recorded consumption; the report copies IDs, context and brackets out of the two operations. */
  datatype Match = Match(epoch: nat, release: Op, wait: Op, rule: Rule)

  datatype Summary = Summary(epoch: nat, operations: nat, evaluated: bool,
                             releases: Option<nat>, waits: Option<nat>, ending: Option<nat>,
                             unconsumed: Option<nat>)

  datatype Report =
    | Rejected
    | Audited(issues: set<Issue>, associations: seq<Match>, consumptions: seq<Match>,
              summaries: seq<Summary>, validated: nat)

  // ------------------------------------------------------------ shape of a journal

  predicate OpShape(op: Op, epochs: seq<Epoch>) {
    && 1 <= op.id <= U64
    && Lookup(epochs, op.epoch).Some?
    && op.entry <= MAX_QPC && op.exit <= MAX_QPC
    && PayloadShape(op.payload, Lookup(epochs, op.epoch).value.maximum)
  }

  predicate WellShaped(j: Journal) {
    && 1 <= j.begin < j.end <= MAX_QPC && 1 <= j.frequency <= MAX_QPC
    && (j.capacity == 4096 || j.capacity == 32768)
    && 0 < |j.epochs| <= MAX_EPOCHS && |j.operations| <= j.capacity
    && (forall e :: e in j.epochs ==> EpochShape(e))
    && (forall i, k :: 0 <= i < k < |j.epochs| ==> j.epochs[i].id != j.epochs[k].id)
    && (forall op :: op in j.operations ==> OpShape(op, j.epochs))
    && (forall i, k :: 0 <= i < k < |j.operations| ==> j.operations[i].id != j.operations[k].id)
    && j.counts.observed <= U64 && j.counts.overflow <= U64
    && j.counts.stored == |j.operations|
    && j.counts.observed == j.counts.stored + j.counts.overflow
    && j.counts.stored <= j.counts.completed <= j.counts.observed
  }

  // ------------------------------------------------------- issues outside the ledger

  function When(condition: bool, issue: Issue): set<Issue> {
    if condition then {issue} else {}
  }

  function HeaderIssues(j: Journal): set<Issue> {
    When(!j.historyComplete, Global(JournalHistoryIncomplete)) +
    When(j.observerFailed, Global(ObserverFailed)) +
    When(j.counts.overflow != 0, Global(OperationOverflow)) +
    When(j.counts.completed != j.counts.observed, Global(OperationsNotDrained))
  }

  function LifetimeIssues(begin: nat, end: nat, e: Epoch): set<Issue> {
    When(!(begin <= e.creation < end), InEpoch(e.id, CreationOutsideWindow)) +
    When(e.destroy.Some? && !(e.creation < e.destroy.value < end), InEpoch(e.id, InvalidDestructionBracket)) +
    When(e.initial != 0, InEpoch(e.id, InitialCreditsNotAttributable)) +
    When(e.origin != Fresh, InEpoch(e.id, NonfreshCreationOrRestore)) +
    When(!e.historyComplete, InEpoch(e.id, EpochHistoryIncomplete))
  }

  function AllLifetimeIssues(begin: nat, end: nat, epochs: seq<Epoch>): set<Issue> {
    if epochs == [] then {}
    else AllLifetimeIssues(begin, end, epochs[..|epochs|-1]) + LifetimeIssues(begin, end, epochs[|epochs|-1])
  }

  /** Two lifetimes of one pointer without a witnessed destruction strictly between them. */
  predicate CookieClash(a: Epoch, b: Epoch) {
    a.cookie == b.cookie &&
    var older, newer := if b.creation < a.creation then b else a, if b.creation < a.creation then a else b;
    older.destroy.None? || older.destroy.value >= newer.creation
  }

  ghost predicate AnyCookieClash(epochs: seq<Epoch>) {
    exists i, j :: 0 <= i < j < |epochs| && CookieClash(epochs[i], epochs[j])
  }

  function RowIssues(begin: nat, end: nat, e: Epoch, op: Op): set<Issue> {
    When(!(begin <= op.entry <= op.exit < end), InEpoch(e.id, InvalidOrOutsideOperationBracket)) +
    When(op.entry <= e.creation || (e.destroy.Some? && op.exit >= e.destroy.value),
         InEpoch(e.id, TouchesOrExceedsLifetime)) +
    (if op.payload.Other? then {InEpoch(e.id, UnsupportedOperation(op.payload.kind))} else {})
  }

  function AllRowIssues(begin: nat, end: nat, e: Epoch, rows: seq<Op>): set<Issue> {
    if rows == [] then {}
    else AllRowIssues(begin, end, e, rows[..|rows|-1]) + RowIssues(begin, end, e, rows[|rows|-1])
  }

  // ------------------------------------------------------------------- credit ledger

  datatype Ledger = Ledger(balance: nat, pending: Option<Op>, matches: seq<Match>,
                           issues: set<Issue>, halted: bool, releases: nat, waits: nat)

  predicate PairShape(group: seq<Op>) {
    |group| == 2 && ((group[0].payload.Release? && group[1].payload.Wait?) ||
                     (group[0].payload.Wait? && group[1].payload.Release?))
  }

  function ReleaseOf(group: seq<Op>): Op
    requires PairShape(group)
  { if group[0].payload.Release? then group[0] else group[1] }

  function WaitOf(group: seq<Op>): Op
    requires PairShape(group)
  { if group[0].payload.Release? then group[1] else group[0] }

  /** One single-credit release and one successful wait, entered with no credit. */
  predicate IsolatedPair(group: seq<Op>, balance: nat) {
    PairShape(group) && balance == 0 &&
    var released := ReleaseOf(group).payload;
    released.success == Some(true) && released.count == 1 && released.previous == Some(0) &&
    WaitOf(group).payload.result == Some(WaitSuccess)
  }

  function LedgerSingle(e: Epoch, s: Ledger, op: Op): Ledger {
    match op.payload
    case Release(count, success, previous, _) =>
      if success != Some(true) then s
      else
        var updated := s.balance + count;
        s.(releases := s.releases + count,
           balance := updated,
           pending := if updated > 1 then None else if updated == 1 then Some(op) else s.pending,
           issues := s.issues +
             When(previous != Some(s.balance), InEpoch(e.id, PreviousCountContradictsLedger)) +
             When(updated > e.maximum, InEpoch(e.id, ReleaseExceedsMaximum)) +
             When(updated > 1, InEpoch(e.id, CompetingOrBatchCredits)))
    case Wait(result) =>
      if result == Some(WaitSuccess) then
        s.(waits := s.waits + 1,
           balance := if s.balance == 0 then 0 else s.balance - 1,
           issues := s.issues + When(s.balance == 0, InEpoch(e.id, WaitWithoutCredit)),
           matches := if s.pending.Some? then s.matches + [Match(e.id, s.pending.value, op, StrictDisjoint)]
                      else s.matches,
           pending := None)
      else if result in {Some(WaitTimeout), Some(WaitApc), Some(WaitAlerted)} then
        s.(issues := s.issues + When(result == Some(WaitTimeout) && s.balance != 0,
                                     InEpoch(e.id, TimeoutWithAvailableCredit)))
      else s.(issues := s.issues + {InEpoch(e.id, UnsupportedWaitResult(result))})
    case Other(_) => s
  }

  function LedgerStep(e: Epoch, s: Ledger, group: seq<Op>): Ledger {
    if s.halted then s
    else if |group| == 1 then LedgerSingle(e, s, group[0])
    else if IsolatedPair(group, s.balance) then
      s.(releases := s.releases + 1, waits := s.waits + 1, balance := 0, pending := None,
         matches := s.matches + [Match(e.id, ReleaseOf(group), WaitOf(group), IsolatedOverlap)])
    else s.(issues := s.issues + {InEpoch(e.id, OverlapOutsideCoverage)}, halted := true)
  }

  function LedgerRun(e: Epoch, groups: seq<seq<Op>>): Ledger {
    if groups == [] then Ledger(e.initial, None, [], {}, false, 0, 0)
    else LedgerStep(e, LedgerRun(e, groups[..|groups|-1]), groups[|groups|-1])
  }

  // ------------------------------------------------------------------ the whole audit

  function Updates(matches: seq<Match>): seq<Match> {
    if matches == [] then []
    else
      var last := matches[|matches|-1];
      Updates(matches[..|matches|-1]) +
      (if last.release.payload.Release? && last.release.payload.context.Update? then [last] else [])
  }

  function Rows(j: Journal, e: Epoch): seq<Op> { Sort(Select(j.operations, e.id)) }

  function EpochLedger(j: Journal, e: Epoch): Ledger {
    if AllRowIssues(j.begin, j.end, e, Rows(j, e)) == {}
    then LedgerRun(e, Components(Rows(j, e)))
    else Ledger(e.initial, None, [], {}, true, 0, 0)
  }

  function EpochSummary(e: Epoch, count: nat, s: Ledger): Summary {
    Summary(e.id, count, !s.halted,
            if s.halted then None else Some(s.releases),
            if s.halted then None else Some(s.waits),
            if s.halted then None else Some(s.balance),
            if s.pending.Some? then Some(s.pending.value.id) else None)
  }

  datatype Totals = Totals(issues: set<Issue>, consumptions: seq<Match>, summaries: seq<Summary>)

  function AddEpoch(j: Journal, t: Totals, e: Epoch): Totals {
    var s := EpochLedger(j, e);
    Totals(t.issues + AllRowIssues(j.begin, j.end, e, Rows(j, e)) + s.issues,
           t.consumptions + s.matches,
           t.summaries + [EpochSummary(e, |Rows(j, e)|, s)])
  }

  function Gather(j: Journal, epochs: seq<Epoch>): Totals {
    if epochs == [] then Totals({}, [], [])
    else AddEpoch(j, Gather(j, epochs[..|epochs|-1]), epochs[|epochs|-1])
  }

  ghost function CookieIssues(epochs: seq<Epoch>): set<Issue> {
    if AnyCookieClash(epochs) then {Global(CookieLifetimesOverlapOrGap)} else {}
  }

  /** Every diagnostic except the absence of a candidate. */
  ghost function Diagnostics(j: Journal): set<Issue> {
    HeaderIssues(j) + AllLifetimeIssues(j.begin, j.end, j.epochs) + CookieIssues(j.epochs) +
    Gather(j, j.epochs).issues
  }

  /** The report of a journal: one issue anywhere suppresses every match. */
  ghost function ReportOf(j: Journal): Report {
    if !WellShaped(j) then Rejected
    else
      var t, issues := Gather(j, j.epochs), Diagnostics(j);
      var kept := if issues == {} then t.consumptions else [];
      Audited(issues + When(Updates(kept) == [], Global(NoUnambiguousCandidate)),
              Updates(kept), kept, t.summaries, |j.operations|)
  }

  // ---------------------------------------------------------------- the audit's loops

  method LifetimeCheck(begin: nat, end: nat, e: Epoch) returns (issues: set<Issue>)
    ensures issues == LifetimeIssues(begin, end, e)
  {
    issues := {};
    if !(begin <= e.creation < end) { issues := issues + {InEpoch(e.id, CreationOutsideWindow)}; }
    if e.destroy.Some? && !(e.creation < e.destroy.value < end) {
      issues := issues + {InEpoch(e.id, InvalidDestructionBracket)};
    }
    if e.initial != 0 { issues := issues + {InEpoch(e.id, InitialCreditsNotAttributable)}; }
    if e.origin != Fresh { issues := issues + {InEpoch(e.id, NonfreshCreationOrRestore)}; }
    if !e.historyComplete { issues := issues + {InEpoch(e.id, EpochHistoryIncomplete)}; }
  }

  method LifetimeChecks(j: Journal) returns (issues: set<Issue>)
    ensures issues == AllLifetimeIssues(j.begin, j.end, j.epochs)
  {
    hide LifetimeIssues;
    issues := {};
    for i := 0 to |j.epochs|
      invariant issues == AllLifetimeIssues(j.begin, j.end, j.epochs[..i])
    {
      assert j.epochs[..i+1][..i] == j.epochs[..i];
      var found := LifetimeCheck(j.begin, j.end, j.epochs[i]);
      issues := issues + found;
    }
    assert j.epochs[..|j.epochs|] == j.epochs;
  }

  /** Compares every pair of lifetimes, adjacent or not. */
  method CookieChecks(epochs: seq<Epoch>) returns (clash: bool)
    ensures clash <==> AnyCookieClash(epochs)
  {
    clash := false;
    for i := 0 to |epochs|
      invariant clash <==> exists a, b :: 0 <= a < b < |epochs| && a < i && CookieClash(epochs[a], epochs[b])
    {
      for k := i + 1 to |epochs|
        invariant clash <==>
          (exists a, b :: 0 <= a < b < |epochs| && a < i && CookieClash(epochs[a], epochs[b])) ||
          (exists b :: i < b < k && CookieClash(epochs[i], epochs[b]))
      {
        if CookieClash(epochs[i], epochs[k]) { clash := true; }
      }
    }
  }

  method RowCheck(begin: nat, end: nat, e: Epoch, row: Op) returns (issues: set<Issue>)
    ensures issues == RowIssues(begin, end, e, row)
  {
    issues := {};
    if !(begin <= row.entry <= row.exit < end) {
      issues := issues + {InEpoch(e.id, InvalidOrOutsideOperationBracket)};
    }
    if row.entry <= e.creation || (e.destroy.Some? && row.exit >= e.destroy.value) {
      issues := issues + {InEpoch(e.id, TouchesOrExceedsLifetime)};
    }
    if row.payload.Other? {
      issues := issues + {InEpoch(e.id, UnsupportedOperation(row.payload.kind))};
    }
  }

  lemma {:induction false} RowIssuesSnoc(begin: nat, end: nat, e: Epoch, rows: seq<Op>, i: nat)
    requires i < |rows|
    ensures AllRowIssues(begin, end, e, rows[..i+1]) ==
            AllRowIssues(begin, end, e, rows[..i]) + RowIssues(begin, end, e, rows[i])
  {
    assert rows[..i+1][..i] == rows[..i];
  }

  lemma {:induction false} RowsStart(begin: nat, end: nat, e: Epoch)
    ensures AllRowIssues(begin, end, e, []) == {} && Components([]) == []
  {
  }

  /** The row loop of one epoch: bracket issues and components in one pass. */
  method BuildComponents(j: Journal, e: Epoch, rows: seq<Op>)
    returns (components: seq<seq<Op>>, issues: set<Issue>, validOrder: bool)
    ensures components == Components(rows)
    ensures issues == AllRowIssues(j.begin, j.end, e, rows)
    ensures validOrder <==> issues == {}
  {
    hide RowIssues, Components, AllRowIssues, LastExit;
    RowsStart(j.begin, j.end, e);
    components, issues, validOrder := [], {}, true;
    var componentExit: nat := 0;
    for i := 0 to |rows|
      invariant components == Components(rows[..i])
      invariant components != [] ==> componentExit == LastExit(components[|components|-1])
      invariant issues == AllRowIssues(j.begin, j.end, e, rows[..i])
      invariant validOrder <==> issues == {}
    {
      var row := rows[i];
      ComponentsSnoc(rows, i);
      RowIssuesSnoc(j.begin, j.end, e, rows, i);
      var found := RowCheck(j.begin, j.end, e, row);
      issues, validOrder := issues + found, validOrder && found == {};
      if components == [] || row.entry > componentExit {
        LastExitSnoc([], row);
        components, componentExit := components + [[row]], row.exit;
      } else {
        var n := |components| - 1;
        LastExitSnoc(components[n], row);
        componentExit := Max(componentExit, row.exit);
        components := components[..n] + [components[n] + [row]];
      }
    }
    assert rows[..|rows|] == rows;
  }

  lemma {:induction false} HaltedStays(e: Epoch, groups: seq<seq<Op>>, i: nat)
    requires i <= |groups| && LedgerRun(e, groups[..i]).halted
    ensures LedgerRun(e, groups) == LedgerRun(e, groups[..i])
  {
    if i == |groups| {
      assert groups[..i] == groups;
    } else {
      assert groups[..|groups|-1][..i] == groups[..i];
      HaltedStays(e, groups[..|groups|-1], i);
    }
  }

  /** The component loop of one epoch; an uncovered overlap ends it. */
  method RunLedger(e: Epoch, components: seq<seq<Op>>) returns (s: Ledger)
    ensures s == LedgerRun(e, components)
  {
    s := Ledger(e.initial, None, [], {}, false, 0, 0);
    var i := 0;
    while i < |components| && !s.halted
      invariant 0 <= i <= |components|
      invariant s == LedgerRun(e, components[..i])
    {
      var component := components[i];
      assert components[..i+1][..i] == components[..i];
      if |component| != 1 {
        if !IsolatedPair(component, s.balance) {
          s := s.(issues := s.issues + {InEpoch(e.id, OverlapOutsideCoverage)}, halted := true);
        } else {
          var released, waited := ReleaseOf(component), WaitOf(component);
          s := s.(releases := s.releases + 1, waits := s.waits + 1);
          s := s.(balance := 0, pending := None);
          s := s.(matches := s.matches + [Match(e.id, released, waited, IsolatedOverlap)]);
        }
      } else {
        s := LedgerSingle(e, s, component[0]);
      }
      i := i + 1;
    }
    if s.halted {
      HaltedStays(e, components, i);
    } else {
      assert components[..i] == components;
    }
  }

  lemma {:induction false} UpdatesAppend(a: seq<Match>, b: seq<Match>)
    ensures Updates(a + b) == Updates(a) + Updates(b)
  {
    if b == [] {
      assert a + b == a;
    } else {
      UpdatesAppend(a, b[..|b|-1]);
      assert (a + b)[..|a+b|-1] == a + b[..|b|-1];
    }
  }

  /** One lifetime: its rows in order, their components, then the ledger over them. */
  method AuditEpoch(j: Journal, e: Epoch, t: Totals) returns (r: Totals, s: Ledger)
    ensures s == EpochLedger(j, e)
    ensures r == AddEpoch(j, t, e)
  {
    var rows := Rows(j, e);
    var components, rowIssues, validOrder := BuildComponents(j, e, rows);
    s := Ledger(e.initial, None, [], {}, true, 0, 0);
    if validOrder { s := RunLedger(e, components); }
    r := Totals(t.issues + rowIssues + s.issues, t.consumptions + s.matches,
                t.summaries + [EpochSummary(e, |rows|, s)]);
  }

  /** The epoch loop. */
  method EpochLoop(j: Journal) returns (t: Totals, candidates: seq<Match>)
    ensures t == Gather(j, j.epochs)
    ensures candidates == Updates(t.consumptions)
  {
    t, candidates := Totals({}, [], []), [];
    for i := 0 to |j.epochs|
      invariant t == Gather(j, j.epochs[..i])
      invariant candidates == Updates(t.consumptions)
    {
      assert j.epochs[..i+1][..i] == j.epochs[..i];
      ghost var before := t.consumptions;
      var s;
      t, s := AuditEpoch(j, j.epochs[i], t);
      UpdatesAppend(before, s.matches);
      candidates := candidates + Updates(s.matches);
    }
    assert j.epochs[..|j.epochs|] == j.epochs;
  }

  /** The whole version-1 audit. */
  method Audit(j: Journal) returns (r: Report)
    ensures r == ReportOf(j)
  {
    hide WellShaped, AllLifetimeIssues, AnyCookieClash, Gather;
    if !WellShaped(j) { return Rejected; }
    var issues: set<Issue> := {};
    if !j.historyComplete { issues := issues + {Global(JournalHistoryIncomplete)}; }
    if j.observerFailed { issues := issues + {Global(ObserverFailed)}; }
    if j.counts.overflow != 0 { issues := issues + {Global(OperationOverflow)}; }
    if j.counts.completed != j.counts.observed { issues := issues + {Global(OperationsNotDrained)}; }
    assert issues == HeaderIssues(j);
    var lifetimes := LifetimeChecks(j);
    var clash := CookieChecks(j.epochs);
    issues := issues + lifetimes;
    if clash { issues := issues + {Global(CookieLifetimesOverlapOrGap)}; }
    var t, candidates := EpochLoop(j);
    issues := issues + t.issues;
    assert issues == Diagnostics(j);
    var consumptions := t.consumptions;
    if issues != {} { candidates, consumptions := [], []; }
    if candidates == [] { issues := issues + {Global(NoUnambiguousCandidate)}; }
    r := Audited(issues, candidates, consumptions, t.summaries, |j.operations|);
  }
}
