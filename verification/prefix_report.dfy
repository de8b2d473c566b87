/** The whole prefix audit: metadata gate, barrier, one scan per epoch, projected reports. */
module PrefixReport {
  import opened Options
  import opened SemaphoreJournal
  import opened PrefixAudit
  import opened PrefixProjection
  import V1 = CreditAudit

  datatype Summary = Summary(epoch: nat, stop: Stop, retained: seq<Op>, eligible: bool, candidates: nat)

  /** GuardFailed stands for either of the two checks made after the metadata validated: the
      strict boundary, and version 1 accepting the projection. */
  datatype Report =
    | Rejected
    | GuardFailed
    | Audited(issues: set<Issue>, barrier: nat, associations: seq<V1.Match>, consumptions: seq<V1.Match>,
              prefixes: seq<Summary>, excluded: set<nat>)

  // -------------------------------------------------------------------- what is reported

  function ContradictionOf(s: Scan): Option<Contradiction> {
    if s.stop.Some? && s.stop.value.reason.Contradicted? then Some(s.stop.value.reason.c) else None
  }

  function EpochIssue(j: Journal, e: Epoch): set<Issue> {
    var c := ContradictionOf(ScanRun(Barrier(j), Groups(j, e)));
    if c.Some? then {InEpoch(e.id, c.value)} else {}
  }

  function EpochIssues(j: Journal, epochs: seq<Epoch>): set<Issue> {
    if epochs == [] then {} else EpochIssues(j, epochs[..|epochs|-1]) + EpochIssue(j, epochs[|epochs|-1])
  }

  function Matches(j: Journal, epochs: seq<Epoch>): seq<V1.Match> {
    if epochs == [] then [] else Matches(j, epochs[..|epochs|-1]) + PrefixMatches(j, epochs[|epochs|-1])
  }

  function SummaryOf(j: Journal, e: Epoch, clean: bool): Summary {
    Summary(e.id, PrefixEnd(j, e), Prefix(j, e), clean && Prefix(j, e) != [],
            if clean then |V1.Updates(PrefixMatches(j, e))| else 0)
  }

  function Summaries(j: Journal, epochs: seq<Epoch>, clean: bool): seq<Summary> {
    if epochs == [] then []
    else Summaries(j, epochs[..|epochs|-1], clean) + [SummaryOf(j, epochs[|epochs|-1], clean)]
  }

  function Retained(j: Journal, epochs: seq<Epoch>): set<nat> {
    if epochs == [] then {}
    else Retained(j, epochs[..|epochs|-1]) + set op | op in Prefix(j, epochs[|epochs|-1]) :: op.id
  }

  function Identities(j: Journal): set<nat> { set row | row in j.operations :: row.id }

  function ReportOf(j: Journal): Report {
    if !WellShaped(j) || !InventoryExact(j) then Rejected
    else if MetadataIssues(j) != {} then
      Audited(MetadataIssues(j), Barrier(j), [], [], [], Identities(j))
    else
      var issues := EpochIssues(j, j.epochs);
      if issues != {} then
        Audited(issues, Barrier(j), [], [], Summaries(j, j.epochs, false), Identities(j))
      else
        var matches := Matches(j, j.epochs);
        Audited({}, Barrier(j), V1.Updates(matches), matches, Summaries(j, j.epochs, true),
                Identities(j) - Retained(j, j.epochs))
  }

  // ------------------------------------------------------------------------- the loops

  lemma {:induction false} StopStays(barrier: nat, groups: seq<seq<Op>>, i: nat)
    requires i <= |groups| && ScanRun(barrier, groups[..i]).stop.Some?
    ensures ScanRun(barrier, groups) == ScanRun(barrier, groups[..i])
  {
    if i == |groups| {
      assert groups[..i] == groups;
    } else {
      assert groups[..|groups|-1][..i] == groups[..i];
      StopStays(barrier, groups[..|groups|-1], i);
    }
  }

  lemma {:induction false} KeptAndTail(groups: seq<seq<Op>>, zero: nat, taken: nat)
    requires zero <= taken <= |groups|
    ensures Flatten(groups[..taken]) == Flatten(groups[..zero]) + Flatten(groups[zero..taken])
  {
    FlattenSplit(groups[..taken], zero);
    assert groups[..taken][..zero] == groups[..zero];
    assert groups[..taken][zero..] == groups[zero..taken];
  }

  /** The component loop of one epoch: it accepts components until one is refused and
      remembers how many rows it held at the last zero balance. */
  method ScanComponents(groups: seq<seq<Op>>, barrier: nat)
    returns (accepted: seq<Op>, lastZero: nat, halt: Option<Stop>)
    ensures accepted == Flatten(groups[..ScanRun(barrier, groups).taken])
    ensures lastZero == |Flatten(groups[..ScanRun(barrier, groups).zero])|
    ensures halt == ScanRun(barrier, groups).stop
  {
    accepted, lastZero, halt := [], 0, None;
    var balance: nat := 0;
    ghost var taken: nat, zero: nat := 0, 0;
    var i := 0;
    while i < |groups| && halt.None?
      invariant 0 <= i <= |groups|
      invariant ScanRun(barrier, groups[..i]) == Scan(taken, zero, balance, halt)
      invariant zero <= taken <= i && (halt.None? ==> taken == i)
      invariant accepted == Flatten(groups[..taken]) && lastZero == |Flatten(groups[..zero])|
    {
      var group := groups[i];
      assert groups[..i+1][..i] == groups[..i];
      assert ScanRun(barrier, groups[..i+1]) == ScanStep(barrier, ScanRun(barrier, groups[..i]), group);
      var start := FirstEntry(group);
      if Crosses(group, barrier) {
        halt := Some(Stop(TouchesBarrier, if start < barrier then start else barrier));
      } else {
        var out := Step(group, balance);
        if out.contradiction.Some? {
          halt := Some(Stop(Contradicted(out.contradiction.value), start));
        } else if out.restriction.Some? {
          halt := Some(Stop(Restricted(out.restriction.value), start));
        } else {
          accepted, balance, taken := accepted + group, out.balance, i + 1;
          if balance == 0 { lastZero, zero := |accepted|, i + 1; }
        }
      }
      i := i + 1;
    }
    if halt.Some? { StopStays(barrier, groups, i); } else { assert groups[..i] == groups; }
  }

  /** One epoch's retained rows: an unconsumed tail is rolled back to the last zero balance. */
  method ScanEpoch(groups: seq<seq<Op>>, barrier: nat)
    returns (prefix: seq<Op>, stop: Stop, contradiction: Option<Contradiction>)
    requires forall i :: 0 <= i < |groups| ==> groups[i] != []
    ensures prefix == Flatten(groups[..ScanRun(barrier, groups).zero])
    ensures stop == StopOf(barrier, groups)
    ensures contradiction == ContradictionOf(ScanRun(barrier, groups))
  {
    var accepted, lastZero, halt := ScanComponents(groups, barrier);
    ghost var s := ScanRun(barrier, groups);
    KeptAndTail(groups, s.zero, s.taken);
    TailEmpty(groups[s.zero..s.taken]);
    contradiction := if halt.Some? && halt.value.reason.Contradicted? then Some(halt.value.reason.c) else None;
    stop := if halt.Some? then halt.value else Stop(FrozenBarrier, barrier);
    if lastZero < |accepted| {
      var tail := FirstEntry(accepted[lastZero..]);
      assert accepted[lastZero..] == Flatten(groups[s.zero..s.taken]);
      stop := Stop(RolledBack, if tail < stop.qpc then tail else stop.qpc);
    }
    prefix := accepted[..lastZero];
  }

  lemma {:induction false} TailEmpty(groups: seq<seq<Op>>)
    requires forall i :: 0 <= i < |groups| ==> groups[i] != []
    ensures Flatten(groups) == [] <==> groups == []
  {
  }

  method LifetimeCheck(j: Journal, e: Epoch) returns (issues: set<Issue>)
    ensures issues == LifetimeIssues(j, e)
  {
    issues := {};
    if e.creation <= j.begin { issues := issues + {CreationNotAfterObserverStart}; }
    if e.origin != Fresh || !e.historyComplete { issues := issues + {FreshCoverageRequired}; }
    if e.initial != 0 { issues := issues + {InitialCredits}; }
  }

  method LifetimeChecks(j: Journal) returns (issues: set<Issue>)
    ensures issues == AllLifetimeIssues(j, j.epochs)
  {
    hide LifetimeIssues;
    issues := {};
    for i := 0 to |j.epochs|
      invariant issues == AllLifetimeIssues(j, j.epochs[..i])
    {
      assert j.epochs[..i+1][..i] == j.epochs[..i];
      var found := LifetimeCheck(j, j.epochs[i]);
      issues := issues + found;
    }
    assert j.epochs[..|j.epochs|] == j.epochs;
  }

  method MetadataChecks(j: Journal) returns (issues: set<Issue>)
    ensures issues == MetadataIssues(j)
  {
    hide AllLifetimeIssues, AdjacentReuse, SortEpochs, ClockUnknown;
    issues := LifetimeChecks(j);
    if !j.inventoryComplete { issues := issues + {AdmissionInventoryIncomplete}; }
    if j.observerFailed { issues := issues + {ObserverFailed}; }
    if j.coverageGap { issues := issues + {UnboundedCoverageGap}; }
    if AdjacentReuse(SortEpochs(j.epochs)) { issues := issues + {CookieReuse}; }
    if exists row :: row in j.operations && ClockUnknown(row) { issues := issues + {UnknownOperationClock}; }
    if exists loss :: loss in j.losses && loss.bound.None? { issues := issues + {LossWithoutBound}; }
  }

  /** Neither check on a projected prefix can fail, and version 1 reports exactly its matches. */
  lemma {:induction false} ProjectionReport(j: Journal, e: Epoch)
    requires Healthy(j) && e in j.epochs && Prefix(j, e) != []
    ensures e.creation < PrefixEnd(j, e).qpc && forall op :: op in Prefix(j, e) ==> op.exit < PrefixEnd(j, e).qpc
    ensures V1.ReportOf(Projected(j, e)).Audited?
    ensures V1.ReportOf(Projected(j, e)).issues <= {V1.Global(V1.NoUnambiguousCandidate)}
    ensures V1.ReportOf(Projected(j, e)).consumptions == PrefixMatches(j, e)
    ensures V1.ReportOf(Projected(j, e)).associations == V1.Updates(PrefixMatches(j, e))
  {
    ProjectionAccepted(j, e);
    hide Projected, Prefix, PrefixEnd, PrefixMatches, V1.Diagnostics, V1.WellShaped, V1.Gather, V1.Updates, Healthy;
  }

  lemma {:induction false} ScanIsPrefix(j: Journal, e: Epoch)
    ensures Components(Sort(Select(Spans(j.operations), e.id))) == Groups(j, e)
    ensures Flatten(Groups(j, e)[..ScanRun(Barrier(j), Groups(j, e)).zero]) == Prefix(j, e)
    ensures StopOf(Barrier(j), Groups(j, e)) == PrefixEnd(j, e)
    ensures var c := ContradictionOf(ScanRun(Barrier(j), Groups(j, e)));
            EpochIssue(j, e) == if c.Some? then {InEpoch(e.id, c.value)} else {}
    ensures Projected(j, e) == Projection(j, e, Prefix(j, e), PrefixEnd(j, e).qpc)
  {
  }

  lemma {:induction false} SummaryDef(j: Journal, e: Epoch, clean: bool, matches: seq<V1.Match>)
    requires clean && Prefix(j, e) != [] ==> matches == PrefixMatches(j, e)
    requires !clean || Prefix(j, e) == [] ==> matches == []
    requires Prefix(j, e) == [] ==> PrefixMatches(j, e) == []
    ensures SummaryOf(j, e, clean) ==
            Summary(e.id, PrefixEnd(j, e), Prefix(j, e), clean && Prefix(j, e) != [], |V1.Updates(matches)|)
  {
    hide Prefix, PrefixEnd, PrefixMatches;
  }

  /** One epoch of the report: scan it, check the boundary, and let version 1 judge the projection. */
  method ReportEpoch(j: Journal, e: Epoch, barrier: nat, cleanSoFar: bool)
    returns (guarded: bool, summary: Summary, matches: seq<V1.Match>, associations: seq<V1.Match>, issues: set<Issue>)
    requires Healthy(j) && e in j.epochs && barrier == Barrier(j)
    ensures guarded && issues == EpochIssue(j, e)
    ensures summary == SummaryOf(j, e, cleanSoFar && issues == {})
    ensures cleanSoFar && issues == {} ==>
              matches == PrefixMatches(j, e) && associations == V1.Updates(PrefixMatches(j, e))
  {
    hide *;
    NoEmptyGroup(j, e);
    ScanIsPrefix(j, e);
    NoPrefixNoMatches(j, e);
    NoUpdates();
    var prefix, stop, contradiction := ScanEpoch(Components(Sort(Select(Spans(j.operations), e.id))), barrier);
    issues := if contradiction.Some? then {InEpoch(e.id, contradiction.value)} else {};
    guarded, matches, associations := true, [], [];
    if prefix != [] && cleanSoFar && issues == {} {
      ProjectionReport(j, e);
      guarded := e.creation < stop.qpc && forall op :: op in prefix ==> op.exit < stop.qpc;
      var checked := V1.Audit(Projection(j, e, prefix, stop.qpc));
      if checked.Rejected? || !(checked.issues <= {V1.Global(V1.NoUnambiguousCandidate)}) {
        guarded := false;
      } else {
        matches, associations := checked.consumptions, checked.associations;
      }
    }
    SummaryDef(j, e, cleanSoFar && issues == {}, matches);
    summary := Summary(e.id, stop, prefix, cleanSoFar && issues == {} && prefix != [], |associations|);
  }

  lemma {:induction false} NoUpdates()
    ensures V1.Updates([]) == []
  {
  }

  lemma {:induction false} NoEmptyGroup(j: Journal, e: Epoch)
    requires Healthy(j) && e in j.epochs
    ensures forall i :: 0 <= i < |Groups(j, e)| ==> Groups(j, e)[i] != []
  {
    GroupsInOrder(j, e);
    hide Groups, Healthy;
  }

  lemma {:induction false} NoPrefixNoMatches(j: Journal, e: Epoch)
    requires Healthy(j) && e in j.epochs
    ensures Prefix(j, e) == [] ==> PrefixMatches(j, e) == []
  {
    NoEmptyGroup(j, e);
    TailEmpty(Groups(j, e)[..ScanRun(Barrier(j), Groups(j, e)).zero]);
  }

  /** Suppression marks every prefix ineligible. */
  function Cleared(prefixes: seq<Summary>): seq<Summary> {
    if prefixes == [] then []
    else Cleared(prefixes[..|prefixes|-1]) + [prefixes[|prefixes|-1].(eligible := false, candidates := 0)]
  }

  method ClearPrefixes(prefixes: seq<Summary>) returns (r: seq<Summary>)
    ensures r == Cleared(prefixes)
  {
    r := [];
    for i := 0 to |prefixes|
      invariant r == Cleared(prefixes[..i])
    {
      assert prefixes[..i+1][..i] == prefixes[..i];
      r := r + [prefixes[i].(eligible := false, candidates := 0)];
    }
    assert prefixes[..|prefixes|] == prefixes;
  }

  /** What the epoch loop has gathered: consumptions only while nothing was contradicted. */
  datatype Gathered = Gathered(issues: set<Issue>, matches: seq<V1.Match>, associations: seq<V1.Match>,
                               prefixes: seq<Summary>, retained: set<nat>)

  ghost predicate Gathers(j: Journal, epochs: seq<Epoch>, g: Gathered) {
    && g.issues == EpochIssues(j, epochs)
    && Cleared(g.prefixes) == Summaries(j, epochs, false)
    && g.retained == Retained(j, epochs)
    && (g.issues == {} ==> g.matches == Matches(j, epochs) && g.associations == V1.Updates(g.matches) &&
                           g.prefixes == Summaries(j, epochs, true))
  }

  lemma {:induction false} EpochSnoc(j: Journal, epochs: seq<Epoch>, e: Epoch)
    ensures EpochIssues(j, epochs + [e]) == EpochIssues(j, epochs) + EpochIssue(j, e)
    ensures Matches(j, epochs + [e]) == Matches(j, epochs) + PrefixMatches(j, e)
    ensures Retained(j, epochs + [e]) == Retained(j, epochs) + set op | op in Prefix(j, e) :: op.id
    ensures Summaries(j, epochs + [e], true) == Summaries(j, epochs, true) + [SummaryOf(j, e, true)]
    ensures Summaries(j, epochs + [e], false) == Summaries(j, epochs, false) + [SummaryOf(j, e, false)]
  {
    assert (epochs + [e])[..|epochs|] == epochs;
  }

  lemma {:induction false} ClearedSnoc(prefixes: seq<Summary>, summary: Summary)
    ensures Cleared(prefixes + [summary]) == Cleared(prefixes) + [summary.(eligible := false, candidates := 0)]
  {
    assert (prefixes + [summary])[..|prefixes|] == prefixes;
  }

  lemma {:induction false} GathersNext(j: Journal, epochs: seq<Epoch>, e: Epoch, g: Gathered, summary: Summary,
                    matches: seq<V1.Match>, associations: seq<V1.Match>)
    requires Gathers(j, epochs, g)
    requires summary == SummaryOf(j, e, g.issues == {} && EpochIssue(j, e) == {})
    requires g.issues == {} && EpochIssue(j, e) == {} ==>
               matches == PrefixMatches(j, e) && associations == V1.Updates(PrefixMatches(j, e))
    ensures Gathers(j, epochs + [e],
                    Gathered(g.issues + EpochIssue(j, e), g.matches + matches, g.associations + associations,
                             g.prefixes + [summary], g.retained + set op | op in Prefix(j, e) :: op.id))
  {
    EpochSnoc(j, epochs, e);
    ClearedSnoc(g.prefixes, summary);
    V1.UpdatesAppend(g.matches, matches);
  }

  lemma {:induction false} GathersNone(j: Journal)
    ensures Gathers(j, [], Gathered({}, [], [], [], {}))
  {
  }

  lemma {:induction false} SummaryKeepsPrefix(j: Journal, e: Epoch)
    ensures SummaryOf(j, e, true).retained == SummaryOf(j, e, false).retained == Prefix(j, e)
  {
  }

  method EpochLoop(j: Journal, barrier: nat) returns (guarded: bool, g: Gathered)
    requires Healthy(j) && barrier == Barrier(j)
    ensures guarded && Gathers(j, j.epochs, g)
  {
    GathersNone(j);
    hide *;
    g, guarded := Gathered({}, [], [], [], {}), true;
    for i := 0 to |j.epochs|
      invariant guarded && Gathers(j, j.epochs[..i], g)
    {
      var e := j.epochs[i];
      assert j.epochs[..i] + [e] == j.epochs[..i+1];
      var ok, summary, matches, associations, issues := ReportEpoch(j, e, barrier, g.issues == {});
      guarded := guarded && ok;
      SummaryKeepsPrefix(j, e);
      GathersNext(j, j.epochs[..i], e, g, summary, matches, associations);
      g := Gathered(g.issues + issues, g.matches + matches, g.associations + associations,
                    g.prefixes + [summary], g.retained + set op | op in summary.retained :: op.id);
    }
    assert j.epochs[..|j.epochs|] == j.epochs;
  }

  /** The whole prefix audit. Neither check after the metadata gate can fail. */
  method Audit(j: Journal) returns (r: Report)
    ensures r == ReportOf(j)
    ensures r != GuardFailed
  {
    if !WellShaped(j) { return Rejected; }
    var issues := MetadataChecks(j);
    var exact := SweepIntervals(SortIntervals(Inventory(j)), j.counts.observed);
    if !exact { return Rejected; }
    var barrier := ComputeBarrier(j);
    var ids := set row | row in j.operations :: row.id;
    if issues != {} { return Audited(issues, barrier, [], [], [], ids); }
    var guarded, g := EpochLoop(j, barrier);
    if !guarded { return GuardFailed; }
    if g.issues != {} {
      var prefixes := ClearPrefixes(g.prefixes);
      r := Audited(g.issues, barrier, [], [], prefixes, ids);
    } else {
      r := Audited({}, barrier, g.associations, g.matches, g.prefixes, ids - g.retained);
    }
  }
}
