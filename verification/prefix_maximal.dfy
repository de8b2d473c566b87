/** The prefix audit stops nowhere too early: which components it accepts, exactly, and which
    journals it passes, over the journal's own fields. */
module PrefixMaximal {
  import opened Options
  import opened SemaphoreJournal
  import opened PrefixAudit
  import opened PrefixProjection
  import opened PrefixReport
  import opened CreditVerdict
  import I = PrefixInventory
  import T = PrefixTheorems
  import L = Linearization
  import V1 = CreditAudit
  import S = CreditSoundness

  // -------------------------------------------------------------------- one component

  /** The observed outcome of a single operation is impossible with `held` credits outstanding. */
  predicate Contradicts(group: seq<Op>, held: int, c: Contradiction) {
    |group| == 1 &&
    match c
    case PreviousCountContradicts => group[0].Released() && !(group[0].payload.previous.Some? && group[0].payload.previous.value == held)
    case WaitWithoutPrefixCredit => group[0].Consumed() && held == 0
    case TimeoutWithPrefixCredit => group[0].payload == Wait(Some(WaitTimeout)) && held != 0
  }

  lemma {:induction false} SingleStepExactly(op: Op, balance: nat, maximum: nat)
    requires Plain(op, maximum) && balance <= 1
    ensures var out := Step([op], balance);
            && (out.restriction.None? && out.contradiction.None? <==> Covered([op], balance))
            && (forall c :: out.contradiction == Some(c) <==> Contradicts([op], balance, c))
            && out.restriction != Some(OverlapOutsideModel)
            && (Covered([op], balance) ==> out.balance == balance + Held([op]) <= 1)
  {
    HeldOne(op);
    hide Held;
  }

  /** STEP. An interpretable component is accepted exactly when it is covered, and the balance then
      moves by its credits; a refusal is a contradiction exactly when its outcome is impossible. */
  lemma {:induction false} ComponentExactly(group: seq<Op>, balance: nat, maximum: nat)
    requires balance <= 1 && forall op :: op in group ==> Plain(op, maximum)
    ensures var out := Step(group, balance);
            && (out.restriction.None? && out.contradiction.None? <==> Covered(group, balance))
            && (forall c :: out.contradiction == Some(c) <==> Contradicts(group, balance, c))
            && (out.restriction == Some(OverlapOutsideModel) <==> |group| != 1 && !Covered(group, balance))
            && (Covered(group, balance) ==> out.balance == balance + Held(group) <= 1)
  {
    if |group| == 1 {
      assert group == [group[0]] && group[0] in group;
      SingleStepExactly(group[0], balance, maximum);
      hide Step, Covered, Contradicts, Held, Plain;
    } else {
      PairExactly(group, balance);
      if Covered(group, balance) { HeldPair(group); }
      hide Held, Plain;
    }
  }

  /** AGREEMENT, BOTH WAYS. From a balanced ledger without issues, the prefix rule accepts an
      interpretable component exactly when the version-1 ledger raises no issue on it, and then both
      reach the same balance. */
  lemma {:induction false} StepAgreesExactly(e: Epoch, s: V1.Ledger, group: seq<Op>)
    requires S.Balanced(s) && !s.halted && s.issues == {} && 1 <= e.maximum
    requires forall op :: op in group ==> Plain(op, e.maximum)
    ensures Step(group, s.balance).restriction.None? && Step(group, s.balance).contradiction.None? <==>
            !V1.LedgerStep(e, s, group).halted && V1.LedgerStep(e, s, group).issues == {}
    ensures V1.LedgerStep(e, s, group).issues == {} ==>
              V1.LedgerStep(e, s, group).balance == Step(group, s.balance).balance
  {
    forall op | op in group ensures S.Supported(op) { PlainSupported(op, e.maximum); }
    StepExactly(e, s, group);
    ComponentExactly(group, s.balance, e.maximum);
    HaltIsAnIssue(e, s, group);
    hide V1.LedgerStep, Step, Covered, Held, Plain, Contradicts;
  }

  lemma {:induction false} HaltIsAnIssue(e: Epoch, s: V1.Ledger, group: seq<Op>)
    requires !s.halted
    ensures V1.LedgerStep(e, s, group).halted ==> V1.LedgerStep(e, s, group).issues != {}
  {
    if V1.LedgerStep(e, s, group).halted && |group| != 1 {
      assert V1.InEpoch(e.id, V1.OverlapOutsideCoverage) in V1.LedgerStep(e, s, group).issues;
    }
  }

  // -------------------------------------------------------------------- one epoch's scan

  /** Some operation of the component had not ended before the barrier. */
  ghost predicate Reaches(group: seq<Op>, barrier: nat) { exists op :: op in group && op.exit >= barrier }

  /** The credits outstanding before component k. */
  function HeldBefore(groups: seq<seq<Op>>, k: nat): int
    requires k <= |groups|
  {
    Held(Flatten(groups[..k]))
  }

  /** The first k components all ended before the barrier and are covered. */
  ghost predicate Good(groups: seq<seq<Op>>, barrier: nat, k: nat) {
    k <= |groups| &&
    forall i :: 0 <= i < k ==> !Reaches(groups[i], barrier) && Covered(groups[i], HeldBefore(groups, i))
  }

  lemma {:induction false} CrossesReaches(group: seq<Op>, barrier: nat)
    requires group != [] && forall op :: op in group ==> op.entry <= op.exit
    ensures Crosses(group, barrier) <==> Reaches(group, barrier)
  {
    FirstEntryBounds(group);
  }

  lemma {:induction false} BeforeSame(groups: seq<seq<Op>>, k: nat)
    requires groups != [] && k < |groups|
    ensures HeldBefore(groups[..|groups|-1], k) == HeldBefore(groups, k)
  {
    assert groups[..|groups|-1][..k] == groups[..k];
  }

  lemma {:induction false} BeforeAll(groups: seq<seq<Op>>)
    requires groups != []
    ensures HeldBefore(groups, |groups|) == HeldBefore(groups[..|groups|-1], |groups| - 1) + Held(groups[|groups|-1])
  {
    var front := groups[..|groups|-1];
    assert front[..|front|] == front && groups[..|groups|] == groups;
    S.FlattenFront(groups);
    HeldAppend(Flatten(front), groups[|groups|-1]);
  }

  lemma {:induction false} GoodSame(groups: seq<seq<Op>>, barrier: nat, k: nat)
    requires groups != [] && k < |groups|
    ensures Good(groups[..|groups|-1], barrier, k) <==> Good(groups, barrier, k)
  {
    hide Reaches, Covered, HeldBefore;
    forall i | 0 <= i < k ensures HeldBefore(groups[..|groups|-1], i) == HeldBefore(groups, i) {
      BeforeSame(groups, i);
    }
  }

  lemma {:induction false} GoodNext(groups: seq<seq<Op>>, barrier: nat, k: nat)
    requires k < |groups|
    ensures Good(groups, barrier, k + 1) <==>
            Good(groups, barrier, k) && !Reaches(groups[k], barrier) && Covered(groups[k], HeldBefore(groups, k))
  {
    hide Reaches, Covered, HeldBefore;
  }

  lemma {:induction false} HeldSame(groups: seq<seq<Op>>)
    requires groups != []
    ensures forall k: nat :: k < |groups| ==> HeldBefore(groups[..|groups|-1], k) == HeldBefore(groups, k)
  {
    forall k: nat | k < |groups| ensures HeldBefore(groups[..|groups|-1], k) == HeldBefore(groups, k) {
      BeforeSame(groups, k);
    }
  }

  /** What the scan remembers: how far it went, and the last place without a credit. */
  ghost predicate Longest(barrier: nat, groups: seq<seq<Op>>, s: Scan) {
    && s.zero <= s.taken <= |groups| && s.balance <= 1
    && Good(groups, barrier, s.taken) && s.balance == HeldBefore(groups, s.taken)
    && (s.stop.None? ==> s.taken == |groups|)
    && (s.stop.Some? ==> s.taken < |groups| && !Good(groups, barrier, s.taken + 1))
    && HeldBefore(groups, s.zero) == 0
    && (forall k :: s.zero < k <= s.taken ==> HeldBefore(groups, k) != 0)
  }

  lemma {:induction false} LongestStarts(barrier: nat)
    ensures Longest(barrier, [], Scan(0, 0, 0, None))
  {
    assert Flatten([]) == [];
    var none: seq<seq<Op>> := [];
    assert none[..0] == [];
  }

  /** A stopped scan stays as it is. */
  lemma {:induction false} LongestStays(barrier: nat, groups: seq<seq<Op>>, s: Scan)
    requires groups != [] && s.stop.Some? && Longest(barrier, groups[..|groups|-1], s)
    ensures Longest(barrier, groups, s)
  {
    GoodSame(groups, barrier, s.taken);
    GoodSame(groups, barrier, s.taken + 1);
    HeldSame(groups);
    hide Good, HeldBefore;
  }

  /** The last component refused: the scan stops where it was. */
  lemma {:induction false} LongestStops(barrier: nat, groups: seq<seq<Op>>, s: Scan, next: Scan)
    requires groups != [] && s.stop.None? && Longest(barrier, groups[..|groups|-1], s)
    requires next.stop.Some? && next.taken == s.taken && next.zero == s.zero && next.balance == s.balance
    requires !(!Reaches(groups[|groups|-1], barrier) && Covered(groups[|groups|-1], s.balance))
    ensures Longest(barrier, groups, next)
  {
    GoodSame(groups, barrier, s.taken);
    GoodNext(groups, barrier, s.taken);
    HeldSame(groups);
    hide Good, HeldBefore, Reaches, Covered;
  }

  /** The last component accepted. */
  lemma {:induction false} LongestTakes(barrier: nat, groups: seq<seq<Op>>, s: Scan, next: Scan)
    requires groups != [] && s.stop.None? && Longest(barrier, groups[..|groups|-1], s)
    requires !Reaches(groups[|groups|-1], barrier) && Covered(groups[|groups|-1], s.balance)
    requires next.balance == s.balance + Held(groups[|groups|-1]) <= 1
    requires next == Scan(s.taken + 1, if next.balance == 0 then s.taken + 1 else s.zero, next.balance, None)
    ensures Longest(barrier, groups, next)
  {
    GoodSame(groups, barrier, s.taken);
    GoodNext(groups, barrier, s.taken);
    HeldSame(groups);
    BeforeAll(groups);
    hide Good, Held, HeldBefore, Reaches, Covered;
  }

  ghost predicate Bracketed(groups: seq<seq<Op>>) {
    forall i :: 0 <= i < |groups| ==> groups[i] != [] && forall op :: op in groups[i] ==> op.entry <= op.exit
  }

  /** SCAN. The scan takes the longest beginning of covered components that ended before the
      barrier, and remembers the last place in it where no credit was outstanding. */
  lemma {:induction false} ScanLongest(barrier: nat, groups: seq<seq<Op>>, maximum: nat)
    requires Bracketed(groups) && PlainBefore(groups, barrier, maximum)
    ensures Longest(barrier, groups, ScanRun(barrier, groups))
  {
    if groups == [] {
      LongestStarts(barrier);
    } else {
      var front, g := groups[..|groups|-1], groups[|groups|-1];
      PlainFront(groups, barrier, maximum);
      ScanLongest(barrier, front, maximum);
      var s, next := ScanRun(barrier, front), ScanRun(barrier, groups);
      assert next == ScanStep(barrier, s, g);
      CrossesReaches(g, barrier);
      hide PlainBefore, Plain, Longest, Crosses, Reaches, Covered, Held, HeldBefore, Step, Contradicts, ScanRun;
      if s.stop.Some? {
        LongestStays(barrier, groups, s);
      } else {
        BalanceSmall(barrier, front, s);
        if Reaches(g, barrier) {
          LongestStops(barrier, groups, s, next);
        } else {
          ComponentExactly(g, s.balance, maximum);
          if Covered(g, s.balance) {
            LongestTakes(barrier, groups, s, next);
          } else {
            LongestStops(barrier, groups, s, next);
          }
        }
      }
    }
  }

  lemma {:induction false} BalanceSmall(barrier: nat, groups: seq<seq<Op>>, s: Scan)
    requires Longest(barrier, groups, s)
    ensures s.balance <= 1
  {
  }

  /** Why the scan stopped, told from the refused component alone. */
  ghost predicate Explains(barrier: nat, groups: seq<seq<Op>>, s: Scan) {
    s.stop.Some? ==>
      && s.taken < |groups|
      && var g, held, stop := groups[s.taken], HeldBefore(groups, s.taken), s.stop.value;
      && (stop.reason.TouchesBarrier? <==> Reaches(g, barrier))
      && (forall c :: stop.reason == Contradicted(c) <==> !Reaches(g, barrier) && Contradicts(g, held, c))
      && (stop.reason == Restricted(OverlapOutsideModel) <==> !Reaches(g, barrier) && |g| != 1)
      && (stop.qpc == if FirstEntry(g) < barrier then FirstEntry(g) else barrier)
      && !stop.reason.FrozenBarrier? && !stop.reason.RolledBack?
  }

  lemma {:induction false} StopExplained(barrier: nat, s: Scan, g: seq<Op>, maximum: nat)
    requires s.stop.None? && s.balance <= 1 && ScanStep(barrier, s, g).stop.Some?
    requires g != [] && forall op :: op in g ==> op.entry <= op.exit
    requires !Crosses(g, barrier) ==> forall op :: op in g ==> Plain(op, maximum)
    ensures var stop := ScanStep(barrier, s, g).stop.value;
            && (stop.reason.TouchesBarrier? <==> Reaches(g, barrier))
            && (forall c :: stop.reason == Contradicted(c) <==> !Reaches(g, barrier) && Contradicts(g, s.balance, c))
            && (stop.reason == Restricted(OverlapOutsideModel) <==> !Reaches(g, barrier) && |g| != 1)
            && (stop.qpc == if FirstEntry(g) < barrier then FirstEntry(g) else barrier)
            && !stop.reason.FrozenBarrier? && !stop.reason.RolledBack?
  {
    CrossesReaches(g, barrier);
    FirstEntryBounds(g);
    if !Crosses(g, barrier) {
      ComponentExactly(g, s.balance, maximum);
      hide Step, Covered, Plain, Held, FirstEntry;
      forall c { SingleOnly(g, s.balance, c); }
      assert FirstEntry(g) < barrier;
    }
    hide Step, Covered, Plain, Held, FirstEntry, Reaches, Contradicts;
  }

  lemma {:induction false} SingleOnly(group: seq<Op>, held: int, c: Contradiction)
    ensures Contradicts(group, held, c) ==> |group| == 1
  {
  }

  lemma {:induction false} ScanMoves(barrier: nat, s: Scan, g: seq<Op>)
    ensures var next := ScanStep(barrier, s, g);
            (s.stop.Some? ==> next == s) && (next.stop.Some? ==> next.taken == s.taken)
  {
  }

  lemma {:induction false} ExplainsStays(barrier: nat, groups: seq<seq<Op>>, s: Scan)
    requires groups != [] && Explains(barrier, groups[..|groups|-1], s)
    ensures Explains(barrier, groups, s)
  {
    HeldSame(groups);
    hide HeldBefore, Reaches, Contradicts, FirstEntry;
  }

  /** STOP. The reason and clock of a stopped scan are those of the first component that reaches the
      barrier or is not covered. */
  lemma {:induction false} ScanExplained(barrier: nat, groups: seq<seq<Op>>, maximum: nat)
    requires Bracketed(groups) && PlainBefore(groups, barrier, maximum)
    ensures Explains(barrier, groups, ScanRun(barrier, groups))
  {
    if groups == [] {
    } else {
      var front, g := groups[..|groups|-1], groups[|groups|-1];
      PlainFront(groups, barrier, maximum);
      ScanExplained(barrier, front, maximum);
      ScanLongest(barrier, front, maximum);
      var s := ScanRun(barrier, front);
      assert ScanRun(barrier, groups) == ScanStep(barrier, s, g);
      ScanMoves(barrier, s, g);
      assert g != [] && forall op :: op in g ==> op.entry <= op.exit;
      hide PlainBefore, Plain, Crosses, Covered, Held, Step, ScanRun, Good, Flatten, FirstEntry, ScanStep, Bracketed,
           Reaches, Contradicts;
      if s.stop.Some? {
        hide Longest, Explains;
        ExplainsStays(barrier, groups, s);
      } else if ScanStep(barrier, s, g).stop.Some? {
        LastExplained(barrier, groups, s, maximum);
      }
    }
  }

  lemma {:induction false} LastExplained(barrier: nat, groups: seq<seq<Op>>, s: Scan, maximum: nat)
    requires groups != [] && s.stop.None? && Longest(barrier, groups[..|groups|-1], s)
    requires var g := groups[|groups|-1];
             && g != [] && (forall op :: op in g ==> op.entry <= op.exit) && ScanStep(barrier, s, g).stop.Some?
             && (!Crosses(g, barrier) ==> forall op :: op in g ==> Plain(op, maximum))
    ensures Explains(barrier, groups, ScanStep(barrier, s, groups[|groups|-1]))
  {
    var g := groups[|groups|-1];
    StopExplained(barrier, s, g, maximum);
    ScanMoves(barrier, s, g);
    BeforeSame(groups, s.taken);
    hide Plain, Crosses, Covered, Step, Good, FirstEntry, ScanStep, Reaches, Contradicts, HeldBefore;
  }

  // -------------------------------------------------------------- one epoch of a journal

  lemma {:induction false} EpochBracketed(j: Journal, e: Epoch)
    requires Healthy(j) && e in j.epochs
    ensures Bracketed(Groups(j, e)) && PlainBefore(Groups(j, e), Barrier(j), e.maximum)
    ensures InOrder(Groups(j, e))
  {
    GroupsInOrder(j, e);
    GroupsPlain(j, e);
    hide Groups, Healthy, Plain, Crosses, Barrier;
  }

  /** LONGEST PREFIX. What is retained of an epoch is its longest beginning of whole components that
      all ended before the barrier, are covered, and together leave no credit outstanding. */
  lemma {:induction false} PrefixIsLongest(j: Journal, e: Epoch)
    requires Healthy(j) && e in j.epochs
    ensures var n := ScanRun(Barrier(j), Groups(j, e)).zero;
            && Good(Groups(j, e), Barrier(j), n) && Prefix(j, e) == Flatten(Groups(j, e)[..n])
            && HeldBefore(Groups(j, e), n) == 0
            && (forall k: nat :: Good(Groups(j, e), Barrier(j), k) && HeldBefore(Groups(j, e), k) == 0 ==> k <= n)
  {
    EpochBracketed(j, e);
    ScanLongest(Barrier(j), Groups(j, e), e.maximum);
    KeptDef(j, e);
    LongestMeans(Barrier(j), Groups(j, e), ScanRun(Barrier(j), Groups(j, e)));
    hide *;
  }

  lemma {:induction false} GoodShorter(groups: seq<seq<Op>>, barrier: nat, k: nat, n: nat)
    requires Good(groups, barrier, k) && n <= k
    ensures Good(groups, barrier, n)
  {
  }

  lemma {:induction false} LongestMeans(barrier: nat, groups: seq<seq<Op>>, s: Scan)
    requires Longest(barrier, groups, s)
    ensures s.zero <= |groups| && Good(groups, barrier, s.zero) && HeldBefore(groups, s.zero) == 0
    ensures forall k: nat :: Good(groups, barrier, k) && HeldBefore(groups, k) == 0 ==> k <= s.zero
    ensures forall k: nat :: Good(groups, barrier, k) ==> k <= s.taken
  {
    GoodShorter(groups, barrier, s.taken, s.zero);
    forall k: nat | Good(groups, barrier, k) ensures k <= s.taken {
      if k > s.taken { GoodShorter(groups, barrier, k, s.taken + 1); }
    }
    hide HeldBefore, Reaches, Covered;
  }

  /** BOUNDARY. The exclusive end is the earliest of the barrier and the start of anything the prefix
      left out; it is called frozen exactly when the whole epoch was accepted and nothing rolled back. */
  lemma {:induction false} EndIsEarliest(j: Journal, e: Epoch)
    requires Healthy(j) && e in j.epochs
    ensures PrefixEnd(j, e).qpc <= Barrier(j)
    ensures forall op :: op in EpochSpans(j, e) && op !in Prefix(j, e) ==> PrefixEnd(j, e).qpc <= op.entry
    ensures PrefixEnd(j, e).qpc == Barrier(j) ||
            exists op :: op in EpochSpans(j, e) && op !in Prefix(j, e) && op.entry == PrefixEnd(j, e).qpc
    ensures PrefixEnd(j, e).reason.FrozenBarrier? ==> Prefix(j, e) == EpochSpans(j, e) && PrefixEnd(j, e).qpc == Barrier(j)
    ensures Prefix(j, e) == EpochSpans(j, e) ==> PrefixEnd(j, e).reason.FrozenBarrier?
  {
    PrefixSplits(j, e);
    EpochBracketed(j, e);
    ScanLongest(Barrier(j), Groups(j, e), e.maximum);
    ScanExplained(Barrier(j), Groups(j, e), e.maximum);
    KeptDef(j, e);
    GroupsTidy(j, e);
    hide Healthy, Groups, Prefix, PrefixEnd, EpochSpans, Barrier, Good, Held, Covered, Reaches, Contradicts, Crosses, Plain,
         PlainBefore, Separated, ScanRun, StopOf;
    EndAttained(Barrier(j), Groups(j, e), EpochSpans(j, e));
  }

  lemma {:induction false} FirstOf(groups: seq<seq<Op>>, k: nat) returns (op: Op)
    requires InOrder(groups) && k < |groups|
    ensures op in groups[k] && op.entry == FirstEntry(groups[k])
    ensures op in Flatten(groups)
  {
    FirstEntryBounds(groups[k]);
    op :| op in groups[k] && op.entry == FirstEntry(groups[k]);
    FlattenMember(groups, k, op);
  }

  /** What starts a component is in no other one. */
  lemma {:induction false} NotEarlier(groups: seq<seq<Op>>, n: nat, k: nat, op: Op)
    requires InOrder(groups) && n <= k < |groups| && op in groups[k]
    ensures op !in Flatten(groups[..n])
  {
    MemberSide(groups, n, op);
    forall i | 0 <= i < n ensures op !in groups[i] {
    }
    hide Flatten;
  }

  lemma {:induction false} WholeFlatten(groups: seq<seq<Op>>, n: nat)
    requires InOrder(groups) && n <= |groups|
    ensures Flatten(groups[..n]) == Flatten(groups) <==> n == |groups|
  {
    if n < |groups| {
      var op := FirstOf(groups, n);
      NotEarlier(groups, n, n, op);
    } else {
      assert groups[..n] == groups;
    }
  }

  lemma {:induction false} EndAttained(barrier: nat, groups: seq<seq<Op>>, spans: seq<Op>)
    requires InOrder(groups) && Flatten(groups) == spans
    requires Longest(barrier, groups, ScanRun(barrier, groups)) && Explains(barrier, groups, ScanRun(barrier, groups))
    ensures var stop, kept := StopOf(barrier, groups), Flatten(groups[..ScanRun(barrier, groups).zero]);
            && (stop.qpc == barrier || exists op :: op in spans && op !in kept && op.entry == stop.qpc)
            && (stop.reason.FrozenBarrier? <==> kept == spans)
            && (stop.reason.FrozenBarrier? ==> stop.qpc == barrier)
  {
    var s := ScanRun(barrier, groups);
    WholeFlatten(groups, s.zero);
    hide InOrder, Reaches, Contradicts, Good, HeldBefore, ScanRun;
    if s.stop.Some? {
      var op := FirstOf(groups, s.taken);
      NotEarlier(groups, s.zero, s.taken, op);
    }
    if s.zero < s.taken {
      TailStart(groups, s.zero, s.taken);
      var op := FirstOf(groups, s.zero);
      NotEarlier(groups, s.zero, s.zero, op);
    }
    hide Flatten, FirstEntry;
  }

  /** REASON. A prefix short of the whole epoch was rolled back when the next component was still
      covered and ended before the barrier; otherwise that component reaches the barrier, has an
      impossible outcome, or is an overlap or a batch outside the model. */
  lemma {:induction false} EndReason(j: Journal, e: Epoch)
    requires Healthy(j) && e in j.epochs
    ensures var groups, n, reason := Groups(j, e), ScanRun(Barrier(j), Groups(j, e)).zero, PrefixEnd(j, e).reason;
            n < |groups| ==>
              var next, held := groups[n], HeldBefore(groups, n);
              && (reason.RolledBack? <==> !Reaches(next, Barrier(j)) && Covered(next, held))
              && (reason.TouchesBarrier? <==> Reaches(next, Barrier(j)))
              && (forall c :: reason == Contradicted(c) <==> !Reaches(next, Barrier(j)) && Contradicts(next, held, c))
              && (reason == Restricted(OverlapOutsideModel) <==>
                    !Reaches(next, Barrier(j)) && |next| != 1 && !Covered(next, held))
  {
    EpochBracketed(j, e);
    ScanLongest(Barrier(j), Groups(j, e), e.maximum);
    ScanExplained(Barrier(j), Groups(j, e), e.maximum);
    KeptDef(j, e);
    hide Healthy, Groups, Prefix, PrefixEnd, Barrier, ScanRun;
    ReasonExplained(Barrier(j), Groups(j, e));
  }

  lemma {:induction false} ReasonExplained(barrier: nat, groups: seq<seq<Op>>)
    requires Longest(barrier, groups, ScanRun(barrier, groups)) && Explains(barrier, groups, ScanRun(barrier, groups))
    ensures var n, reason := ScanRun(barrier, groups).zero, StopOf(barrier, groups).reason;
            n < |groups| ==>
              var next, held := groups[n], HeldBefore(groups, n);
              && (reason.RolledBack? <==> !Reaches(next, barrier) && Covered(next, held))
              && (reason.TouchesBarrier? <==> Reaches(next, barrier))
              && (forall c :: reason == Contradicted(c) <==> !Reaches(next, barrier) && Contradicts(next, held, c))
              && (reason == Restricted(OverlapOutsideModel) <==> !Reaches(next, barrier) && |next| != 1 && !Covered(next, held))
  {
    var s := ScanRun(barrier, groups);
    hide ScanRun, Reaches, HeldBefore, Covered, Contradicts, FirstEntry, Flatten;
    if s.zero < |groups| {
      GoodNext(groups, barrier, s.zero);
      if s.zero < s.taken { GoodShorter(groups, barrier, s.taken, s.zero + 1); }
      forall c { CoveredIsPossible(groups[s.zero], HeldBefore(groups, s.zero), c); }
      hide Good;
    }
  }

  // ---------------------------------------------------------------- the whole report

  /** BARRIER. It is the freeze itself or the admission clock of some pending, unsupported or lost
      operation, and none of those is earlier. */
  lemma {:induction false} BarrierExactly(j: Journal)
    ensures Barrier(j) <= j.freeze
    ensures forall row :: row in j.operations && (!row.completed || Unsupported(row)) && row.entry.Some? ==>
              Barrier(j) <= row.entry.value
    ensures forall loss :: loss in j.losses && loss.bound.Some? ==> Barrier(j) <= loss.bound.value
    ensures Barrier(j) == j.freeze ||
            (exists row :: row in j.operations && (!row.completed || Unsupported(row)) && row.entry == Some(Barrier(j))) ||
            (exists loss :: loss in j.losses && loss.bound == Some(Barrier(j)))
  {
    RowBarrierBounds(j.operations, j.freeze);
    LossBarrierBounds(j.losses, RowBarrier(j.operations, j.freeze));
    hide Unsupported, RowBarrier, LossBarrier;
  }

  /** The frozen metadata leaves nothing open: the inventory is whole, every lifetime was created in
      view, fresh and without credits, no pointer was reused early, and every needed clock is known. */
  ghost predicate FullyObserved(j: Journal) {
    && j.inventoryComplete && !j.observerFailed && !j.coverageGap
    && (forall e :: e in j.epochs ==> j.begin < e.creation && e.origin == Fresh && e.historyComplete && e.initial == 0)
    && (forall i, k :: 0 <= i < k < |j.epochs| && j.epochs[i].cookie == j.epochs[k].cookie ==>
          EndsBefore(j.epochs[i], j.epochs[k]) || EndsBefore(j.epochs[k], j.epochs[i]))
    && (forall row :: row in j.operations ==> row.entry.Some? && (row.completed ==> row.exit.Some?))
    && (forall loss :: loss in j.losses ==> loss.bound.Some?)
  }

  lemma {:induction false} LifetimesExactly(j: Journal, epochs: seq<Epoch>)
    ensures AllLifetimeIssues(j, epochs) == {} <==>
            forall e :: e in epochs ==> j.begin < e.creation && e.origin == Fresh && e.historyComplete && e.initial == 0
  {
    hide LifetimeIssues;
    if epochs != [] {
      var front, last := epochs[..|epochs|-1], epochs[|epochs|-1];
      LifetimesExactly(j, front);
      FreshExactly(j, last);
      assert epochs == front + [last];
    }
  }

  lemma {:induction false} FreshExactly(j: Journal, e: Epoch)
    ensures LifetimeIssues(j, e) == {} <==>
            j.begin < e.creation && e.origin == Fresh && e.historyComplete && e.initial == 0
  {
    NoLifetimeIssue(j, e);
  }

  lemma {:induction false} ReuseExactly(j: Journal)
    requires WellShaped(j)
    ensures AdjacentReuse(SortEpochs(j.epochs)) <==>
            exists i, k :: 0 <= i < k < |j.epochs| && j.epochs[i].cookie == j.epochs[k].cookie &&
              !EndsBefore(j.epochs[i], j.epochs[k]) && !EndsBefore(j.epochs[k], j.epochs[i])
  {
    forall e | e in j.epochs && e.destroy.Some? ensures e.creation < e.destroy.value { assert EpochValid(j, e); }
    I.AdjacentReuseIsAnyClash(j.epochs);
    forall i, k | 0 <= i < k < |j.epochs|
      ensures V1.CookieClash(j.epochs[i], j.epochs[k]) <==>
              j.epochs[i].cookie == j.epochs[k].cookie &&
              !EndsBefore(j.epochs[i], j.epochs[k]) && !EndsBefore(j.epochs[k], j.epochs[i])
    {
      assert EpochValid(j, j.epochs[i]) && EpochValid(j, j.epochs[k]);
    }
    hide V1.CookieClash, EndsBefore, EpochValid, AdjacentReuse, SortEpochs;
  }

  lemma {:induction false} MetadataParts(j: Journal)
    ensures MetadataIssues(j) == {} <==>
            j.inventoryComplete && !j.observerFailed && !j.coverageGap && AllLifetimeIssues(j, j.epochs) == {} &&
            !AdjacentReuse(SortEpochs(j.epochs)) && !(exists row :: row in j.operations && ClockUnknown(row)) &&
            !(exists loss :: loss in j.losses && loss.bound.None?)
  {
    hide AllLifetimeIssues, AdjacentReuse, SortEpochs, ClockUnknown;
    var issues := MetadataIssues(j);
    assert !j.inventoryComplete ==> AdmissionInventoryIncomplete in issues;
    assert j.observerFailed ==> ObserverFailed in issues;
    assert j.coverageGap ==> UnboundedCoverageGap in issues;
    assert AdjacentReuse(SortEpochs(j.epochs)) ==> CookieReuse in issues;
    assert (exists row :: row in j.operations && ClockUnknown(row)) ==> UnknownOperationClock in issues;
    assert (exists loss :: loss in j.losses && loss.bound.None?) ==> LossWithoutBound in issues;
    assert AllLifetimeIssues(j, j.epochs) <= issues;
  }

  /** METADATA. A well-shaped journal's metadata raises no issue exactly when it was fully observed. */
  lemma {:induction false} MetadataExactly(j: Journal)
    requires WellShaped(j)
    ensures MetadataIssues(j) == {} <==> FullyObserved(j)
  {
    MetadataParts(j);
    LifetimesExactly(j, j.epochs);
    ReuseExactly(j);
    hide MetadataIssues, AllLifetimeIssues, AdjacentReuse, SortEpochs, WellShaped, EndsBefore;
  }

  lemma {:induction false} LifetimeFrom(j: Journal, epochs: seq<Epoch>, i: Issue)
    ensures i in AllLifetimeIssues(j, epochs) <==> exists e :: e in epochs && i in LifetimeIssues(j, e)
  {
    hide LifetimeIssues;
    if epochs != [] {
      var front, last := epochs[..|epochs|-1], epochs[|epochs|-1];
      LifetimeFrom(j, front, i);
      assert epochs == front + [last];
    }
  }

  lemma {:induction false} LifetimeCodes(j: Journal, e: Epoch)
    ensures CreationNotAfterObserverStart in LifetimeIssues(j, e) <==> e.creation <= j.begin
    ensures FreshCoverageRequired in LifetimeIssues(j, e) <==> e.origin != Fresh || !e.historyComplete
    ensures InitialCredits in LifetimeIssues(j, e) <==> e.initial != 0
    ensures LifetimeIssues(j, e) <= {CreationNotAfterObserverStart, FreshCoverageRequired, InitialCredits}
  {
  }

  lemma {:induction false} OutsideLifetimes(j: Journal, i: Issue)
    ensures i in MetadataIssues(j) <==>
            i in AllLifetimeIssues(j, j.epochs) ||
            (i == AdmissionInventoryIncomplete && !j.inventoryComplete) || (i == ObserverFailed && j.observerFailed) ||
            (i == UnboundedCoverageGap && j.coverageGap) ||
            (i == CookieReuse && AdjacentReuse(SortEpochs(j.epochs))) ||
            (i == UnknownOperationClock && exists row :: row in j.operations && ClockUnknown(row)) ||
            (i == LossWithoutBound && exists loss :: loss in j.losses && loss.bound.None?)
  {
    hide AllLifetimeIssues, AdjacentReuse, SortEpochs, ClockUnknown;
  }

  lemma {:induction false} LifetimeKinds(j: Journal, i: Issue)
    ensures i in AllLifetimeIssues(j, j.epochs) ==>
              i in {CreationNotAfterObserverStart, FreshCoverageRequired, InitialCredits}
  {
    LifetimeFrom(j, j.epochs, i);
    forall e { LifetimeCodes(j, e); }
    hide AllLifetimeIssues, LifetimeIssues;
  }

  /** METADATA DIAGNOSES. Each metadata issue is raised exactly for its own fault. */
  lemma {:induction false} MetadataDiagnoses(j: Journal)
    requires WellShaped(j)
    ensures var issues := MetadataIssues(j);
            && (AdmissionInventoryIncomplete in issues <==> !j.inventoryComplete)
            && (ObserverFailed in issues <==> j.observerFailed)
            && (UnboundedCoverageGap in issues <==> j.coverageGap)
            && (CookieReuse in issues <==> V1.AnyCookieClash(j.epochs))
            && (UnknownOperationClock in issues <==>
                  exists row :: row in j.operations && (row.entry.None? || (row.completed && row.exit.None?)))
            && (LossWithoutBound in issues <==> exists loss :: loss in j.losses && loss.bound.None?)
  {
    forall e | e in j.epochs && e.destroy.Some? ensures e.creation < e.destroy.value { assert EpochValid(j, e); }
    I.AdjacentReuseIsAnyClash(j.epochs);
    hide AllLifetimeIssues, AdjacentReuse, SortEpochs, V1.AnyCookieClash, WellShaped, EpochValid, MetadataIssues;
    OutsideLifetimes(j, AdmissionInventoryIncomplete);
    LifetimeKinds(j, AdmissionInventoryIncomplete);
    OutsideLifetimes(j, ObserverFailed);
    LifetimeKinds(j, ObserverFailed);
    OutsideLifetimes(j, UnboundedCoverageGap);
    LifetimeKinds(j, UnboundedCoverageGap);
    OutsideLifetimes(j, CookieReuse);
    LifetimeKinds(j, CookieReuse);
    OutsideLifetimes(j, UnknownOperationClock);
    LifetimeKinds(j, UnknownOperationClock);
    OutsideLifetimes(j, LossWithoutBound);
    LifetimeKinds(j, LossWithoutBound);
  }

  lemma {:induction false} LifetimeDiagnosesFrom(j: Journal)
    ensures var issues := MetadataIssues(j);
            && (CreationNotAfterObserverStart in issues <==> exists e :: e in j.epochs && e.creation <= j.begin)
            && (FreshCoverageRequired in issues <==>
                  exists e :: e in j.epochs && (e.origin != Fresh || !e.historyComplete))
            && (InitialCredits in issues <==> exists e :: e in j.epochs && e.initial != 0)
  {
    hide AllLifetimeIssues, LifetimeIssues, MetadataIssues;
    OutsideLifetimes(j, CreationNotAfterObserverStart);
    LifetimeFrom(j, j.epochs, CreationNotAfterObserverStart);
    OutsideLifetimes(j, FreshCoverageRequired);
    LifetimeFrom(j, j.epochs, FreshCoverageRequired);
    OutsideLifetimes(j, InitialCredits);
    LifetimeFrom(j, j.epochs, InitialCredits);
    forall e { LifetimeCodes(j, e); }
  }

  /** Component k ended before the barrier, only covered ones precede it, and its outcome is impossible. */
  ghost predicate ContradictedAt(groups: seq<seq<Op>>, barrier: nat, k: nat, c: Contradiction) {
    k < |groups| && Good(groups, barrier, k) && !Reaches(groups[k], barrier) &&
    Contradicts(groups[k], HeldBefore(groups, k), c)
  }

  ghost predicate Uncontradicted(j: Journal, e: Epoch) {
    forall k: nat, c :: !ContradictedAt(Groups(j, e), Barrier(j), k, c)
  }

  lemma {:induction false} CoveredIsPossible(group: seq<Op>, held: int, c: Contradiction)
    ensures Covered(group, held) ==> !Contradicts(group, held, c)
  {
  }

  lemma {:induction false} ContradictionFound(barrier: nat, groups: seq<seq<Op>>, s: Scan)
    requires Longest(barrier, groups, s) && Explains(barrier, groups, s)
    ensures s.stop.Some? && s.stop.value.reason.Contradicted? <==>
            exists k: nat, c :: ContradictedAt(groups, barrier, k, c)
  {
    hide Reaches, HeldBefore, Covered, Contradicts, FirstEntry;
    forall k: nat, c | ContradictedAt(groups, barrier, k, c)
      ensures s.stop.Some? && s.stop.value.reason == Contradicted(c)
    {
      LongestMeans(barrier, groups, s);
      CoveredIsPossible(groups[k], HeldBefore(groups, k), c);
      assert k == s.taken;
    }
    if s.stop.Some? && s.stop.value.reason.Contradicted? {
      assert s.stop.value.reason == Contradicted(s.stop.value.reason.c);
      assert ContradictedAt(groups, barrier, s.taken, s.stop.value.reason.c);
    }
  }

  lemma {:induction false} EpochIssueExactly(j: Journal, e: Epoch)
    requires Healthy(j) && e in j.epochs
    ensures EpochIssue(j, e) == {} <==> Uncontradicted(j, e)
  {
    EpochBracketed(j, e);
    ScanLongest(Barrier(j), Groups(j, e), e.maximum);
    ScanExplained(Barrier(j), Groups(j, e), e.maximum);
    ContradictionFound(Barrier(j), Groups(j, e), ScanRun(Barrier(j), Groups(j, e)));
    hide Healthy, Groups, Barrier, ScanRun, ContradictedAt, Longest, Explains;
    var c := ContradictionOf(ScanRun(Barrier(j), Groups(j, e)));
    if c.Some? { assert InEpoch(e.id, c.value) in EpochIssue(j, e); }
  }

  lemma {:induction false} EpochIssuesExactly(j: Journal, epochs: seq<Epoch>)
    requires Healthy(j) && forall e :: e in epochs ==> e in j.epochs
    ensures EpochIssues(j, epochs) == {} <==> forall e :: e in epochs ==> Uncontradicted(j, e)
  {
    hide Healthy, EpochIssue, Uncontradicted;
    if epochs != [] {
      var front, last := epochs[..|epochs|-1], epochs[|epochs|-1];
      assert epochs == front + [last];
      EpochIssuesExactly(j, front);
      EpochIssueExactly(j, last);
    }
  }

  /** PASSES. A well-shaped journal with an exact inventory is reported without an issue exactly when
      it was fully observed and no epoch is contradicted ahead of the barrier. */
  lemma {:induction false} ReportPassesExactly(j: Journal)
    requires WellShaped(j) && InventoryExact(j)
    ensures ReportOf(j).Audited? && ReportOf(j).barrier == Barrier(j)
    ensures ReportOf(j).issues == {} <==> FullyObserved(j) && forall e :: e in j.epochs ==> Uncontradicted(j, e)
    ensures ReportOf(j).issues != {} ==> ReportOf(j).associations == [] && ReportOf(j).consumptions == []
  {
    MetadataExactly(j);
    if MetadataIssues(j) == {} { EpochIssuesExactly(j, j.epochs); }
    hide WellShaped, InventoryExact, MetadataIssues, FullyObserved, Uncontradicted, EpochIssues, Matches, V1.Updates,
         Summaries, Retained, Barrier, Identities;
  }

  /** EXCLUDED. Of a report without issues, exactly the operations outside every epoch's prefix are
      listed as excluded; with an issue, all are. */
  lemma {:induction false} ExcludedExactly(j: Journal, id: nat)
    requires WellShaped(j) && InventoryExact(j)
    ensures id in ReportOf(j).excluded <==>
            (exists row :: row in j.operations && row.id == id) &&
            (ReportOf(j).issues == {} ==>
               !exists e, op :: e in j.epochs && op in Prefix(j, e) && op.id == id)
  {
    RetainedFrom(j, j.epochs, id);
    hide WellShaped, InventoryExact, MetadataIssues, EpochIssues, Matches, V1.Updates, Summaries, Retained, Barrier, Prefix;
  }

  lemma {:induction false} RetainedFrom(j: Journal, epochs: seq<Epoch>, id: nat)
    ensures id in Retained(j, epochs) <==> exists e, op :: e in epochs && op in Prefix(j, e) && op.id == id
  {
    hide Prefix;
    if epochs != [] {
      var front, last := epochs[..|epochs|-1], epochs[|epochs|-1];
      assert epochs == front + [last];
      RetainedFrom(j, front, id);
    }
  }

  lemma {:induction false} KeptLinearizes(j: Journal, e: Epoch)
    requires Healthy(j) && e in j.epochs
    ensures L.Linearizes(Prefix(j, e), S.Canonical(Kept(j, e)))
  {
    hide *;
    PrefixClean(j, e);
    PrefixOrdered(j, e);
    PrefixBegins(j, e);
    ComponentsChained(Prefix(j, e));
    T.PrefixTidy(j, e);
    S.CanonicalLinearizes(e, Kept(j, e));
  }

  /** COVERAGE. The consumptions of a retained prefix pair all its successful waits with all its
      successful releases, one to one. */
  lemma {:induction false} PrefixMatched(j: Journal, e: Epoch)
    requires Healthy(j) && e in j.epochs
    ensures S.PerfectMatching(PrefixMatches(j, e), Prefix(j, e))
    ensures forall op :: !S.LeftOver(PrefixMatches(j, e), Prefix(j, e), op)
  {
    var kept := Kept(j, e);
    var order, s := S.Canonical(kept), V1.LedgerRun(e, kept);
    PrefixClean(j, e);
    PrefixOrdered(j, e);
    KeptDef(j, e);
    KeptLinearizes(j, e);
    S.LedgerAccounts(e, kept);
    S.LedgerBalanced(e, kept);
    assert PrefixMatches(j, e) == s.matches;
    assert multiset(Prefix(j, e)) == multiset(order);
    hide *;
    S.UniqueOrder(Prefix(j, e), order);
    S.AccountsPerfect(e, s, order);
    SameElements(Prefix(j, e), order);
    MatchingMoves(e, s, order, Prefix(j, e));
  }

  lemma {:induction false} MatchingMoves(e: Epoch, s: V1.Ledger, a: seq<Op>, b: seq<Op>)
    requires S.PerfectMatching(s.matches, a) && S.Accounts(e, s, a) && S.Balanced(s) && s.balance == 0
    requires forall op :: op in a <==> op in b
    ensures S.PerfectMatching(s.matches, b) && forall op :: !S.LeftOver(s.matches, b, op)
  {
    S.FilterMembers(a);
    assert S.Unmatched(s) == [];
    assert S.Releases(s.matches) + [] == S.Releases(s.matches);
    hide S.Releases, S.Waits, S.Credits, S.Successes;
  }
}
