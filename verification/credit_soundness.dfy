/** The version-1 audit is sound against every linearization: an issue-free ledger
    leaves one possible order of the operations and one possible source of every credit. */
module CreditSoundness {
  import opened Options
  import opened Distinctness
  import opened SemaphoreJournal
  import opened Linearization
  import opened CreditAudit

  predicate Supported(op: Op) {
    match op.payload
    case Release(count, success, _, _) => count >= 1 && success.Some?
    case Wait(_) => true
    case Other(_) => false
  }

  /** The ledger of these components ran to its end without an issue. */
  ghost predicate Clean(e: Epoch, groups: seq<seq<Op>>) {
    && e.initial == 0 && 1 <= e.maximum
    && !LedgerRun(e, groups).halted && LedgerRun(e, groups).issues == {}
    && forall i, op :: 0 <= i < |groups| && op in groups[i] ==> Supported(op)
  }

  ghost predicate Tidy(groups: seq<seq<Op>>) {
    && Separated(groups)
    && WellBracketed(Flatten(groups))
    && forall i :: 0 <= i < |groups| ==> groups[i] != []
  }

  ghost function CreditsOf(s: Ledger): Pool {
    if s.pending.Some? then multiset{s.pending.value.id} else multiset{}
  }

  /** Invariant of an issue-free ledger: the balance counts the one pending release, if any. */
  ghost predicate Balanced(s: Ledger) {
    && s.balance == (if s.pending.Some? then 1 else 0)
    && (s.pending.Some? ==> s.pending.value.Released())
  }

  ghost predicate Follows(matches: seq<Match>, uses: map<nat, nat>) {
    forall m :: m in matches ==> m.wait.id in uses && uses[m.wait.id] == m.release.id
  }

  /** The only order an overlap pair can have happened in. */
  function CanonicalGroup(group: seq<Op>): seq<Op> {
    if PairShape(group) then [ReleaseOf(group), WaitOf(group)] else group
  }

  function Canonical(groups: seq<seq<Op>>): seq<Op> {
    if groups == [] then [] else Canonical(groups[..|groups|-1]) + CanonicalGroup(groups[|groups|-1])
  }

  lemma {:induction false} CleanFront(e: Epoch, groups: seq<seq<Op>>)
    requires Clean(e, groups) && groups != []
    ensures Clean(e, groups[..|groups|-1])
    ensures |groups[|groups|-1]| == 1 ||
            IsolatedPair(groups[|groups|-1], LedgerRun(e, groups[..|groups|-1]).balance)
  {
    var front := groups[..|groups|-1];
    assert LedgerRun(e, groups) == LedgerStep(e, LedgerRun(e, front), groups[|groups|-1]);
  }

  lemma {:induction false} LedgerBalanced(e: Epoch, groups: seq<seq<Op>>)
    requires Clean(e, groups)
    ensures Balanced(LedgerRun(e, groups))
  {
    if groups != [] {
      CleanFront(e, groups);
      LedgerBalanced(e, groups[..|groups|-1]);
      assert |groups[|groups|-1]| == 1 ==> groups[|groups|-1][0] in groups[|groups|-1];
    }
  }

  lemma {:induction false} FlattenFront(groups: seq<seq<Op>>)
    requires groups != []
    ensures Flatten(groups) == Flatten(groups[..|groups|-1]) + groups[|groups|-1]
  {
  }

  lemma {:induction false} WellBracketedFront(early: seq<Op>, late: seq<Op>)
    requires WellBracketed(early + late)
    ensures WellBracketed(early) && WellBracketed(late)
  {
    assert forall i :: 0 <= i < |early| ==> (early + late)[i] == early[i];
    assert forall i :: 0 <= i < |late| ==> (early + late)[|early| + i] == late[i];
  }

  lemma {:induction false} FrontEndsEarlier(groups: seq<seq<Op>>, a: Op, b: Op)
    requires Separated(groups) && groups != []
    requires a in Flatten(groups[..|groups|-1]) && b in groups[|groups|-1]
    ensures a.exit < b.entry
  {
    hide Flatten;
    var i := GroupOf(groups[..|groups|-1], a);
    assert a in groups[i];
  }

  lemma {:induction false} SeparatedFront(groups: seq<seq<Op>>)
    requires Separated(groups) && groups != []
    ensures Separated(groups[..|groups|-1])
  {
  }

  lemma {:induction false} TidyFront(groups: seq<seq<Op>>)
    requires Tidy(groups) && groups != []
    ensures Tidy(groups[..|groups|-1])
    ensures Flatten(groups) == Flatten(groups[..|groups|-1]) + groups[|groups|-1]
    ensures WellBracketed(Flatten(groups[..|groups|-1])) && WellBracketed(groups[|groups|-1])
    ensures forall a, b :: a in Flatten(groups[..|groups|-1]) && b in groups[|groups|-1] ==> a.exit < b.entry
  {
    hide Flatten, Separated, WellBracketed;
    FlattenFront(groups);
    SeparatedFront(groups);
    WellBracketedFront(Flatten(groups[..|groups|-1]), groups[|groups|-1]);
    forall a, b | a in Flatten(groups[..|groups|-1]) && b in groups[|groups|-1] ensures a.exit < b.entry {
      FrontEndsEarlier(groups, a, b);
    }
  }

  lemma {:induction false} GroupOf(groups: seq<seq<Op>>, op: Op) returns (i: nat)
    requires op in Flatten(groups)
    ensures i < |groups| && op in groups[i]
  {
    if op in groups[|groups|-1] {
      i := |groups| - 1;
    } else {
      i := GroupOf(groups[..|groups|-1], op);
    }
  }

  // ------------------------------------------------------------------ one component

  lemma {:induction false} ReleaseForced(e: Epoch, s: Ledger, op: Op, uses: map<nat, nat>)
    requires Balanced(s) && Supported(op) && op.payload.Release?
    requires s.issues == {} && LedgerSingle(e, s, op).issues == {}
    ensures After(op, CreditsOf(s), uses) == CreditsOf(LedgerSingle(e, s, op))
    ensures LedgerSingle(e, s, op).matches == s.matches
  {
    if op.Released() {
      assert InEpoch(e.id, CompetingOrBatchCredits) !in LedgerSingle(e, s, op).issues;
      assert op.payload.count == 1 && s.pending.None?;
      assert multiset{}[op.id := 1] == multiset{op.id};
    }
  }

  lemma {:induction false} WaitForced(e: Epoch, s: Ledger, op: Op, maximum: nat, uses: map<nat, nat>)
    requires Balanced(s) && op.Consumed()
    requires Enabled(op, CreditsOf(s), maximum, uses)
    ensures s.pending.Some? && uses[op.id] == s.pending.value.id
    ensures After(op, CreditsOf(s), uses) == multiset{}
    ensures LedgerSingle(e, s, op).pending.None?
    ensures LedgerSingle(e, s, op).matches == s.matches + [Match(e.id, s.pending.value, op, StrictDisjoint)]
  {
  }

  /** A single operation: if the semaphore allows it, the ledger tracks its effect. */
  lemma {:induction false} SingleForced(e: Epoch, s: Ledger, op: Op, uses: map<nat, nat>)
    requires Balanced(s) && Supported(op)
    requires s.issues == {} && LedgerSingle(e, s, op).issues == {}
    requires Enabled(op, CreditsOf(s), e.maximum, uses)
    requires Follows(s.matches, uses)
    ensures After(op, CreditsOf(s), uses) == CreditsOf(LedgerSingle(e, s, op))
    ensures Follows(LedgerSingle(e, s, op).matches, uses)
  {
    if op.payload.Release? {
      ReleaseForced(e, s, op, uses);
    } else if op.Consumed() {
      WaitForced(e, s, op, e.maximum, uses);
    }
  }

  /** A single operation without a ledger issue is one the semaphore allows. */
  lemma {:induction false} SingleEnabled(e: Epoch, s: Ledger, op: Op, uses: map<nat, nat>)
    requires Balanced(s) && Supported(op)
    requires s.issues == {} && LedgerSingle(e, s, op).issues == {}
    requires Follows(LedgerSingle(e, s, op).matches, uses)
    ensures Enabled(op, CreditsOf(s), e.maximum, uses)
  {
    var next := LedgerSingle(e, s, op);
    assert |CreditsOf(s)| == s.balance;
    match op.payload
    case Release(count, success, previous, _) =>
      assert success == Some(success.value);
      if success == Some(true) {
        assert InEpoch(e.id, PreviousCountContradictsLedger) !in next.issues;
        assert InEpoch(e.id, ReleaseExceedsMaximum) !in next.issues;
        assert previous == Some(s.balance);
        assert s.balance + count <= e.maximum;
      } else {
        assert !success.value;
        assert success == Some(false);
      }
    case Wait(result) =>
      assert InEpoch(e.id, WaitWithoutCredit) !in next.issues;
      assert InEpoch(e.id, TimeoutWithAvailableCredit) !in next.issues;
      assert InEpoch(e.id, UnsupportedWaitResult(result)) !in next.issues;
      if op.Consumed() {
        assert next.matches[|next.matches|-1] in next.matches;
      }
  }

  /** Entered without credit, an overlap pair can only run release first. */
  lemma {:induction false} PairForced(group: seq<Op>, tail: seq<Op>, maximum: nat, uses: map<nat, nat>)
    requires IsolatedPair(group, 0) && multiset(tail) == multiset(group)
    requires |tail| == 2
    requires Enabled(tail[0], multiset{}, maximum, uses)
    requires Enabled(tail[1], After(tail[0], multiset{}, uses), maximum, uses)
    ensures tail == CanonicalGroup(group)
    ensures After(tail[0], multiset{}, uses) == multiset{ReleaseOf(group).id}
    ensures After(tail[1], After(tail[0], multiset{}, uses), uses) == multiset{}
    ensures WaitOf(group).id in uses && uses[WaitOf(group).id] == ReleaseOf(group).id
  {
    SameElements(tail, group);
    assert tail[0] in group && tail[1] in group;
    assert group[0] in tail && group[1] in tail;
    assert !(tail[0].payload.Wait?);
    assert tail[0] == ReleaseOf(group);
    assert tail[1] == WaitOf(group);
    assert After(tail[0], multiset{}, uses) == multiset{ReleaseOf(group).id};
  }

  // -------------------------------------------------------------- every linearization

  ghost predicate AtMostOneCredit(order: seq<Op>, uses: map<nat, nat>) {
    forall k :: 0 <= k <= |order| ==> |Outstanding(order[..k], multiset{}, uses)| <= 1
  }

  lemma {:induction false} OutstandingSnoc(head: seq<Op>, op: Op, uses: map<nat, nat>)
    ensures Outstanding(head + [op], multiset{}, uses) == After(op, Outstanding(head, multiset{}, uses), uses)
    ensures AtMostOneCredit(head, uses) && |Outstanding(head + [op], multiset{}, uses)| <= 1 ==>
            AtMostOneCredit(head + [op], uses)
    ensures forall maximum :: Legal(head + [op], multiset{}, maximum, uses) <==>
              Legal(head, multiset{}, maximum, uses) &&
              Enabled(op, Outstanding(head, multiset{}, uses), maximum, uses)
  {
    var order := head + [op];
    assert order[..|head|] == head;
    forall k | 0 <= k <= |order| ensures k == |order| || order[..k] == head[..k] {
    }
    assert order[..|order|] == order;
  }

  /** What every legal linearization of issue-free components has to look like. */
  ghost predicate Determined(e: Epoch, groups: seq<seq<Op>>, order: seq<Op>, uses: map<nat, nat>) {
    && order == Canonical(groups)
    && Outstanding(order, multiset{}, uses) == CreditsOf(LedgerRun(e, groups))
    && Follows(LedgerRun(e, groups).matches, uses)
    && AtMostOneCredit(order, uses)
  }

  lemma {:induction false} SingleStep(e: Epoch, groups: seq<seq<Op>>, head: seq<Op>, op: Op, uses: map<nat, nat>)
    requires Clean(e, groups) && groups != [] && groups[|groups|-1] == [op]
    requires Determined(e, groups[..|groups|-1], head, uses)
    requires Legal(head + [op], multiset{}, e.maximum, uses)
    ensures Determined(e, groups, head + [op], uses)
  {
    var front := groups[..|groups|-1];
    CleanFront(e, groups);
    LedgerBalanced(e, front);
    LedgerBalanced(e, groups);
    OutstandingSnoc(head, op, uses);
    assert op in groups[|groups|-1];
    SingleForced(e, LedgerRun(e, front), op, uses);
  }

  lemma {:induction false} PairStep(e: Epoch, groups: seq<seq<Op>>, head: seq<Op>, tail: seq<Op>, uses: map<nat, nat>)
    requires Clean(e, groups) && groups != [] && |groups[|groups|-1]| == 2
    requires multiset(tail) == multiset(groups[|groups|-1]) && |tail| == 2
    requires Determined(e, groups[..|groups|-1], head, uses)
    requires Legal(head + tail, multiset{}, e.maximum, uses)
    ensures Determined(e, groups, head + tail, uses)
  {
    var front, g := groups[..|groups|-1], groups[|groups|-1];
    CleanFront(e, groups);
    LedgerBalanced(e, front);
    PairRuns(e, LedgerRun(e, front), g, head, tail, uses);
    assert Canonical(groups) == Canonical(front) + tail;
  }

  lemma {:induction false} PairRuns(e: Epoch, s: Ledger, group: seq<Op>, head: seq<Op>, tail: seq<Op>,
      uses: map<nat, nat>)
    requires Balanced(s) && !s.halted && IsolatedPair(group, s.balance) && Follows(s.matches, uses)
    requires multiset(tail) == multiset(group) && |tail| == 2
    requires Outstanding(head, multiset{}, uses) == CreditsOf(s) && AtMostOneCredit(head, uses)
    requires Legal(head + tail, multiset{}, e.maximum, uses)
    ensures tail == CanonicalGroup(group)
    ensures Outstanding(head + tail, multiset{}, uses) == CreditsOf(LedgerStep(e, s, group))
    ensures Follows(LedgerStep(e, s, group).matches, uses)
    ensures AtMostOneCredit(head + tail, uses)
  {
    hide Legal, Outstanding, LedgerRun, AtMostOneCredit;
    var mid := head + [tail[0]];
    OutstandingSnoc(head, tail[0], uses);
    OutstandingSnoc(mid, tail[1], uses);
    assert head + tail == mid + [tail[1]];
    PairForced(group, tail, e.maximum, uses);
  }

  /** The last component's operations come last in every linearization. */
  lemma {:induction false} Peel(groups: seq<seq<Op>>, order: seq<Op>) returns (n: nat)
    requires Tidy(groups) && groups != [] && Linearizes(Flatten(groups), order)
    ensures n <= |order| && Tidy(groups[..|groups|-1])
    ensures Linearizes(Flatten(groups[..|groups|-1]), order[..n])
    ensures multiset(order[n..]) == multiset(groups[|groups|-1])
  {
    TidyFront(groups);
    n := |Flatten(groups[..|groups|-1])|;
    EarlierFirst(Flatten(groups[..|groups|-1]), groups[|groups|-1], order);
  }

  lemma {:induction false} ForcedEmpty(e: Epoch, groups: seq<seq<Op>>, order: seq<Op>, uses: map<nat, nat>)
    requires groups == [] && Clean(e, groups) && Linearizes(Flatten(groups), order)
    ensures Determined(e, groups, order, uses)
  {
    assert |order| == |multiset(order)|;
    assert order == [];
  }

  lemma {:induction false} Forced(e: Epoch, groups: seq<seq<Op>>, order: seq<Op>, uses: map<nat, nat>)
    requires Clean(e, groups) && Tidy(groups)
    requires Linearizes(Flatten(groups), order) && Legal(order, multiset{}, e.maximum, uses)
    ensures Determined(e, groups, order, uses)
  {
    hide *;
    if groups == [] {
      ForcedEmpty(e, groups, order, uses);
    } else {
      CleanFront(e, groups);
      var n := Peel(groups, order);
      LegalBeginning(order, multiset{}, e.maximum, uses, n);
      Forced(e, groups[..|groups|-1], order[..n], uses);
      assert order == order[..n] + order[n..];
      GroupStep(e, groups, order[..n], order[n..], uses);
    }
  }

  lemma {:induction false} GroupStep(e: Epoch, groups: seq<seq<Op>>, head: seq<Op>, tail: seq<Op>, uses: map<nat, nat>)
    requires Clean(e, groups) && groups != []
    requires multiset(tail) == multiset(groups[|groups|-1])
    requires Determined(e, groups[..|groups|-1], head, uses)
    requires Legal(head + tail, multiset{}, e.maximum, uses)
    ensures Determined(e, groups, head + tail, uses)
  {
    hide LedgerRun, LedgerStep, Legal, Outstanding, Determined, Clean, Enabled, After;
    var g := groups[|groups|-1];
    CleanFront(e, groups);
    SameElements(tail, g);
    assert |tail| == |multiset(tail)| == |multiset(g)| == |g|;
    if |g| == 1 {
      assert g[0] in tail;
      assert tail == [g[0]];
      assert g == [g[0]];
      SingleStep(e, groups, head, g[0], uses);
    } else {
      PairStep(e, groups, head, tail, uses);
    }
  }

  // ------------------------------------------------------------- a legal order exists

  lemma {:induction false} CanonicalLegal(e: Epoch, groups: seq<seq<Op>>, uses: map<nat, nat>)
    requires Clean(e, groups) && Follows(LedgerRun(e, groups).matches, uses)
    ensures Legal(Canonical(groups), multiset{}, e.maximum, uses)
    ensures Outstanding(Canonical(groups), multiset{}, uses) == CreditsOf(LedgerRun(e, groups))
  {
    if groups != [] {
      var front := groups[..|groups|-1];
      CleanFront(e, groups);
      var s, next := LedgerRun(e, front), LedgerRun(e, groups);
      assert s.matches <= next.matches;
      assert forall m :: m in s.matches ==> m in next.matches;
      CanonicalLegal(e, front, uses);
      CanonicalStep(e, groups, Canonical(front), uses);
    }
  }

  lemma {:induction false} CanonicalStep(e: Epoch, groups: seq<seq<Op>>, head: seq<Op>, uses: map<nat, nat>)
    requires Clean(e, groups) && groups != [] && Follows(LedgerRun(e, groups).matches, uses)
    requires Legal(head, multiset{}, e.maximum, uses)
    requires Outstanding(head, multiset{}, uses) == CreditsOf(LedgerRun(e, groups[..|groups|-1]))
    ensures var order := head + CanonicalGroup(groups[|groups|-1]);
            Legal(order, multiset{}, e.maximum, uses) &&
            Outstanding(order, multiset{}, uses) == CreditsOf(LedgerRun(e, groups))
  {
    var front, g := groups[..|groups|-1], groups[|groups|-1];
    CleanFront(e, groups);
    LedgerBalanced(e, front);
    if |g| == 1 {
      assert g[0] in g;
      SingleExtends(e, LedgerRun(e, front), g[0], head, uses);
      assert CanonicalGroup(g) == [g[0]];
    } else {
      PairExtends(e, LedgerRun(e, front), g, head, uses);
      assert CanonicalGroup(g) == [ReleaseOf(g), WaitOf(g)];
    }
  }

  lemma {:induction false} SingleExtends(e: Epoch, s: Ledger, op: Op, head: seq<Op>, uses: map<nat, nat>)
    requires Balanced(s) && Supported(op)
    requires s.issues == {} && LedgerSingle(e, s, op).issues == {}
    requires Follows(LedgerSingle(e, s, op).matches, uses)
    requires Legal(head, multiset{}, e.maximum, uses) && Outstanding(head, multiset{}, uses) == CreditsOf(s)
    ensures Legal(head + [op], multiset{}, e.maximum, uses)
    ensures Outstanding(head + [op], multiset{}, uses) == CreditsOf(LedgerSingle(e, s, op))
  {
    var next := LedgerSingle(e, s, op);
    assert s.matches <= next.matches;
    assert forall m :: m in s.matches ==> m in next.matches;
    SingleEnabled(e, s, op, uses);
    SingleForced(e, s, op, uses);
    OutstandingSnoc(head, op, uses);
  }

  lemma {:induction false} PairExtends(e: Epoch, s: Ledger, group: seq<Op>, head: seq<Op>, uses: map<nat, nat>)
    requires Balanced(s) && !s.halted && IsolatedPair(group, s.balance)
    requires Follows(LedgerStep(e, s, group).matches, uses)
    requires Legal(head, multiset{}, e.maximum, uses) && Outstanding(head, multiset{}, uses) == CreditsOf(s)
    requires 1 <= e.maximum
    ensures Legal(head + [ReleaseOf(group), WaitOf(group)], multiset{}, e.maximum, uses)
    ensures Outstanding(head + [ReleaseOf(group), WaitOf(group)], multiset{}, uses) == CreditsOf(LedgerStep(e, s, group))
  {
    var release, wait := ReleaseOf(group), WaitOf(group);
    PairEnabled(e, s, group, uses);
    OutstandingSnoc(head, release, uses);
    OutstandingSnoc(head + [release], wait, uses);
    hide Legal, Outstanding, Enabled, After, Follows, LedgerStep, IsolatedPair, Balanced;
    assert head + [release, wait] == (head + [release]) + [wait];
  }

  /** An isolated pair is two allowed steps that leave no credit. */
  lemma {:induction false} PairEnabled(e: Epoch, s: Ledger, group: seq<Op>, uses: map<nat, nat>)
    requires Balanced(s) && !s.halted && IsolatedPair(group, s.balance) && 1 <= e.maximum
    requires Follows(LedgerStep(e, s, group).matches, uses)
    ensures var release, wait := ReleaseOf(group), WaitOf(group);
            CreditsOf(s) == multiset{} && CreditsOf(LedgerStep(e, s, group)) == multiset{} &&
            Enabled(release, multiset{}, e.maximum, uses) &&
            After(release, multiset{}, uses) == multiset{release.id} &&
            Enabled(wait, multiset{release.id}, e.maximum, uses) && After(wait, multiset{release.id}, uses) == multiset{}
  {
    var next := LedgerStep(e, s, group);
    assert next.matches[|next.matches|-1] in next.matches;
    assert multiset{}[ReleaseOf(group).id := 1] == multiset{ReleaseOf(group).id};
  }

  lemma {:induction false} LinearizesJoin(early: seq<Op>, late: seq<Op>, head: seq<Op>, tail: seq<Op>)
    requires Linearizes(early, head) && Linearizes(late, tail)
    requires forall a, b :: a in early && b in late ==> a.exit < b.entry
    requires WellBracketed(early) && WellBracketed(late)
    ensures Linearizes(early + late, head + tail)
  {
    SameElements(early, head);
    SameElements(late, tail);
    var order := head + tail;
    forall i, j | 0 <= i < j < |order| ensures !(order[j].exit < order[i].entry) {
      if i < |head| <= j {
        assert order[i] in early && order[j] in late;
        var p :| 0 <= p < |early| && early[p] == order[i];
        var q :| 0 <= q < |late| && late[q] == order[j];
      }
    }
  }

  lemma {:induction false} CanonicalGroupLinearizes(group: seq<Op>)
    requires |group| == 1 || PairShape(group)
    requires WellBracketed(group)
    requires |group| == 2 ==> group[0].entry <= group[1].entry <= group[0].exit
    ensures Linearizes(group, CanonicalGroup(group))
  {
    if |group| == 2 { assert group == [group[0], group[1]]; }
  }

  lemma {:induction false} CanonicalLinearizes(e: Epoch, groups: seq<seq<Op>>)
    requires Clean(e, groups) && Tidy(groups) && Chained(groups)
    ensures Linearizes(Flatten(groups), Canonical(groups))
  {
    if groups != [] {
      var front, g := groups[..|groups|-1], groups[|groups|-1];
      CleanFront(e, groups);
      TidyFront(groups);
      CanonicalLinearizes(e, front);
      if |g| == 2 { assert g[..1] == [g[0]]; assert [g[0]][..0] == []; assert LastExit(g[..1]) == g[0].exit; }
      CanonicalGroupLinearizes(g);
      LinearizesJoin(Flatten(front), g, Canonical(front), CanonicalGroup(g));
    }
  }

  // ------------------------------------------------------------ what the matches cover

  /** The successful waits of an order, in order. */
  function Successes(order: seq<Op>): seq<Op> {
    if order == [] then []
    else Successes(order[..|order|-1]) + if order[|order|-1].Consumed() then [order[|order|-1]] else []
  }

  /** The successful releases of an order, in order. */
  function Credits(order: seq<Op>): seq<Op> {
    if order == [] then []
    else Credits(order[..|order|-1]) + if order[|order|-1].Released() then [order[|order|-1]] else []
  }

  function Waits(matches: seq<Match>): seq<Op> {
    if matches == [] then [] else Waits(matches[..|matches|-1]) + [matches[|matches|-1].wait]
  }

  function Releases(matches: seq<Match>): seq<Op> {
    if matches == [] then [] else Releases(matches[..|matches|-1]) + [matches[|matches|-1].release]
  }

  function Unmatched(s: Ledger): seq<Op> {
    if s.pending.Some? then [s.pending.value] else []
  }

  lemma {:induction false} FilterSnoc(order: seq<Op>, op: Op)
    ensures Successes(order + [op]) == Successes(order) + if op.Consumed() then [op] else []
    ensures Credits(order + [op]) == Credits(order) + if op.Released() then [op] else []
  {
    assert (order + [op])[..|order|] == order;
  }

  lemma {:induction false} MatchesSnoc(matches: seq<Match>, m: Match)
    ensures Waits(matches + [m]) == Waits(matches) + [m.wait]
    ensures Releases(matches + [m]) == Releases(matches) + [m.release]
  {
    assert (matches + [m])[..|matches|] == matches;
  }

  lemma {:induction false} PairedSingle(e: Epoch, s: Ledger, op: Op)
    requires Balanced(s) && Supported(op)
    requires s.issues == {} && LedgerSingle(e, s, op).issues == {}
    ensures Waits(LedgerSingle(e, s, op).matches) == Waits(s.matches) + if op.Consumed() then [op] else []
    ensures Releases(LedgerSingle(e, s, op).matches) + Unmatched(LedgerSingle(e, s, op)) ==
            Releases(s.matches) + Unmatched(s) + if op.Released() then [op] else []
  {
    var next := LedgerSingle(e, s, op);
    if op.Consumed() {
      assert InEpoch(e.id, WaitWithoutCredit) !in next.issues;
      MatchesSnoc(s.matches, Match(e.id, s.pending.value, op, StrictDisjoint));
    } else if op.Released() {
      assert InEpoch(e.id, CompetingOrBatchCredits) !in next.issues;
    }
  }

  /** The matches of a ledger account for the successes of an order. */
  ghost predicate Accounts(e: Epoch, s: Ledger, order: seq<Op>) {
    && Waits(s.matches) == Successes(order)
    && Releases(s.matches) + Unmatched(s) == Credits(order)
    && forall m :: m in s.matches ==> m.epoch == e.id
  }

  lemma {:induction false} AccountsSingle(e: Epoch, s: Ledger, op: Op, head: seq<Op>)
    requires Accounts(e, s, head) && Balanced(s) && Supported(op)
    requires s.issues == {} && LedgerSingle(e, s, op).issues == {}
    ensures Accounts(e, LedgerSingle(e, s, op), head + [op])
  {
    PairedSingle(e, s, op);
    FilterSnoc(head, op);
  }

  lemma {:induction false} AccountsPair(e: Epoch, s: Ledger, group: seq<Op>, head: seq<Op>)
    requires Accounts(e, s, head) && Balanced(s) && !s.halted && IsolatedPair(group, s.balance)
    ensures Accounts(e, LedgerStep(e, s, group), head + CanonicalGroup(group))
  {
    hide Successes, Credits, Waits, Releases, Legal, Outstanding;
    var release, wait := ReleaseOf(group), WaitOf(group);
    FilterSnoc(head, release);
    FilterSnoc(head + [release], wait);
    assert head + CanonicalGroup(group) == (head + [release]) + [wait];
    MatchesSnoc(s.matches, Match(e.id, release, wait, IsolatedOverlap));
  }

  /** In the one possible order, the k-th successful wait is matched with the k-th successful
      release, and at most the last release is left over. */
  lemma {:induction false} LedgerAccounts(e: Epoch, groups: seq<seq<Op>>)
    requires Clean(e, groups)
    ensures Accounts(e, LedgerRun(e, groups), Canonical(groups))
  {
    if groups != [] {
      var front, g := groups[..|groups|-1], groups[|groups|-1];
      CleanFront(e, groups);
      LedgerBalanced(e, front);
      LedgerAccounts(e, front);
      if |g| == 1 {
        assert g == [g[0]] && g[0] in g;
        AccountsSingle(e, LedgerRun(e, front), g[0], Canonical(front));
      } else {
        AccountsPair(e, LedgerRun(e, front), g, Canonical(front));
      }
    }
  }

  lemma {:induction false} FilterContents(order: seq<Op>)
    ensures forall op :: op in Successes(order) <==> op in order && op.Consumed()
    ensures forall op :: op in Credits(order) <==> op in order && op.Released()
  {
    if order != [] {
      var front, op := order[..|order|-1], order[|order|-1];
      FilterContents(front);
      assert order == front + [op];
    }
  }

  lemma {:induction false} UniqueFront(order: seq<Op>)
    requires Unique(order) && order != []
    ensures Unique(order[..|order|-1])
    ensures forall x :: x in order[..|order|-1] ==> x.id != order[|order|-1].id
  {
    var front := order[..|order|-1];
    forall x | x in front ensures x.id != order[|order|-1].id {
      var k :| 0 <= k < |front| && front[k] == x;
      assert order[k].id != order[|order|-1].id;
    }
  }

  lemma {:induction false} FilterUnique(order: seq<Op>)
    requires Unique(order)
    ensures Unique(Successes(order)) && Unique(Credits(order))
  {
    if order != [] {
      hide Unique;
      var front, op := order[..|order|-1], order[|order|-1];
      UniqueFront(order);
      FilterContents(front);
      FilterUnique(front);
      UniqueSnoc(Successes(front), op);
      UniqueSnoc(Credits(front), op);
    } else {
      assert Unique([]);
    }
  }

  lemma {:induction false} FilterMembers(order: seq<Op>)
    ensures forall op :: op in Successes(order) <==> op in order && op.Consumed()
    ensures forall op :: op in Credits(order) <==> op in order && op.Released()
    ensures Unique(order) ==> Unique(Successes(order)) && Unique(Credits(order))
  {
    hide *;
    FilterContents(order);
    if Unique(order) { FilterUnique(order); }
  }

  lemma {:induction false} UniqueSnoc(ops: seq<Op>, op: Op)
    requires Unique(ops) && forall x :: x in ops ==> x.id != op.id
    ensures Unique(ops + [op])
  {
    forall i, j | 0 <= i < j < |ops + [op]| ensures (ops + [op])[i].id != (ops + [op])[j].id {
      assert ops[i] in ops;
    }
  }

  lemma {:induction false} MatchAt(matches: seq<Match>, i: nat)
    requires i < |matches|
    ensures |Waits(matches)| == |Releases(matches)| == |matches|
    ensures Waits(matches)[i] == matches[i].wait && Releases(matches)[i] == matches[i].release
  {
    var front := matches[..|matches|-1];
    if i < |front| {
      MatchAt(front, i);
    } else if front != [] {
      MatchAt(front, 0);
    }
  }

  // -------------------------------------------------------------------- report level

  lemma {:induction false} UniqueOrder(a: seq<Op>, b: seq<Op>)
    requires Unique(a) && multiset(a) == multiset(b)
    ensures Unique(b)
  {
    PermutationDistinct(a, b);
    forall i, j | 0 <= i < j < |b| ensures b[i].id != b[j].id {
      assert b[i] in a && b[j] in a;
    }
  }

  lemma {:induction false} HaltedHasIssue(e: Epoch, groups: seq<seq<Op>>)
    ensures LedgerRun(e, groups).halted ==> LedgerRun(e, groups).issues != {}
  {
    if groups != [] {
      HaltedHasIssue(e, groups[..|groups|-1]);
      assert InEpoch(e.id, OverlapOutsideCoverage) in {InEpoch(e.id, OverlapOutsideCoverage)};
    }
  }

  lemma {:induction false} GatherHolds(j: Journal, epochs: seq<Epoch>, e: Epoch)
    requires e in epochs
    ensures AllRowIssues(j.begin, j.end, e, Rows(j, e)) + EpochLedger(j, e).issues <= Gather(j, epochs).issues
    ensures forall m :: m in EpochLedger(j, e).matches ==> m in Gather(j, epochs).consumptions
  {
    var front := epochs[..|epochs|-1];
    if e != epochs[|epochs|-1] {
      assert e in front;
      GatherHolds(j, front, e);
    }
  }

  lemma {:induction false} GatherFrom(j: Journal, epochs: seq<Epoch>, m: Match) returns (e: Epoch)
    requires m in Gather(j, epochs).consumptions
    ensures e in epochs && m in EpochLedger(j, e).matches
  {
    e := epochs[|epochs|-1];
    if m !in EpochLedger(j, e).matches {
      e := GatherFrom(j, epochs[..|epochs|-1], m);
    }
  }

  lemma {:induction false} LifetimeIssuesHold(begin: nat, end: nat, epochs: seq<Epoch>, e: Epoch)
    requires e in epochs
    ensures LifetimeIssues(begin, end, e) <= AllLifetimeIssues(begin, end, epochs)
  {
    var front := epochs[..|epochs|-1];
    if e != epochs[|epochs|-1] {
      assert e in front;
      LifetimeIssuesHold(begin, end, front, e);
    }
  }

  lemma {:induction false} RowIssuesHold(begin: nat, end: nat, e: Epoch, rows: seq<Op>, op: Op)
    requires op in rows
    ensures RowIssues(begin, end, e, op) <= AllRowIssues(begin, end, e, rows)
  {
    var front := rows[..|rows|-1];
    if op != rows[|rows|-1] {
      assert op in front;
      RowIssuesHold(begin, end, e, front, op);
    }
  }

  lemma {:induction false} IssueFreeRow(begin: nat, end: nat, e: Epoch, op: Op)
    ensures RowIssues(begin, end, e, op) == {} ==>
              begin <= op.entry <= op.exit < end && op.entry > e.creation && !op.payload.Other? &&
              (e.destroy.Some? ==> op.exit < e.destroy.value)
  {
    var issues := RowIssues(begin, end, e, op);
    if !(begin <= op.entry <= op.exit < end) {
      assert InEpoch(e.id, InvalidOrOutsideOperationBracket) in issues;
    } else if op.entry <= e.creation || (e.destroy.Some? && op.exit >= e.destroy.value) {
      assert InEpoch(e.id, TouchesOrExceedsLifetime) in issues;
    } else if op.payload.Other? {
      assert InEpoch(e.id, UnsupportedOperation(op.payload.kind)) in issues;
    }
  }

  /** The order of one epoch's rows is strict and holds exactly that epoch's operations. */
  lemma {:induction false} RowsSorted(j: Journal, e: Epoch)
    requires WellShaped(j)
    ensures Sorted(Rows(j, e)) && Unique(Rows(j, e))
    ensures forall op :: op in Rows(j, e) <==> op in j.operations && op.epoch == e.id
  {
    SelectMembers(j.operations, e.id);
    SortSorted(Select(j.operations, e.id));
    UniqueOrder(Select(j.operations, e.id), Rows(j, e));
  }

  /** A journal without diagnostics gives every epoch a clean ledger over disjoint components. */
  lemma {:induction false} EpochClean(j: Journal, e: Epoch)
    requires WellShaped(j) && Diagnostics(j) == {} && e in j.epochs
    ensures EpochLedger(j, e) == LedgerRun(e, Components(Rows(j, e)))
    ensures Clean(e, Components(Rows(j, e)))
    ensures Tidy(Components(Rows(j, e))) && Chained(Components(Rows(j, e)))
    ensures Flatten(Components(Rows(j, e))) == Rows(j, e)
  {
    hide Components, Sort, Select, Flatten, LedgerRun, LedgerStep, Gather, AllRowIssues;
    var rows := Rows(j, e);
    var groups: seq<seq<Op>> := Components(rows);
    GatherHolds(j, j.epochs, e);
    LifetimeIssuesHold(j.begin, j.end, j.epochs, e);
    assert InEpoch(e.id, InitialCreditsNotAttributable) !in LifetimeIssues(j.begin, j.end, e);
    HaltedHasIssue(e, groups);
    RowsSorted(j, e);
    ComponentsPartition(rows);
    forall op | op in rows ensures op.entry <= op.exit && Supported(op) {
      RowIssuesHold(j.begin, j.end, e, rows, op);
      IssueFreeRow(j.begin, j.end, e, op);
      assert OpShape(op, j.epochs);
    }
    ComponentsSeparated(rows);
    ComponentsChained(rows);
    forall i, op | 0 <= i < |groups| && op in groups[i] ensures Supported(op) {
      FlattenMember(groups, i, op);
    }
    forall i | 0 <= i < |groups| ensures groups[i] != [] {
      assert groups[i] in groups;
    }
  }

  /** One way the epoch's operations could have happened, credits and all. */
  ghost predicate LegalHistory(j: Journal, e: Epoch, order: seq<Op>, uses: map<nat, nat>) {
    && Linearizes(Select(j.operations, e.id), order)
    && Legal(order, Initial(e.initial), e.maximum, uses)
  }

  /** The report found nothing wrong; having no update-bound candidate is not a fault. */
  ghost predicate IssueFree(j: Journal) {
    ReportOf(j).Audited? && ReportOf(j).issues <= {Global(NoUnambiguousCandidate)}
  }

  lemma {:induction false} EpochIssuesAreEpochal(begin: nat, end: nat, epochs: seq<Epoch>)
    ensures forall i :: i in AllLifetimeIssues(begin, end, epochs) ==> i.InEpoch?
  {
    if epochs != [] { EpochIssuesAreEpochal(begin, end, epochs[..|epochs|-1]); }
  }

  lemma {:induction false} RowIssuesAreEpochal(begin: nat, end: nat, e: Epoch, rows: seq<Op>)
    ensures forall i :: i in AllRowIssues(begin, end, e, rows) ==> i.InEpoch?
  {
    if rows != [] { RowIssuesAreEpochal(begin, end, e, rows[..|rows|-1]); }
  }

  lemma {:induction false} LedgerIssuesAreEpochal(e: Epoch, groups: seq<seq<Op>>)
    ensures forall i :: i in LedgerRun(e, groups).issues ==> i.InEpoch?
  {
    if groups != [] { LedgerIssuesAreEpochal(e, groups[..|groups|-1]); }
  }

  lemma {:induction false} GatherIssuesAreEpochal(j: Journal, epochs: seq<Epoch>)
    ensures forall i :: i in Gather(j, epochs).issues ==> i.InEpoch?
  {
    if epochs != [] {
      var e := epochs[|epochs|-1];
      GatherIssuesAreEpochal(j, epochs[..|epochs|-1]);
      RowIssuesAreEpochal(j.begin, j.end, e, Rows(j, e));
      LedgerIssuesAreEpochal(e, Components(Rows(j, e)));
    }
  }

  lemma {:induction false} IssueFreeHasNoDiagnostics(j: Journal)
    requires IssueFree(j)
    ensures WellShaped(j) && Diagnostics(j) == {}
    ensures ReportOf(j).consumptions == Gather(j, j.epochs).consumptions
  {
    EpochIssuesAreEpochal(j.begin, j.end, j.epochs);
    GatherIssuesAreEpochal(j, j.epochs);
    assert Global(NoUnambiguousCandidate) !in Diagnostics(j);
    assert Diagnostics(j) <= ReportOf(j).issues;
  }

  /** Of an issue-free journal, the reported consumptions of an epoch are its ledger's matches. */
  lemma {:induction false} ReportedMatches(j: Journal, e: Epoch)
    requires IssueFree(j) && e in j.epochs
    ensures forall m :: m in EpochLedger(j, e).matches <==> m in ReportOf(j).consumptions && m.epoch == e.id
  {
    IssueFreeHasNoDiagnostics(j);
    EpochClean(j, e);
    LedgerAccounts(e, Components(Rows(j, e)));
    GatherHolds(j, j.epochs, e);
    forall m | m in ReportOf(j).consumptions && m.epoch == e.id ensures m in EpochLedger(j, e).matches {
      var other := GatherFrom(j, j.epochs, m);
      EpochClean(j, other);
      LedgerAccounts(other, Components(Rows(j, other)));
      LookupUnique(j.epochs, e);
      LookupUnique(j.epochs, other);
    }
  }

  lemma {:induction false} SameLinearizations(a: seq<Op>, b: seq<Op>, order: seq<Op>)
    requires multiset(a) == multiset(b)
    ensures Linearizes(a, order) <==> Linearizes(b, order)
  {
  }

  /** SOUNDNESS. In every legal linearization of an issue-free epoch, with any choice of which
      outstanding credit each wait takes, the counter stays in {0, 1}, every successful wait
      consumes exactly the release recorded for it, and the order itself is the audit's. */
  lemma {:induction false} AuditSound(j: Journal, e: Epoch, order: seq<Op>, uses: map<nat, nat>)
    requires IssueFree(j) && e in j.epochs && LegalHistory(j, e, order, uses)
    ensures forall k :: 0 <= k <= |order| ==> |Outstanding(order[..k], Initial(e.initial), uses)| <= 1
    ensures forall m :: m in ReportOf(j).consumptions && m.epoch == e.id ==>
              m.wait.id in uses && uses[m.wait.id] == m.release.id
    ensures order == Canonical(Components(Rows(j, e)))
  {
    IssueFreeHasNoDiagnostics(j);
    EpochClean(j, e);
    ReportedMatches(j, e);
    var groups := Components(Rows(j, e));
    assert Initial(0) == multiset{};
    SameLinearizations(Select(j.operations, e.id), Rows(j, e), order);
    Forced(e, groups, order, uses);
  }

  /** The recorded matching, as a choice of credit for every matched wait. */
  function Recorded(matches: seq<Match>): map<nat, nat> {
    if matches == [] then map[]
    else Recorded(matches[..|matches|-1])[matches[|matches|-1].wait.id := matches[|matches|-1].release.id]
  }

  lemma {:induction false} RecordedFollows(matches: seq<Match>)
    requires Unique(Waits(matches))
    ensures Follows(matches, Recorded(matches))
    ensures forall id :: id in Recorded(matches) ==> exists m :: m in matches && m.wait.id == id
  {
    if matches != [] {
      var front, last := matches[..|matches|-1], matches[|matches|-1];
      assert Waits(matches) == Waits(front) + [last.wait];
      assert forall i :: 0 <= i < |Waits(front)| ==> Waits(front)[i] == Waits(matches)[i];
      RecordedFollows(front);
      forall m | m in front ensures m.wait.id != last.wait.id {
        var i :| 0 <= i < |front| && front[i] == m;
        MatchAt(matches, i);
        MatchAt(matches, |front|);
      }
      assert matches == front + [last];
    }
  }

  lemma {:induction false} MatchedUnique(j: Journal, e: Epoch)
    requires IssueFree(j) && e in j.epochs
    ensures Unique(Waits(EpochLedger(j, e).matches))
    ensures Unique(Releases(EpochLedger(j, e).matches) + Unmatched(EpochLedger(j, e)))
    ensures Waits(EpochLedger(j, e).matches) == Successes(Canonical(Components(Rows(j, e))))
    ensures Releases(EpochLedger(j, e).matches) + Unmatched(EpochLedger(j, e)) ==
            Credits(Canonical(Components(Rows(j, e))))
    ensures Linearizes(Rows(j, e), Canonical(Components(Rows(j, e))))
  {
    IssueFreeHasNoDiagnostics(j);
    EpochClean(j, e);
    var groups := Components(Rows(j, e));
    CanonicalLinearizes(e, groups);
    RowsSorted(j, e);
    UniqueOrder(Rows(j, e), Canonical(groups));
    FilterMembers(Canonical(groups));
    LedgerAccounts(e, groups);
  }

  /** EXISTENCE. An issue-free epoch has a legal linearization: the audit's own order with its
      own matching. */
  lemma {:induction false} AuditRealizable(j: Journal, e: Epoch)
    requires IssueFree(j) && e in j.epochs
    ensures LegalHistory(j, e, Canonical(Components(Rows(j, e))), Recorded(EpochLedger(j, e).matches))
  {
    IssueFreeHasNoDiagnostics(j);
    EpochClean(j, e);
    MatchedUnique(j, e);
    var s := EpochLedger(j, e);
    RecordedFollows(s.matches);
    CanonicalLegal(e, Components(Rows(j, e)), Recorded(s.matches));
    assert Initial(0) == multiset{};
    SameLinearizations(Select(j.operations, e.id), Rows(j, e), Canonical(Components(Rows(j, e))));
  }

  /** The matches pair real successes one to one, reach every successful wait, and leave at
      most one successful release over. */
  ghost predicate PerfectMatching(matches: seq<Match>, ops: seq<Op>) {
    && (forall m :: m in matches ==>
          m.release in ops && m.release.Released() && m.wait in ops && m.wait.Consumed())
    && (forall i, k :: 0 <= i < k < |matches| ==>
          matches[i].release.id != matches[k].release.id && matches[i].wait.id != matches[k].wait.id)
    && (forall w :: w in ops && w.Consumed() ==> w in Waits(matches))
    && (forall a, b :: LeftOver(matches, ops, a) && LeftOver(matches, ops, b) ==> a == b)
  }

  /** A successful release that no match uses. */
  ghost predicate LeftOver(matches: seq<Match>, ops: seq<Op>, op: Op) {
    op in ops && op.Released() && op !in Releases(matches)
  }

  lemma {:induction false} MatchesLength(matches: seq<Match>)
    ensures |Waits(matches)| == |Releases(matches)| == |matches|
  {
    if matches != [] { MatchAt(matches, 0); }
  }

  lemma {:induction false} AccountsPerfect(e: Epoch, s: Ledger, order: seq<Op>)
    requires Accounts(e, s, order) && Unique(order)
    ensures PerfectMatching(s.matches, order)
  {
    FilterMembers(order);
    MatchesLength(s.matches);
    var credits := Releases(s.matches) + Unmatched(s);
    assert forall op :: op in credits <==> op in order && op.Released();
    forall m | m in s.matches
      ensures m.release in order && m.release.Released() && m.wait in order && m.wait.Consumed()
    {
      var i :| 0 <= i < |s.matches| && s.matches[i] == m;
      MatchAt(s.matches, i);
      assert credits[i] == m.release;
      assert m.wait in Successes(order);
    }
    forall i, k | 0 <= i < k < |s.matches|
      ensures s.matches[i].release.id != s.matches[k].release.id && s.matches[i].wait.id != s.matches[k].wait.id
    {
      MatchAt(s.matches, i);
      MatchAt(s.matches, k);
      assert credits[i] == s.matches[i].release && credits[k] == s.matches[k].release;
    }
    forall a | LeftOver(s.matches, order, a) ensures s.pending == Some(a) {
      assert a in credits;
    }
  }

  /** COVERAGE. The consumptions an issue-free report lists for an epoch are exactly its
      ledger's matches, and they are a perfect matching of the epoch's operations. */
  lemma {:induction false} AuditMatching(j: Journal, e: Epoch)
    requires IssueFree(j) && e in j.epochs
    ensures PerfectMatching(EpochLedger(j, e).matches, Rows(j, e))
    ensures forall m :: m in EpochLedger(j, e).matches <==> m in ReportOf(j).consumptions && m.epoch == e.id
    ensures forall op :: op in Rows(j, e) <==> op in j.operations && op.epoch == e.id
  {
    IssueFreeHasNoDiagnostics(j);
    ReportedMatches(j, e);
    RowsSorted(j, e);
    MatchedUnique(j, e);
    EpochClean(j, e);
    var order, s := Canonical(Components(Rows(j, e))), EpochLedger(j, e);
    UniqueOrder(Rows(j, e), order);
    SameElements(Rows(j, e), order);
    LedgerAccounts(e, Components(Rows(j, e)));
    AccountsPerfect(e, s, order);
    assert forall op :: LeftOver(s.matches, Rows(j, e), op) ==> LeftOver(s.matches, order, op);
  }
}
