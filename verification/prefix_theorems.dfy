/** What a retained prefix means for the whole history, and for a later freeze. */
module PrefixTheorems {
  import opened Options
  import opened SemaphoreJournal
  import opened Linearization
  import opened PrefixAudit
  import opened PrefixProjection
  import opened PrefixReport
  import V1 = CreditAudit
  import S = CreditSoundness

  // ------------------------------------------------ soundness inside the whole history

  /** An operation the journal does not hold: a lost admission, of which only a lower bound of
      its start is known, or one admitted after the freeze. */
  ghost predicate Unseen(j: Journal, op: Op) {
    j.freeze <= op.entry || exists loss :: loss in j.losses && loss.bound.Some? && loss.bound.value <= op.entry
  }

  /** The operations of an epoch after its retained prefix. */
  function Suffix(j: Journal, e: Epoch): seq<Op> {
    if |Prefix(j, e)| <= |EpochSpans(j, e)| then EpochSpans(j, e)[|Prefix(j, e)|..] else []
  }

  /** The retained operations followed by everything else that may have touched the object. */
  ghost predicate WholeHistory(j: Journal, e: Epoch, unseen: seq<Op>, order: seq<Op>) {
    && (forall op :: op in unseen ==> Unseen(j, op))
    && Linearizes(Prefix(j, e) + (Suffix(j, e) + unseen), order)
  }

  /** WHOLE-HISTORY SOUNDNESS. Whatever the pending, later and unseen operations did, in every
      linearization of the whole history that is legal over the retained operations those come
      first, in the audit's order, and every reported consumption is the one that happened. */
  lemma {:induction false} PrefixSoundInWholeHistory(j: Journal, e: Epoch, unseen: seq<Op>, order: seq<Op>,
      uses: map<nat, nat>)
    requires Healthy(j) && e in j.epochs
    requires WholeHistory(j, e, unseen, order) && |Prefix(j, e)| <= |order|
    requires Legal(order[..|Prefix(j, e)|], Initial(e.initial), e.maximum, uses)
    ensures order[..|Prefix(j, e)|] == S.Canonical(Components(Prefix(j, e)))
    ensures forall m :: m in PrefixMatches(j, e) ==> m.wait.id in uses && uses[m.wait.id] == m.release.id
    ensures Outstanding(order[..|Prefix(j, e)|], Initial(e.initial), uses) == multiset{}
    ensures S.AtMostOneCredit(order[..|Prefix(j, e)|], uses)
  {
    FreshEpoch(j, e);
    PrefixTidy(j, e);
    PrefixClean(j, e);
    PrefixBegins(j, e);
    PrefixComesFirst(j, e, unseen, order);
    KeptForced(j, e, order[..|Prefix(j, e)|], uses);
  }

  lemma {:induction false} KeptForced(j: Journal, e: Epoch, order: seq<Op>, uses: map<nat, nat>)
    requires e.initial == 0 && S.Tidy(Kept(j, e)) && Flatten(Kept(j, e)) == Prefix(j, e)
    requires S.Clean(e, Kept(j, e)) && V1.LedgerRun(e, Kept(j, e)).balance == 0
    requires Linearizes(Prefix(j, e), order) && Legal(order, Initial(0), e.maximum, uses)
    ensures order == S.Canonical(Kept(j, e))
    ensures forall m :: m in PrefixMatches(j, e) ==> m.wait.id in uses && uses[m.wait.id] == m.release.id
    ensures Outstanding(order, Initial(0), uses) == multiset{}
    ensures S.AtMostOneCredit(order, uses)
  {
    hide Kept, Prefix, S.Canonical, S.AtMostOneCredit, Outstanding, Legal, Linearizes;
    assert Initial(0) == multiset{};
    S.Forced(e, Kept(j, e), order, uses);
    S.LedgerBalanced(e, Kept(j, e));
  }

  lemma {:induction false} PrefixComesFirst(j: Journal, e: Epoch, unseen: seq<Op>, order: seq<Op>)
    requires Healthy(j) && e in j.epochs && WholeHistory(j, e, unseen, order)
    ensures |Prefix(j, e)| <= |order| && Linearizes(Prefix(j, e), order[..|Prefix(j, e)|])
  {
    var prefix, rest := Prefix(j, e), Suffix(j, e) + unseen;
    forall a: Op | a in prefix ensures a.entry <= a.exit < PrefixEnd(j, e).qpc {
      PrefixOp(j, e, a);
    }
    forall b: Op | b in rest ensures PrefixEnd(j, e).qpc <= b.entry {
      RestStartsLater(j, e, unseen, b);
    }
    hide Prefix, PrefixEnd, Suffix, Healthy;
    EarlierFirst(prefix, rest, order);
  }

  lemma {:induction false} RestStartsLater(j: Journal, e: Epoch, unseen: seq<Op>, op: Op)
    requires Healthy(j) && e in j.epochs
    requires forall x :: x in unseen ==> Unseen(j, x)
    requires op in Suffix(j, e) + unseen
    ensures PrefixEnd(j, e).qpc <= op.entry
  {
    var spans, n := EpochSpans(j, e), |Prefix(j, e)|;
    PrefixBegins(j, e);
    PrefixSplits(j, e);
    SpansOrdered(j, e);
    BarrierBounds(j);
    hide Prefix, PrefixEnd, EpochSpans, Barrier, Healthy, Components;
    if op in spans[n..] {
      var k :| n <= k < |spans| && spans[k] == op;
      assert forall i :: 0 <= i < n ==> spans[i] != op;
      assert op !in Prefix(j, e);
    } else {
      assert Unseen(j, op);
    }
  }

  lemma {:induction false} PrefixBracketed(j: Journal, e: Epoch)
    requires Healthy(j) && e in j.epochs
    ensures WellBracketed(Prefix(j, e))
  {
    hide Prefix, PrefixEnd, Healthy, PayloadShape;
    forall i | 0 <= i < |Prefix(j, e)| ensures Prefix(j, e)[i].entry <= Prefix(j, e)[i].exit {
      PrefixOp(j, e, Prefix(j, e)[i]);
    }
  }

  lemma {:induction false} TidyBeginning(groups: seq<seq<Op>>, m: nat)
    requires S.Tidy(groups) && m <= |groups| && WellBracketed(Flatten(groups[..m]))
    ensures S.Tidy(groups[..m])
  {
    hide Flatten, WellBracketed;
    assert forall i :: 0 <= i < m ==> groups[..m][i] == groups[i];
  }

  lemma {:induction false} PrefixTidy(j: Journal, e: Epoch)
    requires Healthy(j) && e in j.epochs
    ensures S.Tidy(Kept(j, e)) && Flatten(Kept(j, e)) == Prefix(j, e)
  {
    hide *;
    GroupsInOrder(j, e);
    KeptDef(j, e);
    PrefixBracketed(j, e);
    TidyBeginning(Groups(j, e), ScanRun(Barrier(j), Groups(j, e)).zero);
  }

  // -------------------------------------------------------------------- a later freeze

  /** A row of the earlier journal as a later freeze may show it: unchanged, or pending then
      and completed since. */
  predicate Continues(row: Row, later: Row, freeze: nat) {
    later == row ||
    (!row.completed && later.completed && later.id == row.id && later.epoch == row.epoch &&
     later.entry == row.entry && (later.exit.Some? ==> later.exit.value >= freeze))
  }

  ghost predicate Continued(row: Row, b: Journal, freeze: nat) {
    exists later :: later in b.operations && Continues(row, later, freeze)
  }

  ghost predicate Continuation(a: Journal, later: Row) {
    exists row :: row in a.operations && Continues(row, later, a.freeze)
  }

  /** Journal b is a later freeze of the same observation: new admissions and losses begin at
      or after the first freeze. */
  ghost predicate Extends(a: Journal, b: Journal) {
    && a.freeze <= b.freeze
    && (forall row :: row in a.operations ==> Continued(row, b, a.freeze))
    && (forall later :: later in b.operations ==>
          Continuation(a, later) || (later.entry.Some? ==> later.entry.value >= a.freeze))
    && (forall loss :: loss in b.losses && loss.bound.Some? ==> loss in a.losses || loss.bound.value >= a.freeze)
  }

  /** The same lifetime in both journals; it may have been destroyed in between. */
  predicate SameLifetime(e: Epoch, later: Epoch) {
    later.id == e.id && later.initial == e.initial && later.maximum == e.maximum
  }

  lemma {:induction false} BarrierGrows(a: Journal, b: Journal)
    requires Healthy(a) && Healthy(b) && Extends(a, b)
    ensures Barrier(a) <= Barrier(b)
  {
    BarrierBounds(a);
    RowBarrierBounds(b.operations, b.freeze);
    LossBarrierBounds(b.losses, RowBarrier(b.operations, b.freeze));
    var rows := RowBarrier(b.operations, b.freeze);
    if rows != b.freeze {
      var later :| later in b.operations && (!later.completed || Unsupported(later)) && later.entry == Some(rows);
      if Continuation(a, later) {
        var row :| row in a.operations && Continues(row, later, a.freeze);
      }
    }
    if Barrier(b) != rows {
      var loss :| loss in b.losses && loss.bound == Some(Barrier(b));
    }
  }

  /** Below the first barrier both freezes show the same operations. */
  lemma {:induction false} SameBelow(a: Journal, b: Journal, e: Epoch, later: Epoch, op: Op)
    requires Healthy(a) && Healthy(b) && Extends(a, b)
    requires e in a.epochs && later in b.epochs && SameLifetime(e, later)
    requires op.entry < Barrier(a)
    ensures op in EpochSpans(a, e) <==> op in EpochSpans(b, later)
  {
    BarrierBounds(a);
    SpansOrdered(a, e);
    SpansOrdered(b, later);
    SpansFrom(a.operations);
    SpansFrom(b.operations);
    if op in EpochSpans(a, e) {
      var row := RowOf(a, e, op);
      assert Continued(row, b, a.freeze);
      var next :| next in b.operations && Continues(row, next, a.freeze);
      assert next == row;
      var i :| 0 <= i < |b.operations| && b.operations[i] == row;
      assert Spans(b.operations)[i] == op;
    }
    if op in EpochSpans(b, later) {
      var next := RowOf(b, later, op);
      assert Continuation(a, next);
      var row :| row in a.operations && Continues(row, next, a.freeze);
      ClocksKnown(a, row);
      assert next == row;
      var i :| 0 <= i < |a.operations| && a.operations[i] == row;
      assert Spans(a.operations)[i] == op;
    }
  }

  lemma {:induction false} BelowCount(s: seq<Op>, barrier: nat) returns (k: nat)
    requires Sorted(s)
    ensures k <= |s|
    ensures forall i :: 0 <= i < k ==> s[i].entry < barrier
    ensures forall i :: k <= i < |s| ==> barrier <= s[i].entry
  {
    if s == [] || s[|s|-1].entry < barrier {
      k := |s|;
      assert forall i :: 0 <= i < |s| - 1 ==> Before(s[i], s[|s|-1]);
    } else {
      k := BelowCount(s[..|s|-1], barrier);
    }
  }

  lemma {:induction false} CommonBeginning(s: seq<Op>, t: seq<Op>, barrier: nat) returns (k: nat)
    requires Sorted(s) && Sorted(t)
    requires forall op: Op :: op.entry < barrier ==> (op in s <==> op in t)
    ensures k <= |s| && k <= |t| && s[..k] == t[..k]
    ensures forall i :: 0 <= i < k ==> s[i].entry < barrier
    ensures forall i :: k <= i < |s| ==> barrier <= s[i].entry
    ensures forall i :: k <= i < |t| ==> barrier <= t[i].entry
  {
    k := BelowCount(s, barrier);
    var n := BelowCount(t, barrier);
    forall op ensures op in s[..k] <==> op in t[..n] {
      if op in s[..k] { assert op in s && op.entry < barrier; }
      if op in t[..n] { assert op in t && op.entry < barrier; }
    }
    SortedAgree(s[..k], t[..n]);
    assert |s[..k]| == |t[..n]|;
  }

  /** The accepted components of the first freeze are the first components of the second. */
  lemma {:induction false} AcceptedStay(a: Journal, b: Journal, e: Epoch, later: Epoch)
    requires Healthy(a) && Healthy(b) && Extends(a, b)
    requires e in a.epochs && later in b.epochs && SameLifetime(e, later)
    ensures Groups(a, e)[..ScanRun(Barrier(a), Groups(a, e)).taken] <= Groups(b, later)
  {
    var s, t := EpochSpans(a, e), EpochSpans(b, later);
    var groups: seq<seq<Op>>, m := Groups(a, e), ScanRun(Barrier(a), Groups(a, e)).taken;
    SpansOrdered(a, e);
    SpansOrdered(b, later);
    forall op: Op | op.entry < Barrier(a) ensures op in s <==> op in t { SameBelow(a, b, e, later, op); }
    AcceptedEnd(a, e);
    if m > 0 && |Flatten(groups[..m])| < |s| { NextGroup(a, e, |Flatten(groups[..m])|); }
    ComponentsStay(s, t, Barrier(a), m);
  }

  /** Components that end below a barrier depend only on the operations that begin below it. */
  lemma {:induction false} ComponentsStay(s: seq<Op>, t: seq<Op>, barrier: nat, m: nat)
    requires Sorted(s) && Sorted(t) && m <= |Components(s)|
    requires forall op: Op :: op.entry < barrier ==> (op in s <==> op in t)
    requires forall op :: op in Flatten(Components(s)[..m]) ==> op.entry < barrier
    requires m > 0 ==> LastExit(Components(s)[m-1]) < barrier
    requires m > 0 && |Flatten(Components(s)[..m])| < |s| ==>
               LastExit(Components(s)[m-1]) < s[|Flatten(Components(s)[..m])|].entry
    ensures Components(s)[..m] <= Components(t)
  {
    hide *;
    var k := CommonBeginning(s, t, barrier);
    ComponentsPrefix(s, m);
    var c := |Flatten(Components(s)[..m])|;
    assert c <= k by {
      if c > 0 { assert s[..c][c-1] == s[c-1] && s[c-1] in s[..c]; }
    }
    assert t[..c] == s[..c] by { assert t[..k][..c] == t[..c] && s[..k][..c] == s[..c]; }
    assert c < k ==> t[c] == s[c] by { assert forall i :: 0 <= i < k ==> t[..k][i] == s[..k][i]; }
    CutAt(s, t, c, m);
    ComponentsCut(t, c);
  }

  lemma {:induction false} CutAt(s: seq<Op>, t: seq<Op>, c: nat, m: nat)
    requires c <= |t| && m <= |Components(s)| && Components(t[..c]) == Components(s)[..m]
    requires m > 0 && c < |t| ==> LastExit(Components(s)[m-1]) < t[c].entry
    ensures Cut(t, c)
  {
    hide Components, LastExit;
  }

  /** Accepted operations end before the barrier. */
  lemma {:induction false} AcceptedEnd(j: Journal, e: Epoch)
    requires Healthy(j) && e in j.epochs
    ensures var m := ScanRun(Barrier(j), Groups(j, e)).taken;
            (forall op :: op in Flatten(Groups(j, e)[..m]) ==> op.entry <= op.exit < Barrier(j)) &&
            (m > 0 ==> Groups(j, e)[m-1] != [] && LastExit(Groups(j, e)[m-1]) < Barrier(j))
  {
    var groups: seq<seq<Op>>, m := Groups(j, e), ScanRun(Barrier(j), Groups(j, e)).taken;
    GroupsInOrder(j, e);
    GroupsPlain(j, e);
    FreshEpoch(j, e);
    ScanAgrees(e, Barrier(j), groups);
    forall op | op in Flatten(groups[..m]) ensures op.entry <= op.exit < Barrier(j) {
      var i := S.GroupOf(groups[..m], op);
      assert op in groups[i] && !Crosses(groups[i], Barrier(j));
    }
    if m > 0 {
      LastExitBounds(groups[m-1]);
      assert !Crosses(groups[m-1], Barrier(j));
    }
  }

  lemma {:induction false} AfterPrefix(ops: seq<Op>, m: nat, c: nat) returns (i: nat)
    requires Sorted(ops) && Unique(ops) && m <= |Components(ops)|
    requires c == |Flatten(Components(ops)[..m])| < |ops|
    ensures m <= i < |Components(ops)| && ops[c] in Components(ops)[i]
  {
    ComponentsPartition(ops);
    ComponentsPrefix(ops, m);
    i := S.GroupOf(Components(ops), ops[c]);
    assert ops[c] !in ops[..c];
    if i < m { FlattenMember(Components(ops)[..m], i, ops[c]); }
  }

  /** The operation right after the accepted ones starts after all of them have ended. */
  lemma {:induction false} NextGroup(j: Journal, e: Epoch, c: nat)
    requires Healthy(j) && e in j.epochs
    requires var m := ScanRun(Barrier(j), Groups(j, e)).taken;
             m > 0 && c == |Flatten(Groups(j, e)[..m])| < |EpochSpans(j, e)|
    ensures LastExit(Groups(j, e)[ScanRun(Barrier(j), Groups(j, e)).taken - 1]) < EpochSpans(j, e)[c].entry
  {
    var groups: seq<seq<Op>>, m := Groups(j, e), ScanRun(Barrier(j), Groups(j, e)).taken;
    GroupsInOrder(j, e);
    SpansOrdered(j, e);
    var i := AfterPrefix(EpochSpans(j, e), m, c);
    LastExitBounds(groups[m-1]);
  }

  lemma {:induction false} ScanTaken(barrier: nat, higher: nat, groups: seq<seq<Op>>)
    requires barrier <= higher
    ensures var s := ScanRun(barrier, groups);
            ScanRun(higher, groups[..s.taken]) == Scan(s.taken, s.zero, s.balance, None)
  {
    if groups != [] {
      var front := groups[..|groups|-1];
      ScanTaken(barrier, higher, front);
      TakenFront(barrier, groups);
    }
  }

  lemma {:induction false} ZeroGrows(barrier: nat, groups: seq<seq<Op>>, m: nat)
    requires m <= |groups|
    ensures ScanRun(barrier, groups[..m]).zero <= ScanRun(barrier, groups).zero
  {
    if m == |groups| {
      assert groups[..m] == groups;
    } else {
      assert groups[..|groups|-1][..m] == groups[..m];
      ZeroGrows(barrier, groups[..|groups|-1], m);
    }
  }

  lemma {:induction false} MatchesGrow(e: Epoch, groups: seq<seq<Op>>, m: nat)
    requires m <= |groups|
    ensures V1.LedgerRun(e, groups[..m]).matches <= V1.LedgerRun(e, groups).matches
  {
    if m == |groups| {
      assert groups[..m] == groups;
    } else {
      assert groups[..|groups|-1][..m] == groups[..m];
      MatchesGrow(e, groups[..|groups|-1], m);
    }
  }

  lemma {:induction false} PrefixesGrow(barrier: nat, higher: nat, ga: seq<seq<Op>>, gb: seq<seq<Op>>, e: Epoch)
    requires barrier <= higher && ga[..ScanRun(barrier, ga).taken] <= gb
    ensures var x, y := ScanRun(barrier, ga).zero, ScanRun(higher, gb).zero;
            x <= y && ga[..x] <= gb[..y] &&
            Flatten(ga[..x]) <= Flatten(gb[..y]) &&
            V1.LedgerRun(e, ga[..x]).matches <= V1.LedgerRun(e, gb[..y]).matches
  {
    var s, y := ScanRun(barrier, ga), ScanRun(higher, gb).zero;
    ScanTaken(barrier, higher, ga);
    assert gb[..s.taken] == ga[..s.taken];
    ZeroGrows(higher, gb, s.taken);
    assert ga[..s.taken][..s.zero] == ga[..s.zero];
    assert gb[..s.taken][..s.zero] == gb[..s.zero];
    assert gb[..y][..s.zero] == gb[..s.zero];
    FlattenSplit(gb[..y], s.zero);
    MatchesGrow(e, gb[..y], s.zero);
  }

  /** FREEZE MONOTONICITY. A later freeze never lowers the barrier, and every epoch's retained
      operations and consumptions are a beginning of the later ones. */
  lemma {:induction false} LaterFreezeKeepsEvidence(a: Journal, b: Journal, e: Epoch, later: Epoch)
    requires Healthy(a) && Healthy(b) && Extends(a, b)
    requires e in a.epochs && later in b.epochs && SameLifetime(e, later)
    ensures Barrier(a) <= Barrier(b)
    ensures Prefix(a, e) <= Prefix(b, later)
    ensures PrefixMatches(a, e) <= PrefixMatches(b, later)
  {
    BarrierGrows(a, b);
    AcceptedStay(a, b, e, later);
    PrefixesGrow(Barrier(a), Barrier(b), Groups(a, e), Groups(b, later), later);
    LedgerIgnoresLifetime(e, later, Groups(a, e)[..ScanRun(Barrier(a), Groups(a, e)).zero]);
  }

  // ------------------------------------------------------------------- report level

  /** The report of a journal in which nothing was found wrong. */
  ghost predicate IssueFree(j: Journal) {
    ReportOf(j).Audited? && ReportOf(j).issues == {}
  }

  lemma {:induction false} MatchesMembers(j: Journal, epochs: seq<Epoch>)
    ensures forall m :: m in Matches(j, epochs) <==> exists e :: e in epochs && m in PrefixMatches(j, e)
  {
    if epochs != [] {
      var front, last := epochs[..|epochs|-1], epochs[|epochs|-1];
      MatchesMembers(j, front);
      assert epochs == front + [last];
      forall m | m in Matches(j, epochs) ensures exists e :: e in epochs && m in PrefixMatches(j, e) {
        if m in PrefixMatches(j, last) {
          assert last in epochs;
        } else {
          assert m in Matches(j, front);
          var e :| e in front && m in PrefixMatches(j, e);
          assert e in epochs;
        }
      }
      forall e, m | e in epochs && m in PrefixMatches(j, e) ensures m in Matches(j, epochs) {
        if e != last { assert e in front; }
      }
    }
  }

  lemma {:induction false} UpdatesMembers(matches: seq<V1.Match>)
    ensures forall m :: m in V1.Updates(matches) <==>
              m in matches && m.release.payload.Release? && m.release.payload.context.Update?
  {
    if matches != [] {
      UpdatesMembers(matches[..|matches|-1]);
      assert matches == matches[..|matches|-1] + [matches[|matches|-1]];
    }
  }

  /** EVIDENCE IS NEVER WITHDRAWN. Between two issue-free reports of one observation the barrier
      only moves later, and every association and consumption of the first is in the second. */
  lemma {:induction false} LaterReportKeepsAssociations(a: Journal, b: Journal)
    requires IssueFree(a) && IssueFree(b) && Extends(a, b)
    requires forall e :: e in a.epochs ==> exists later :: later in b.epochs && SameLifetime(e, later)
    ensures ReportOf(a).barrier <= ReportOf(b).barrier
    ensures forall m :: m in ReportOf(a).consumptions ==> m in ReportOf(b).consumptions
    ensures forall m :: m in ReportOf(a).associations ==> m in ReportOf(b).associations
  {
    var ma, mb := Matches(a, a.epochs), Matches(b, b.epochs);
    BarrierGrows(a, b);
    MatchesMembers(a, a.epochs);
    MatchesMembers(b, b.epochs);
    forall m | m in ma ensures m in mb {
      var e :| e in a.epochs && m in PrefixMatches(a, e);
      var later :| later in b.epochs && SameLifetime(e, later);
      LaterFreezeKeepsEvidence(a, b, e, later);
    }
    UpdatesMembers(ma);
    UpdatesMembers(mb);
  }
}
