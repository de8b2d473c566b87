/** Exactly which launches the kill switch admits, until when, and what each leaves in the cache, said
    over the list that answered and the record that was read. */
module KillAdmission {
  import opened Options
  import opened KillSwitch

  /** The list grants this host the use of the build until `until`. */
  ghost predicate Grants(l: Leases, host: Hash, until: nat) {
    exists g :: g in l.grants && g.host == host && g.validUntil == until
  }

  /** A list somebody may rely on: dates in range, hosts in strictly rising order. */
  ghost predicate WellFormed(l: Leases) {
    && 1577836800 <= l.issued <= 4102444800 && |l.grants| <= 256
    && (forall g :: g in l.grants ==> 1577836800 <= g.validUntil <= 4102444800)
    && (forall i, k :: 0 <= i < k < |l.grants| ==> l.grants[i].host < l.grants[k].host)
  }

  lemma {:induction false} Rising(l: Leases, i: nat, k: nat)
    requires ModelValid(l) && i < k < |l.grants|
    ensures l.grants[i].host < l.grants[k].host
  {
    if i + 1 < k { Rising(l, i, k - 1); }
  }

  lemma {:induction false} WellFormedExactly(l: Leases)
    ensures ModelValid(l) <==> WellFormed(l)
  {
    if ModelValid(l) {
      forall i, k | 0 <= i < k < |l.grants| ensures l.grants[i].host < l.grants[k].host { Rising(l, i, k); }
    }
  }

  lemma {:induction false} ListedIs(grants: seq<Grant>, host: Hash)
    ensures Listed(grants, host).Some? ==> Listed(grants, host).value in grants && Listed(grants, host).value.host == host
    ensures Listed(grants, host).None? ==> forall g :: g in grants ==> g.host != host
  {
    if grants != [] {
      ListedIs(grants[1..], host);
      assert grants == [grants[0]] + grants[1..];
    }
  }

  /** A well-formed list grants a host at most one date. */
  lemma {:induction false} GrantsExactly(l: Leases, host: Hash, until: nat)
    requires WellFormed(l)
    ensures Grants(l, host, until) <==> Listed(l.grants, host).Some? && Listed(l.grants, host).value.validUntil == until
  {
    ListedIs(l.grants, host);
    if Grants(l, host, until) {
      var g :| g in l.grants && g.host == host && g.validUntil == until;
      var i :| 0 <= i < |l.grants| && l.grants[i] == g;
      var k :| 0 <= k < |l.grants| && l.grants[k] == Listed(l.grants, host).value;
      assert i == k;
    }
  }

  /** A managed start asks nobody while a record it can read is less than a day old. */
  predicate Asks(cell: Cell, l: Launch) {
    !(l.preferCached && l.cache && (l.lock || l.readOnly) && cell.Checked? && cell.at <= l.now < cell.at + 86400)
  }

  /** The list that answered this launch: asked for, well formed, and not issued in the future. */
  ghost predicate Answered(cell: Cell, l: Launch, list: Leases) {
    Asks(cell, l) && l.fetched == Some(list) && WellFormed(list) && list.issued <= l.now + 300
  }

  /** The record this launch can rely on when nobody answered. */
  ghost predicate Relies(cell: Cell, l: Launch, host: Hash, until: nat) {
    && l.cache && (l.lock || l.readOnly) && cell.Checked? && WellFormed(cell.leases)
    && 1577836800 <= cell.at <= 4102444800 && cell.at <= l.now
    && exists valid :: Grants(cell.leases, host, valid) && until == Min(cell.at + 86400, valid)
  }

  /** The launch is of the ticket's own host, after the build was created, on valid clocks. */
  predicate Proper(t: Ticket, host: Hash, l: Launch) {
    t.host == host && 1577836800 <= t.created <= l.now <= 4102444800 && t.created <= 4102444800
  }

  lemma {:induction false} OnlineExactly(cell: Cell, l: Launch, list: Leases)
    ensures Online(cell, l) == Some(list) && Authoritative(Online(cell, l), l.now) <==> Answered(cell, l, list)
    ensures Authoritative(Online(cell, l), l.now) <==> exists list :: Answered(cell, l, list)
  {
    if Online(cell, l).Some? {
      WellFormedExactly(Online(cell, l).value);
      hide ModelValid, WellFormed;
      assert Authoritative(Online(cell, l), l.now) ==> Answered(cell, l, Online(cell, l).value);
    }
    hide ModelValid, WellFormed;
  }

  lemma {:induction false} ProperExactly(t: Ticket, host: Hash, cell: Cell, l: Launch)
    ensures DecisionOf(t, host, cell, l).Decision? <==> Proper(t, host, l)
  {
    hide ModelValid, Listed;
  }

  lemma {:induction false} AnsweredOutcome(t: Ticket, host: Hash, cell: Cell, l: Launch, list: Leases)
    requires Proper(t, host, l) && Answered(cell, l, list)
    ensures forall until: nat :: OutcomeOf(t, host, cell, l) == Admitted(until) <==>
              l.now <= l.completed < until && l.completed <= 4102444800 &&
              exists valid :: Grants(list, host, valid) && l.now < valid && until == Min(l.now + 86400, valid)
  {
    OnlineExactly(cell, l, list);
    var found := Listed(list.grants, host);
    if found.Some? { GrantsExactly(list, host, found.value.validUntil); }
    forall valid | Grants(list, host, valid) ensures found.Some? && valid == found.value.validUntil {
      GrantsExactly(list, host, valid);
    }
    hide Listed, Grants, WellFormed, ModelValid, Online, Seen, Asks;
  }

  lemma {:induction false} ReliesExactly(cell: Cell, l: Launch, host: Hash, until: nat)
    ensures var seen := Seen(cell, l);
            Relies(cell, l, host, until) <==>
            seen.Checked? && ModelValid(seen.leases) && DateValid(seen.at) && seen.at <= l.now &&
            Listed(seen.leases.grants, host).Some? &&
            until == Min(seen.at + CHECK, Listed(seen.leases.grants, host).value.validUntil)
  {
    if cell.Checked? {
      WellFormedExactly(cell.leases);
      var found := Listed(cell.leases.grants, host);
      if WellFormed(cell.leases) {
        if found.Some? { GrantsExactly(cell.leases, host, found.value.validUntil); }
        forall valid | Grants(cell.leases, host, valid) ensures found.Some? && valid == found.value.validUntil {
          GrantsExactly(cell.leases, host, valid);
        }
      }
    }
    hide Listed, Grants, WellFormed, ModelValid;
  }

  /** The last second an unanswered launch is admitted in, plus one. */
  ghost predicate OfflineUntil(t: Ticket, host: Hash, cell: Cell, l: Launch, until: nat) {
    if exists relied: nat :: Relies(cell, l, host, relied)
    then exists relied: nat :: Relies(cell, l, host, relied) && until == Max(t.created + 259200, relied)
    else until == t.created + 259200
  }

  lemma {:induction false} OfflineExactly(t: Ticket, host: Hash, cell: Cell, l: Launch)
    ensures var seen := Seen(cell, l);
            var relied := seen.Checked? && ModelValid(seen.leases) && DateValid(seen.at) && seen.at <= l.now &&
                          Listed(seen.leases.grants, host).Some?;
            forall until: nat :: OfflineUntil(t, host, cell, l, until) <==>
              until == if relied then Max(t.created + OFFLINE, Min(seen.at + CHECK, Listed(seen.leases.grants, host).value.validUntil))
                       else t.created + OFFLINE
  {
    forall until: nat
      ensures var seen := Seen(cell, l);
              Relies(cell, l, host, until) <==>
              seen.Checked? && ModelValid(seen.leases) && DateValid(seen.at) && seen.at <= l.now &&
              Listed(seen.leases.grants, host).Some? &&
              until == Min(seen.at + CHECK, Listed(seen.leases.grants, host).value.validUntil)
    {
      ReliesExactly(cell, l, host, until);
    }
    var seen := Seen(cell, l);
    if seen.Checked? && ModelValid(seen.leases) && DateValid(seen.at) && seen.at <= l.now &&
       Listed(seen.leases.grants, host).Some?
    {
      assert Relies(cell, l, host, Min(seen.at + CHECK, Listed(seen.leases.grants, host).value.validUntil));
    }
    hide Relies, Seen, ModelValid, Listed, Min;
  }

  lemma {:induction false} UnansweredOutcome(t: Ticket, host: Hash, cell: Cell, l: Launch)
    requires Proper(t, host, l) && !exists list :: Answered(cell, l, list)
    ensures forall until: nat :: OutcomeOf(t, host, cell, l) == Admitted(until) <==>
              l.now <= l.completed < until && l.completed <= 4102444800 &&
              !(cell.Withdrawn? && l.cache && (l.lock || l.readOnly)) && OfflineUntil(t, host, cell, l, until)
  {
    OnlineExactly(cell, l, Leases(0, []));
    OfflineExactly(t, host, cell, l);
    hide Listed, ModelValid, Online, Authoritative, OfflineUntil, Answered;
  }

  /** ADMITTED. A launch is admitted until `until` exactly when it is proper, ends in time, and either
      the list that answered grants the host a later date (until that date or a day from now), or nobody
      answered, no withdrawal is on record, and the offline allowance or a day from the recorded check,
      within its grant, has not run out. */
  lemma {:induction false} AdmittedExactly(t: Ticket, host: Hash, cell: Cell, l: Launch, until: nat)
    ensures OutcomeOf(t, host, cell, l) == Admitted(until) <==>
            Proper(t, host, l) && l.now <= l.completed < until && l.completed <= 4102444800 &&
            if exists list :: Answered(cell, l, list)
            then exists list, valid :: Answered(cell, l, list) && Grants(list, host, valid) && l.now < valid &&
                   until == Min(l.now + 86400, valid)
            else !(cell.Withdrawn? && l.cache && (l.lock || l.readOnly)) && OfflineUntil(t, host, cell, l, until)
  {
    ProperExactly(t, host, cell, l);
    if Proper(t, host, l) {
      if list :| Answered(cell, l, list) {
        AnsweredOutcome(t, host, cell, l, list);
        forall other | Answered(cell, l, other) ensures other == list {}
      } else {
        UnansweredOutcome(t, host, cell, l);
      }
    }
    hide Proper, Grants, OfflineUntil, Min, WellFormed, DecisionOf, Asks;
  }

  /** RECORDED. A launch that holds the cache and can write it records the answering list when it grants
      the host a later date and a withdrawal when it does not; every other launch leaves the cell. */
  lemma {:induction false} CellExactly(t: Ticket, host: Hash, cell: Cell, l: Launch)
    ensures (!Proper(t, host, l) || !(l.cache && l.lock && !l.readOnly && l.writes) ||
             !exists list :: Answered(cell, l, list)) ==>
              CellAfter(t, host, cell, l) == cell
    ensures forall list :: Proper(t, host, l) && l.cache && l.lock && !l.readOnly && l.writes && Answered(cell, l, list) ==>
              CellAfter(t, host, cell, l) ==
                if exists valid :: Grants(list, host, valid) && l.now < valid then Checked(list, l.now) else Withdrawn
  {
    ProperExactly(t, host, cell, l);
    OnlineWhenWriting(t, host, l.now, Online(cell, l), Seen(cell, l));
    OnlineExactly(cell, l, Leases(0, []));
    hide Grants, WellFormed, ModelValid, Authoritative, Names, Asks, Seen;
    forall list | Proper(t, host, l) && l.cache && l.lock && !l.readOnly && l.writes && Answered(cell, l, list)
      ensures CellAfter(t, host, cell, l) ==
                if exists valid :: Grants(list, host, valid) && l.now < valid then Checked(list, l.now) else Withdrawn
    {
      OnlineExactly(cell, l, list);
      NamesExactly(list, host, l.now);
      AnswerWrites(t, host, cell, l, list);
    }
  }

  lemma {:induction false} NamesExactly(list: Leases, host: Hash, now: nat)
    requires WellFormed(list)
    ensures Names(list, host, now) <==> exists valid :: Grants(list, host, valid) && now < valid
  {
    var found := Listed(list.grants, host);
    if found.Some? { GrantsExactly(list, host, found.value.validUntil); }
    forall valid | Grants(list, host, valid) ensures found.Some? && valid == found.value.validUntil {
      GrantsExactly(list, host, valid);
    }
    hide Listed, Grants, WellFormed;
  }

  lemma {:induction false} AnswerWrites(t: Ticket, host: Hash, cell: Cell, l: Launch, list: Leases)
    requires Proper(t, host, l) && l.Holds() && l.writes
    requires Online(cell, l) == Some(list) && Authoritative(Online(cell, l), l.now)
    ensures CellAfter(t, host, cell, l) == if Names(list, host, l.now) then Checked(list, l.now) else Withdrawn
  {
    hide ModelValid, Listed, Online, Seen, Authoritative;
  }

  // -------------------------------------------------------------- offline after a check

  /** Nobody answers these launches. */
  ghost predicate Silent(launches: seq<Launch>) { forall l :: l in launches ==> l.fetched.None? }

  lemma {:induction false} SilentKeeps(t: Ticket, host: Hash, cell: Cell, launches: seq<Launch>)
    requires Silent(launches)
    ensures Run(t, host, cell, launches) == cell
  {
    if launches != [] {
      var front, l := launches[..|launches|-1], launches[|launches|-1];
      assert launches == front + [l];
      SilentKeeps(t, host, cell, front);
      CellExactly(t, host, cell, l);
      hide CellAfter, Run;
    }
  }

  /** OFFLINE. After a check that listed the host was recorded, and any launches nobody answered, a launch
      that can read the cell is admitted offline exactly while it ends before the offline allowance, or
      before both a day from that check and the end of the grant. */
  lemma {:induction false} OfflineAfterCheck(t: Ticket, host: Hash, cell: Cell, check: Launch, list: Leases, valid: nat,
      between: seq<Launch>, l: Launch)
    requires Proper(t, host, check) && check.cache && check.lock && !check.readOnly && check.writes
    requires Answered(cell, check, list) && Grants(list, host, valid) && check.now < valid
    requires Silent(between + [l]) && Proper(t, host, l) && l.cache && (l.lock || l.readOnly) && check.now <= l.now
    ensures Run(t, host, CellAfter(t, host, cell, check), between) == Checked(list, check.now)
    ensures OutcomeOf(t, host, Checked(list, check.now), l).Admitted? <==>
            l.now <= l.completed <= 4102444800 &&
            l.completed < Max(t.created + 259200, Min(check.now + 86400, valid))
  {
    CellExactly(t, host, cell, check);
    assert forall x :: x in between ==> x in between + [l];
    SilentKeeps(t, host, Checked(list, check.now), between);
    assert l in between + [l];
    var until := Max(t.created + 259200, Min(check.now + 86400, valid));
    assert Relies(Checked(list, check.now), l, host, Min(check.now + 86400, valid));
    OneReliance(Checked(list, check.now), l, host, Min(check.now + 86400, valid));
    assert OfflineUntil(t, host, Checked(list, check.now), l, until);
    assert forall n: nat :: OfflineUntil(t, host, Checked(list, check.now), l, n) ==> n == until;
    UnansweredOutcome(t, host, Checked(list, check.now), l);
    hide Run, OutcomeOf, CellAfter, Relies, Grants, WellFormed, Asks, OfflineUntil, Proper;
    if OutcomeOf(t, host, Checked(list, check.now), l).Admitted? {
      assert OutcomeOf(t, host, Checked(list, check.now), l) ==
        Admitted(OutcomeOf(t, host, Checked(list, check.now), l).expires);
    }
  }

  lemma {:induction false} OneReliance(cell: Cell, l: Launch, host: Hash, until: nat)
    requires Relies(cell, l, host, until)
    ensures forall other: nat :: Relies(cell, l, host, other) ==> other == until
  {
    forall other: nat | Relies(cell, l, host, other) ensures other == until {
      ReliesExactly(cell, l, host, until);
      ReliesExactly(cell, l, host, other);
    }
    hide Relies;
  }
}
