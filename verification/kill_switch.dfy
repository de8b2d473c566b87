/** Kill-switch admission: one decision, one cache cell, and what any run of launches satisfies.
    An authenticated list, the fetch outcome and the clock readings are inputs. */
module KillSwitch {
  import opened Options

  const MINIMUM_UTC: nat := 1577836800
  const MAXIMUM_UTC: nat := 4102444800
  const MAX_GRANTS: nat := 256
  const OFFLINE: nat := 259200
  const CHECK: nat := 86400
  const TOLERANCE: nat := 300
  const U64: nat := 0xFFFF_FFFF_FFFF_FFFF

  /** A host hash, ordered as its 64 hexadecimal digits are. */
  type Hash = nat

  datatype Ticket = Ticket(host: Hash, created: nat)
  datatype Grant = Grant(host: Hash, validUntil: nat)
  datatype Leases = Leases(issued: nat, grants: seq<Grant>)

  predicate DateValid(utc: nat) { MINIMUM_UTC <= utc <= MAXIMUM_UTC }

  predicate ModelValid(l: Leases) {
    && DateValid(l.issued) && |l.grants| <= MAX_GRANTS
    && (forall g :: g in l.grants ==> DateValid(g.validUntil))
    && (forall i :: 0 <= i < |l.grants| - 1 ==> l.grants[i].host < l.grants[i+1].host)
  }

  function Listed(grants: seq<Grant>, host: Hash): Option<Grant> {
    if grants == [] then None
    else if grants[0].host == host then Some(grants[0])
    else Listed(grants[1..], host)
  }

  // --------------------------------------------------------------------- one decision

  /** The cell: nothing usable, the last listing check, or a recorded withdrawal. */
  datatype Cell = NoRecord | Checked(leases: Leases, at: nat) | Withdrawn

  datatype Keep = KeepCell | Refresh | Revoke
  datatype Decision = Invalid | Decision(allowed: bool, expires: nat, cache: Keep)

  function Min(a: nat, b: nat): nat { if b < a then b else a }
  function Max(a: nat, b: nat): nat { if a < b then b else a }

  /** An authenticated list that is well formed and not issued in the future. */
  predicate Authoritative(online: Option<Leases>, now: nat) {
    online.Some? && ModelValid(online.value) && !(online.value.issued > now && online.value.issued - now > TOLERANCE)
  }

  predicate Names(l: Leases, host: Hash, now: nat) {
    var g := Listed(l.grants, host);
    g.Some? && g.value.validUntil > now
  }

  function Evaluate(t: Ticket, host: Hash, now: nat, online: Option<Leases>, cell: Cell): Decision {
    if !DateValid(t.created) || t.host != host || !DateValid(now) || now < t.created then Invalid
    else if Authoritative(online, now) then
      if Names(online.value, host, now)
      then Decision(true, Min(now + CHECK, Listed(online.value.grants, host).value.validUntil), Refresh)
      else Decision(false, 0, Revoke)
    else if cell.Withdrawn? then Decision(false, 0, KeepCell)
    else
      var offline := t.created + OFFLINE;
      var grant := if cell.Checked? && ModelValid(cell.leases) && DateValid(cell.at) && cell.at <= now
                   then Listed(cell.leases.grants, host) else None;
      var expiry := if grant.Some? then Max(offline, Min(cell.at + CHECK, grant.value.validUntil)) else offline;
      if now >= expiry then Decision(false, 0, KeepCell) else Decision(true, expiry, KeepCell)
  }

  // ----------------------------------------------------------------------- one launch

  /** What the environment does for a launch: whether the cache opens, its lock is held, the
      check only reads, the answer fetched and authenticated (if any), the write, and two clocks. */
  datatype Launch = Launch(now: nat, completed: nat, fetched: Option<Leases>, cache: bool, lock: bool,
                           readOnly: bool, preferCached: bool, writes: bool)
  {
    predicate Holds() { cache && lock && !readOnly }
    predicate ReadsCell() { cache && (lock || readOnly) }
  }

  datatype Outcome = Refused | Admitted(expires: nat)

  function Seen(cell: Cell, l: Launch): Cell { if l.ReadsCell() then cell else NoRecord }

  /** A managed start follows a fresh listing check instead of asking again. */
  predicate FreshCheck(seen: Cell, now: nat) { seen.Checked? && seen.at <= now && now - seen.at < CHECK }

  function Online(cell: Cell, l: Launch): Option<Leases> {
    if l.preferCached && FreshCheck(Seen(cell, l), l.now) then None else l.fetched
  }

  function DecisionOf(t: Ticket, host: Hash, cell: Cell, l: Launch): Decision {
    if t.host != host || l.now < t.created || !DateValid(l.now) then Invalid
    else Evaluate(t, host, l.now, Online(cell, l), Seen(cell, l))
  }

  function CellAfter(t: Ticket, host: Hash, cell: Cell, l: Launch): Cell {
    var d := DecisionOf(t, host, cell, l);
    if d.Invalid? || d.cache == KeepCell || !l.Holds() || !l.writes || Online(cell, l).None? then cell
    else if d.cache == Revoke then Withdrawn
    else Checked(Online(cell, l).value, l.now)
  }

  function OutcomeOf(t: Ticket, host: Hash, cell: Cell, l: Launch): Outcome {
    var d := DecisionOf(t, host, cell, l);
    if d.Invalid? || l.completed < l.now || l.completed > MAXIMUM_UTC || !d.allowed || l.completed >= d.expires
    then Refused else Admitted(d.expires)
  }

  /** The check as written, over one cache cell. */
  class Cache {
    var cell: Cell

    constructor ()
      ensures cell == NoRecord
    {
      cell := NoRecord;
    }

    method CheckKillSwitch(t: Ticket, host: Hash, l: Launch) returns (r: Outcome)
      modifies this
      ensures cell == CellAfter(t, host, old(cell), l) && r == OutcomeOf(t, host, old(cell), l)
    {
      hide Evaluate;
      if t.host != host || l.now < t.created || !DateValid(l.now) { return Refused; }
      var locked := l.cache && !l.readOnly && l.lock;
      var state := if l.cache && (locked || l.readOnly) then cell else NoRecord;
      SeenIs(cell, l);
      var online: Option<Leases> := None;
      if !(l.preferCached && FreshCheck(state, l.now)) { online := l.fetched; }
      var d := Evaluate(t, host, l.now, online, state);
      if d.Invalid? { return Refused; }
      OnlineWhenWriting(t, host, l.now, online, state);
      if locked && d.cache != KeepCell && l.writes {
        cell := if d.cache == Revoke then Withdrawn else Checked(online.value, l.now);
      }
      if l.completed < l.now || l.completed > MAXIMUM_UTC { return Refused; }
      if !d.allowed { return Refused; }
      if l.completed >= d.expires { return Refused; }
      r := Admitted(d.expires);
    }
  }

  lemma {:induction false} SeenIs(cell: Cell, l: Launch)
    ensures Seen(cell, l) == if l.cache && ((l.cache && !l.readOnly && l.lock) || l.readOnly) then cell else NoRecord
  {
  }

  /** Only a verified online answer ever writes the cell. */
  lemma {:induction false} OnlineWhenWriting(t: Ticket, host: Hash, now: nat, online: Option<Leases>, cell: Cell)
    ensures var d := Evaluate(t, host, now, online, cell);
            !d.Invalid? && d.cache != KeepCell ==>
              Authoritative(online, now) && (d.cache == Refresh <==> Names(online.value, host, now)) &&
              (d.cache == Refresh <==> d.allowed)
  {
  }

  // ------------------------------------------------------------------------ whole runs

  /** A launch whose verified, current online list names this host. */
  predicate Listing(t: Ticket, host: Hash, cell: Cell, l: Launch) {
    DecisionOf(t, host, cell, l).Decision? && Authoritative(Online(cell, l), l.now) &&
    Names(Online(cell, l).value, host, l.now)
  }

  function Run(t: Ticket, host: Hash, start: Cell, launches: seq<Launch>): Cell {
    if launches == [] then start
    else CellAfter(t, host, Run(t, host, start, launches[..|launches|-1]), launches[|launches|-1])
  }

  /** When the run last heard from a verified list that the host is current. */
  function LastListing(t: Ticket, host: Hash, launches: seq<Launch>): Option<nat> {
    if launches == [] then None
    else
      var front, l := launches[..|launches|-1], launches[|launches|-1];
      if Listing(t, host, Run(t, host, NoRecord, front), l) then Some(l.now) else LastListing(t, host, front)
  }

  ghost predicate ListedAt(t: Ticket, host: Hash, launches: seq<Launch>, at: nat) {
    exists i :: 0 <= i < |launches| && launches[i].now == at && Listing(t, host, Run(t, host, NoRecord, launches[..i]), launches[i])
  }

  lemma {:induction false} ListedAtGrows(t: Ticket, host: Hash, launches: seq<Launch>, l: Launch, at: nat)
    ensures ListedAt(t, host, launches, at) ==> ListedAt(t, host, launches + [l], at)
    ensures Listing(t, host, Run(t, host, NoRecord, launches), l) ==> ListedAt(t, host, launches + [l], l.now)
  {
    hide Listing;
    var all := launches + [l];
    assert all[..|launches|] == launches;
    assert all[|launches|] == l;
    if ListedAt(t, host, launches, at) {
      var i :| 0 <= i < |launches| && launches[i].now == at && Listing(t, host, Run(t, host, NoRecord, launches[..i]), launches[i]);
      assert all[..i] == launches[..i] && all[i] == launches[i];
    }
  }

  lemma {:induction false} CellStep(t: Ticket, host: Hash, cell: Cell, l: Launch)
    ensures var next := CellAfter(t, host, cell, l);
            next == cell || next.Withdrawn? ||
            (next.Checked? && next.at == l.now && Listing(t, host, cell, l))
    ensures l.Holds() && l.writes && Listing(t, host, cell, l) ==>
              CellAfter(t, host, cell, l).Checked? && CellAfter(t, host, cell, l).at == l.now
  {
    OnlineWhenWriting(t, host, l.now, Online(cell, l), Seen(cell, l));
    if Listing(t, host, cell, l) { ListingRefreshes(t, host, cell, l); }
    hide Evaluate, Authoritative, Names, Online, Seen;
  }

  lemma {:induction false} ListingRefreshes(t: Ticket, host: Hash, cell: Cell, l: Launch)
    requires Listing(t, host, cell, l)
    ensures DecisionOf(t, host, cell, l).cache == Refresh
  {
  }

  /** What the cell records was really heard; with the lock held and every write done, last. */
  lemma {:induction false} CellIsHistory(t: Ticket, host: Hash, launches: seq<Launch>)
    ensures var cell := Run(t, host, NoRecord, launches);
            cell.Checked? ==> ListedAt(t, host, launches, cell.at)
    ensures var cell := Run(t, host, NoRecord, launches);
            (forall i :: 0 <= i < |launches| ==> launches[i].Holds() && launches[i].writes) && cell.Checked? ==>
              LastListing(t, host, launches) == Some(cell.at)
  {
    if launches == [] {
    } else {
      var front, l := launches[..|launches|-1], launches[|launches|-1];
      var before := Run(t, host, NoRecord, front);
      CellIsHistory(t, host, front);
      CellStep(t, host, before, l);
      assert launches == front + [l];
      ListedAtGrows(t, host, front, l, if before.Checked? then before.at else 0);
      RunSteps(t, host, launches);
      assert forall i :: 0 <= i < |front| ==> front[i] == launches[i];
      hide Run, CellAfter, Listing, ListedAt, LastListing;
    }
  }

  lemma {:induction false} RunSteps(t: Ticket, host: Hash, launches: seq<Launch>)
    requires launches != []
    ensures var front, l := launches[..|launches|-1], launches[|launches|-1];
            Run(t, host, NoRecord, launches) == CellAfter(t, host, Run(t, host, NoRecord, front), l) &&
            LastListing(t, host, launches) ==
              if Listing(t, host, Run(t, host, NoRecord, front), l) then Some(l.now) else LastListing(t, host, front)
  {
    hide CellAfter, Listing;
  }

  /** An admission expires by the offline allowance or a day after some listing check. */
  lemma {:induction false} AdmissionBound(t: Ticket, host: Hash, cell: Cell, l: Launch)
    requires OutcomeOf(t, host, cell, l).Admitted?
    ensures l.completed < t.created + OFFLINE ||
            (Listing(t, host, cell, l) && l.completed < l.now + CHECK) ||
            (cell.Checked? && cell.at <= l.now && l.completed < cell.at + CHECK)
    ensures l.now <= l.completed < OutcomeOf(t, host, cell, l).expires
  {
  }

  /** ADMISSION. In any run from an empty cache, whatever the cache, lock, writes and clocks did, an
      admitted launch completes before the offline allowance ends or within a day of a verified
      check that listed the host. */
  lemma {:induction false} AdmittedInTime(t: Ticket, host: Hash, launches: seq<Launch>)
    requires launches != []
    requires var front := launches[..|launches|-1];
             OutcomeOf(t, host, Run(t, host, NoRecord, front), launches[|launches|-1]).Admitted?
    ensures var l := launches[|launches|-1];
            l.completed < t.created + OFFLINE ||
            exists at: nat :: ListedAt(t, host, launches, at) && at <= l.now && l.completed < at + CHECK
  {
    var front, l := launches[..|launches|-1], launches[|launches|-1];
    var cell := Run(t, host, NoRecord, front);
    AdmissionBound(t, host, cell, l);
    CellIsHistory(t, host, front);
    assert launches == front + [l];
    ListedAtGrows(t, host, front, l, if cell.Checked? then cell.at else 0);
    hide Run, Listing, ListedAt, OutcomeOf;
  }

  /** With the lock held and every write done, that check is the last one heard. */
  lemma {:induction false} AdmittedByLastListing(t: Ticket, host: Hash, launches: seq<Launch>)
    requires launches != [] && forall i :: 0 <= i < |launches| ==> launches[i].Holds() && launches[i].writes
    requires var front := launches[..|launches|-1];
             OutcomeOf(t, host, Run(t, host, NoRecord, front), launches[|launches|-1]).Admitted?
    ensures var l, last := launches[|launches|-1], LastListing(t, host, launches);
            l.completed < if last.Some? then Max(t.created + OFFLINE, last.value + CHECK) else t.created + OFFLINE
  {
    var front, l := launches[..|launches|-1], launches[|launches|-1];
    var cell := Run(t, host, NoRecord, front);
    AdmissionBound(t, host, cell, l);
    CellIsHistory(t, host, front);
    RunSteps(t, host, launches);
    assert forall i :: 0 <= i < |front| ==> front[i] == launches[i];
    ListingBound(t, host, cell, l);
    hide Run, Listing, ListedAt, OutcomeOf, LastListing;
  }

  /** A launch that heard a current list is bounded by that list alone. */
  lemma {:induction false} ListingBound(t: Ticket, host: Hash, cell: Cell, l: Launch)
    requires OutcomeOf(t, host, cell, l).Admitted?
    ensures Listing(t, host, cell, l) ==> l.completed < l.now + CHECK
  {
  }

  lemma {:induction false} WithdrawnStep(t: Ticket, host: Hash, l: Launch)
    requires l.ReadsCell() && !Listing(t, host, Withdrawn, l)
    ensures OutcomeOf(t, host, Withdrawn, l) == Refused && CellAfter(t, host, Withdrawn, l) == Withdrawn
  {
  }

  ghost predicate NeverListed(t: Ticket, host: Hash, launches: seq<Launch>) {
    forall i :: 0 <= i < |launches| ==> launches[i].ReadsCell() && !Listing(t, host, Withdrawn, launches[i])
  }

  /** WITHDRAWAL. Once recorded, a withdrawal refuses every launch that can read the cell, until a
      verified, current list names the host again. */
  lemma {:induction false} WithdrawalHolds(t: Ticket, host: Hash, launches: seq<Launch>, i: nat)
    requires NeverListed(t, host, launches) && i <= |launches|
    ensures Run(t, host, Withdrawn, launches[..i]) == Withdrawn
    ensures i < |launches| ==> OutcomeOf(t, host, Run(t, host, Withdrawn, launches[..i]), launches[i]) == Refused
  {
    if i > 0 {
      WithdrawalHolds(t, host, launches, i - 1);
      assert launches[..i][..i-1] == launches[..i-1];
      WithdrawnStep(t, host, launches[i-1]);
    }
    if i < |launches| { WithdrawnStep(t, host, launches[i]); }
    hide OutcomeOf, CellAfter, Listing;
  }

  /** A withdrawal is recorded by exactly a verified, current list that does not name the host. */
  lemma {:induction false} WithdrawalRecorded(t: Ticket, host: Hash, cell: Cell, l: Launch)
    requires !cell.Withdrawn? && DateValid(t.created)
    ensures CellAfter(t, host, cell, l).Withdrawn? <==>
            t.host == host && DateValid(l.now) && t.created <= l.now && l.Holds() && l.writes &&
            Authoritative(Online(cell, l), l.now) && !Names(Online(cell, l).value, host, l.now)
  {
    hide ModelValid, Names, Online, Seen;
  }

  // -------------------------------------------------------------------- the cache record

  type Byte = n: nat | n < 256
  type Parser = seq<Byte> -> Option<Leases>

  const HEADER: seq<Byte> :=
    [0x4D, 0x43, 0x4C, 0x41, 0x2D, 0x4B, 0x49, 0x4C, 0x4C, 0x53, 0x57, 0x49, 0x54, 0x43, 0x48, 0x2D,
     0x43, 0x41, 0x43, 0x48, 0x45, 0x2D, 0x56, 0x31, 0x0A]
  const REVOKED: seq<Byte> := [0x72, 0x65, 0x76, 0x6F, 0x6B, 0x65, 0x64, 0x20]
  const CHECKED: seq<Byte> := [0x63, 0x68, 0x65, 0x63, 0x6B, 0x65, 0x64, 0x20]
  const LF: Byte := 0x0A

  function ToText(n: nat): seq<Byte> {
    if n < 10 then [0x30 + n] else ToText(n / 10) + [0x30 + n % 10]
  }

  /** The value of digits, stopping at anything else or past 64 bits. */
  function DigitsValue(text: seq<Byte>): Option<nat> {
    if text == [] then Some(0)
    else
      var before, c := DigitsValue(text[..|text|-1]), text[|text|-1];
      if before.None? || c < 0x30 || c > 0x39 || before.value > (U64 - (c - 0x30)) / 10 then None
      else Some(before.value * 10 + (c - 0x30))
  }

  function DecimalOf(text: seq<Byte>): Option<nat> {
    if text == [] || |text| > 20 || (|text| > 1 && text[0] == 0x30) then None else DigitsValue(text)
  }

  function FirstLine(text: seq<Byte>): (e: nat)
    ensures e <= |text|
  {
    if text == [] || text[0] == LF then 0 else 1 + FirstLine(text[1..])
  }

  function ReadRecord(parse: Parser, bytes: seq<Byte>): Cell {
    if !(HEADER <= bytes) then NoRecord
    else
      var text := bytes[|HEADER|..];
      var end := FirstLine(text);
      if end == |text| then NoRecord else ReadParts(parse, text[..end], text[end+1..])
  }

  /** The record's first line, and the envelope after it. */
  function ReadParts(parse: Parser, line: seq<Byte>, rest: seq<Byte>): Cell {
    if REVOKED <= line && DecimalOf(line[8..]).Some? && rest == [] then Withdrawn
    else if !(CHECKED <= line) || DecimalOf(line[8..]).None? || parse(rest).None? then NoRecord
    else Checked(parse(rest).value, DecimalOf(line[8..]).value)
  }

  function RecordOf(revoked: bool, utc: nat, envelope: seq<Byte>): seq<Byte> {
    HEADER + (if revoked then REVOKED else CHECKED) + ToText(utc) + [LF] + (if revoked then [] else envelope)
  }

  method Decimal(text: seq<Byte>) returns (r: Option<nat>)
    ensures r == DecimalOf(text)
  {
    if |text| == 0 || |text| > 20 || (|text| > 1 && text[0] == 0x30) { return None; }
    var value: nat := 0;
    for i := 0 to |text|
      invariant DigitsValue(text[..i]) == Some(value)
    {
      var c := text[i];
      assert text[..i+1][..i] == text[..i];
      if c < 0x30 || c > 0x39 || value > (U64 - (c - 0x30)) / 10 {
        DigitsFail(text, i + 1);
        return None;
      }
      value := value * 10 + (c - 0x30);
    }
    assert text[..|text|] == text;
    r := Some(value);
  }

  lemma {:induction false} DigitsFail(text: seq<Byte>, i: nat)
    requires i <= |text| && DigitsValue(text[..i]).None?
    ensures DigitsValue(text).None?
  {
    if i == |text| {
      assert text[..i] == text;
    } else {
      assert text[..|text|-1][..i] == text[..i];
      DigitsFail(text[..|text|-1], i);
    }
  }

  lemma {:induction false} TextDigits(n: nat)
    requires n <= U64
    ensures DigitsValue(ToText(n)) == Some(n) && ToText(n) != [] && LF !in ToText(n)
    ensures n > 0 ==> ToText(n)[0] != 0x30
  {
    if n < 10 {
      assert [0x30 + n][..0] == [];
      assert DigitsValue([]) == Some(0);
    } else {
      TextDigits(n / 10);
      var front := ToText(n / 10);
      assert ToText(n)[..|front|] == front;
      assert n / 10 <= (U64 - n % 10) / 10;
    }
  }

  lemma {:induction false} TextLength(n: nat, k: nat, power: nat)
    requires k >= 1 && n < power && PowerOfTen(k) == power
    ensures |ToText(n)| <= k
  {
    if n >= 10 { TextLength(n / 10, k - 1, PowerOfTen(k - 1)); }
  }

  function PowerOfTen(k: nat): nat { if k == 0 then 1 else 10 * PowerOfTen(k - 1) }

  lemma {:induction false} FiveDigits(k: nat)
    ensures PowerOfTen(k + 5) == 100000 * PowerOfTen(k)
  {
    assert PowerOfTen(k + 2) == 10 * PowerOfTen(k + 1) == 100 * PowerOfTen(k);
    assert PowerOfTen(k + 4) == 10 * PowerOfTen(k + 3) == 100 * PowerOfTen(k + 2);
  }

  lemma {:induction false} TwentyDigits()
    ensures PowerOfTen(20) > U64
  {
    FiveDigits(0);
    FiveDigits(5);
    FiveDigits(10);
    FiveDigits(15);
    assert PowerOfTen(0) == 1;
    hide PowerOfTen;
  }

  /** Decimal text of any 64-bit number is accepted and read back as that number. */
  lemma {:induction false} DecimalBack(n: nat)
    requires n <= U64
    ensures DecimalOf(ToText(n)) == Some(n) && |ToText(n)| <= 20 && LF !in ToText(n)
  {
    TextDigits(n);
    TwentyDigits();
    TextLength(n, 20, PowerOfTen(20));
    hide DigitsValue, PowerOfTen;
  }

  lemma {:induction false} LineEnds(line: seq<Byte>, rest: seq<Byte>)
    requires LF !in line
    ensures FirstLine(line + [LF] + rest) == |line|
  {
    var text := line + [LF] + rest;
    if line != [] {
      LineEnds(line[1..], rest);
      assert text[1..] == line[1..] + [LF] + rest;
    }
  }

  lemma {:induction false} SplitAt(line: seq<Byte>, rest: seq<Byte>)
    ensures var text := line + [LF] + rest; text[..|line|] == line && text[|line|+1..] == rest
    ensures (HEADER + rest)[|HEADER|..] == rest && HEADER <= HEADER + rest
  {
    hide *;
  }

  lemma {:induction false} PartsBack(parse: Parser, revoked: bool, utc: nat, envelope: seq<Byte>)
    requires utc <= U64
    ensures ReadParts(parse, LineOf(revoked, utc), if revoked then [] else envelope) ==
            if revoked then Withdrawn
            else if parse(envelope).None? then NoRecord
            else Checked(parse(envelope).value, utc)
  {
    DecimalBack(utc);
    hide DecimalOf, ToText;
    var line := LineOf(revoked, utc);
    assert line[8..] == ToText(utc);
    assert REVOKED <= REVOKED + ToText(utc) && CHECKED <= CHECKED + ToText(utc);
    assert !revoked ==> line[0] == CHECKED[0] != REVOKED[0];
  }

  lemma {:induction false} ReadSplits(parse: Parser, line: seq<Byte>, rest: seq<Byte>)
    requires LF !in line
    ensures ReadRecord(parse, HEADER + (line + [LF] + rest)) == ReadParts(parse, line, rest)
  {
    hide FirstLine, ReadParts;
    var text := line + [LF] + rest;
    LineEnds(line, rest);
    SplitAt(line, rest);
    SplitAt(line, text);
  }

  function LineOf(revoked: bool, utc: nat): seq<Byte> { (if revoked then REVOKED else CHECKED) + ToText(utc) }

  lemma {:induction false} RecordLine(revoked: bool, utc: nat, envelope: seq<Byte>)
    requires utc <= U64
    ensures var line := LineOf(revoked, utc);
            LF !in line && |line| <= 28 &&
            RecordOf(revoked, utc, envelope) == HEADER + (line + [LF] + if revoked then [] else envelope)
  {
    DecimalBack(utc);
    hide DecimalOf, ToText;
    var word, text := if revoked then REVOKED else CHECKED, ToText(utc);
    Regrouped(HEADER, word, text, if revoked then [] else envelope);
    assert forall i :: 0 <= i < 8 ==> word[i] != LF;
  }

  lemma {:induction false} Regrouped(header: seq<Byte>, word: seq<Byte>, text: seq<Byte>, rest: seq<Byte>)
    ensures header + word + text + [LF] + rest == header + ((word + text) + [LF] + rest)
  {
    hide *;
    assert header + word + text + [LF] + rest == header + (word + text) + ([LF] + rest);
  }

  /** RECORD. Reading a written record gives back the same withdrawal, or the same check with the
      list its envelope authenticates; and it fits the read limit the envelope leaves. */
  lemma {:induction false} RecordReadsBack(parse: Parser, revoked: bool, utc: nat, envelope: seq<Byte>)
    requires utc <= U64
    ensures ReadRecord(parse, RecordOf(revoked, utc, envelope)) ==
            if revoked then Withdrawn
            else if parse(envelope).None? then NoRecord
            else Checked(parse(envelope).value, utc)
    ensures |RecordOf(revoked, utc, envelope)| <= |envelope| + 128
  {
    hide ReadParts, ReadRecord, RecordOf, LineOf, ToText;
    PartsBack(parse, revoked, utc, envelope);
    RecordLine(revoked, utc, envelope);
    ReadSplits(parse, LineOf(revoked, utc), if revoked then [] else envelope);
  }
}
