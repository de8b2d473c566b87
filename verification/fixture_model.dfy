/** The single-session fixture model: one challenge, one publication, one observation at a time;
    any rejected operation poisons the run. */
module FixtureSession {
  import opened Options
  import opened FixtureIdentity

  const MAX_PUBLICATIONS: nat := 1024

  datatype Challenge = Challenge(identity: Identity, arm: nat, before: nat, after: nat)

  datatype Publication = Publication(identity: Identity, drawBefore: nat, drawAfter: nat, cleanupAfter: nat,
                                     drawOk: bool, cleanupOk: bool)

  datatype Observation = Observation(index: nat, before: nat, after: nat, pixels: seq<Byte>)

  /** What the record constructors demand. */
  predicate PublicationShape(p: Publication) {
    Valid(p.identity) && p.drawBefore <= p.drawAfter <= p.cleanupAfter <= U64
  }

  predicate ObservationShape(o: Observation) { 1 <= o.index <= U64 && o.before <= o.after <= U64 }

  datatype Guard =
    | AlreadyFailed | Unconsumed | Exhausted | Reordered | BadChallenge
    | NoPending | WrongIdentity | Predates | ProducerFailed
    | Unpublished | Skipped | Early | Unreadable(reason: Failure) | WrongPixels

  predicate AboutPixels(g: Guard) { g.Unreadable? || g.WrongPixels? }

  datatype Session = Session(nonce: seq<Byte>, count: nat, last: Option<nat>, challenge: Option<Challenge>,
                             publication: Option<Publication>, failed: bool)

  function Begin(nonce: seq<Byte>): Session { Session(nonce, 0, None, None, None, false) }

  function NextIdentity(s: Session): Identity { Identity(s.nonce, s.count + 1, s.count + 1) }

  function ArmGuard(s: Session, arm: nat, before: nat, after: nat): Option<Guard> {
    if s.failed then Some(AlreadyFailed)
    else if s.challenge.Some? then Some(Unconsumed)
    else if s.count >= MAX_PUBLICATIONS then Some(Exhausted)
    else if s.last.Some? && arm <= s.last.value then Some(Reordered)
    else if !Valid(NextIdentity(s)) || !(arm < before <= after <= U64) then Some(BadChallenge)
    else None
  }

  function CompleteGuard(s: Session, p: Publication): Option<Guard> {
    if s.failed then Some(AlreadyFailed)
    else if s.challenge.None? || s.publication.Some? then Some(NoPending)
    else if p.identity != s.challenge.value.identity then Some(WrongIdentity)
    else if p.drawBefore < s.challenge.value.before then Some(Predates)
    else if !p.drawOk || !p.cleanupOk then Some(ProducerFailed)
    else None
  }

  function ObserveGuard(crc: Checksum, s: Session, o: Observation): Option<Guard> {
    if s.failed then Some(AlreadyFailed)
    else if s.challenge.None? || s.publication.None? then Some(Unpublished)
    else if o.index != 1 then Some(Skipped)
    else if o.before < s.challenge.value.after || o.before < s.publication.value.cleanupAfter then Some(Early)
    else
      var decoded := DecodeOf(crc, o.pixels);
      if decoded.Failed? then Some(Unreadable(decoded.reason))
      else if decoded.identity != s.challenge.value.identity then Some(WrongPixels)
      else None
  }

  function Armed(s: Session, arm: nat, before: nat, after: nat): Session {
    if ArmGuard(s, arm, before, after).Some? then s.(failed := true)
    else s.(count := s.count + 1, challenge := Some(Challenge(NextIdentity(s), arm, before, after)))
  }

  function Completed(s: Session, p: Publication): Session {
    if CompleteGuard(s, p).Some? then s.(failed := true) else s.(publication := Some(p))
  }

  function Observed(crc: Checksum, s: Session, o: Observation): Session {
    if ObserveGuard(crc, s, o).Some? then s.(failed := true)
    else s.(last := Some(o.after), challenge := None, publication := None)
  }

  class FixtureModel {
    const nonce: seq<Byte>
    var count: nat
    var last: Option<nat>
    var challenge: Option<Challenge>
    var publication: Option<Publication>
    var failed: bool

    function Value(): Session
      reads this
    {
      Session(nonce, count, last, challenge, publication, failed)
    }

    constructor (nonce: seq<Byte>)
      ensures Value() == Begin(nonce)
    {
      this.nonce, count, last, challenge, publication, failed := nonce, 0, None, None, None, false;
    }

    method Arm(arm: nat, before: nat, after: nat) returns (guard: Option<Guard>)
      modifies this
      ensures guard == ArmGuard(old(Value()), arm, before, after) && Value() == Armed(old(Value()), arm, before, after)
    {
      hide Valid;
      if failed { return Some(AlreadyFailed); }
      guard := None;
      var identity := Identity(nonce, count + 1, count + 1);
      if challenge.Some? { guard := Some(Unconsumed); }
      else if count >= MAX_PUBLICATIONS { guard := Some(Exhausted); }
      else if last.Some? && arm <= last.value { guard := Some(Reordered); }
      else if !Valid(identity) || !(arm < before <= after <= U64) { guard := Some(BadChallenge); }
      if guard.Some? { failed := true; return; }
      count := count + 1;
      challenge := Some(Challenge(identity, arm, before, after));
    }

    method Complete(p: Publication) returns (guard: Option<Guard>)
      modifies this
      ensures guard == CompleteGuard(old(Value()), p) && Value() == Completed(old(Value()), p)
    {
      if failed { return Some(AlreadyFailed); }
      guard := None;
      if challenge.None? || publication.Some? { guard := Some(NoPending); }
      else if p.identity != challenge.value.identity { guard := Some(WrongIdentity); }
      else if p.drawBefore < challenge.value.before { guard := Some(Predates); }
      else if !p.drawOk || !p.cleanupOk { guard := Some(ProducerFailed); }
      if guard.Some? { failed := true; return; }
      publication := Some(p);
    }

    method Observe(crc: Checksum, o: Observation) returns (guard: Option<Guard>)
      modifies this
      ensures guard == ObserveGuard(crc, old(Value()), o) && Value() == Observed(crc, old(Value()), o)
    {
      hide DecodeOf;
      if failed { return Some(AlreadyFailed); }
      guard := None;
      if challenge.None? || publication.None? { guard := Some(Unpublished); }
      else if o.index != 1 { guard := Some(Skipped); }
      else if o.before < challenge.value.after || o.before < publication.value.cleanupAfter { guard := Some(Early); }
      else {
        var decoded := Decode(crc, o.pixels);
        if decoded.Failed? { guard := Some(Unreadable(decoded.reason)); }
        else if decoded.identity != challenge.value.identity { guard := Some(WrongPixels); }
      }
      if guard.Some? { failed := true; return; }
      last, challenge, publication := Some(o.after), None, None;
    }
  }
}
