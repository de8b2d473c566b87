/** Which sequences of operations the fixture session accepts, said over the operations themselves. */
module FixtureHistory {
  import opened Options
  import opened FixtureIdentity
  import opened FixtureSession

  datatype Operation = Arming(arm: nat, before: nat, after: nat) | Completing(p: Publication) | Observing(o: Observation)

  function Guarded(crc: Checksum, s: Session, x: Operation): Option<Guard> {
    match x
    case Arming(arm, before, after) => ArmGuard(s, arm, before, after)
    case Completing(p) => CompleteGuard(s, p)
    case Observing(o) => ObserveGuard(crc, s, o)
  }

  function Done(crc: Checksum, s: Session, x: Operation): Session {
    match x
    case Arming(arm, before, after) => Armed(s, arm, before, after)
    case Completing(p) => Completed(s, p)
    case Observing(o) => Observed(crc, s, o)
  }

  function Play(crc: Checksum, nonce: seq<Byte>, ops: seq<Operation>): Session {
    if ops == [] then Begin(nonce) else Done(crc, Play(crc, nonce, ops[..|ops|-1]), ops[|ops|-1])
  }

  /** The identity of the n-th round. */
  function Round(nonce: seq<Byte>, n: nat): Identity { Identity(nonce, n + 1, n + 1) }

  /** What an operation must be after the ones before it: rounds of arming, completing and observing, each
      after the one before, the picture being that round's own. */
  ghost predicate Next(crc: Checksum, nonce: seq<Byte>, ops: seq<Operation>, x: Operation) {
    var n, i := |ops| / 3, |ops|;
    if i % 3 == 0 then
      x.Arming? && n < 1024 && Valid(Round(nonce, n)) && x.arm < x.before <= x.after <= U64 &&
      (i > 0 ==> ops[i-1].Observing? && ops[i-1].o.after < x.arm)
    else if i % 3 == 1 then
      x.Completing? && x.p.identity == Round(nonce, n) && x.p.drawOk && x.p.cleanupOk &&
      ops[i-1].Arming? && ops[i-1].before <= x.p.drawBefore
    else
      x.Observing? && x.o.index == 1 && ops[i-2].Arming? && ops[i-2].after <= x.o.before &&
      ops[i-1].Completing? && ops[i-1].p.cleanupAfter <= x.o.before && Valid(Round(nonce, n)) &&
      x.o.pixels == Encode(crc, Round(nonce, n))
  }

  ghost predicate Rounds(crc: Checksum, nonce: seq<Byte>, ops: seq<Operation>) {
    forall i :: 0 <= i < |ops| ==> Next(crc, nonce, ops[..i], ops[i])
  }

  /** What a session that accepted everything so far remembers. */
  ghost predicate Remembers(nonce: seq<Byte>, ops: seq<Operation>, s: Session) {
    var n, i := |ops| / 3, |ops|;
    && !s.failed && s.nonce == nonce && s.count == (if i % 3 == 0 then n else n + 1)
    && (s.last.Some? <==> n > 0)
    && (i % 3 == 0 ==> s.challenge.None? && s.publication.None?)
    && (i % 3 == 0 && i > 0 ==> ops[i-1].Observing? && s.last == Some(ops[i-1].o.after))
    && (i % 3 == 1 ==>
          ops[i-1].Arming? && s.publication.None? &&
          s.challenge == Some(Challenge(Round(nonce, n), ops[i-1].arm, ops[i-1].before, ops[i-1].after)))
    && (i % 3 == 2 ==>
          ops[i-2].Arming? && ops[i-1].Completing? && s.publication == Some(ops[i-1].p) &&
          s.challenge == Some(Challenge(Round(nonce, n), ops[i-2].arm, ops[i-2].before, ops[i-2].after)))
  }

  lemma {:induction false} AcceptedExactly(crc: Checksum, nonce: seq<Byte>, ops: seq<Operation>, s: Session, x: Operation)
    requires Remembers(nonce, ops, s)
    ensures Guarded(crc, s, x).None? <==> Next(crc, nonce, ops, x)
  {
    if x.Observing? { DecodeExactly(crc, x.o.pixels, Round(nonce, |ops| / 3)); }
    hide DecodeOf, Encode, Valid;
  }

  lemma {:induction false} RemembersNext(crc: Checksum, nonce: seq<Byte>, ops: seq<Operation>, s: Session, x: Operation)
    requires Remembers(nonce, ops, s) && Guarded(crc, s, x).None?
    ensures Remembers(nonce, ops + [x], Done(crc, s, x))
  {
    AcceptedExactly(crc, nonce, ops, s, x);
    var all, i := ops + [x], |ops|;
    assert all[i] == x && (i > 0 ==> all[i-1] == ops[i-1]);
    assert (i + 1) / 3 == if i % 3 == 2 then i / 3 + 1 else i / 3;
    assert (i + 1) % 3 == if i % 3 == 2 then 0 else i % 3 + 1;
    hide DecodeOf, Encode, Valid;
  }

  lemma {:induction false} FailedStays(crc: Checksum, s: Session, x: Operation)
    ensures Guarded(crc, s, x).Some? ==> Done(crc, s, x).failed
    ensures s.failed ==> Guarded(crc, s, x) == Some(AlreadyFailed) && Done(crc, s, x) == s
  {
  }

  lemma {:induction false} RoundsSnoc(crc: Checksum, nonce: seq<Byte>, ops: seq<Operation>)
    requires ops != []
    ensures Rounds(crc, nonce, ops) <==>
            Rounds(crc, nonce, ops[..|ops|-1]) && Next(crc, nonce, ops[..|ops|-1], ops[|ops|-1])
  {
    hide Next;
    var front := ops[..|ops|-1];
    assert forall i :: 0 <= i < |front| ==> front[i] == ops[i] && front[..i] == ops[..i];
  }

  /** SESSION. A session has not failed exactly when its operations were whole rounds so far: arm, complete
      and observe the next identity in turn, each after the one before it, with that identity's own picture. */
  lemma {:induction false} SessionExactly(crc: Checksum, nonce: seq<Byte>, ops: seq<Operation>)
    ensures !Play(crc, nonce, ops).failed <==> Rounds(crc, nonce, ops)
    ensures !Play(crc, nonce, ops).failed ==> Remembers(nonce, ops, Play(crc, nonce, ops))
  {
    if ops == [] {
    } else {
      var front, x := ops[..|ops|-1], ops[|ops|-1];
      var s := Play(crc, nonce, front);
      SessionExactly(crc, nonce, front);
      RoundsSnoc(crc, nonce, ops);
      FailedStays(crc, s, x);
      assert ops == front + [x];
      if !s.failed {
        AcceptedExactly(crc, nonce, front, s, x);
        if Guarded(crc, s, x).None? { RemembersNext(crc, nonce, front, s, x); }
      }
      hide Rounds, Remembers, Next, Guarded, Done;
    }
  }
}
