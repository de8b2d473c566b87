/** The log-line pacer: a token bucket driven by whatever clock values its calls carry. */
module LinePacer {
  const BURST: nat := 20
  const REFILL_MS: nat := 500
  const MAX_LINES: nat := 1000
  const TWO32: nat := 0x1_0000_0000

  datatype Pace = Pace(started: bool, tokens: nat, last: nat, lines: nat, suppressed: nat)

  const FRESH := Pace(false, 0, 0, 0, 0)

  /** A call's answer: the suppressed calls it reports when the line is allowed. */
  datatype Answer = Denied | Allowed(reported: nat)

  function Refilled(p: Pace, now: nat): Pace {
    var q := if p.started then p else p.(started := true, tokens := BURST, last := now);
    if now <= q.last then q
    else
      var refill := (now - q.last) / REFILL_MS;
      if refill == 0 then q
      else q.(tokens := if q.tokens + refill < BURST then q.tokens + refill else BURST, last := q.last + refill * REFILL_MS)
  }

  /** The suppressed counter is 32 bits wide and wraps. */
  function Next(p: Pace, now: nat): Pace {
    var q := Refilled(p, now);
    if q.lines >= MAX_LINES || q.tokens == 0 then q.(suppressed := (q.suppressed + 1) % TWO32)
    else q.(tokens := q.tokens - 1, lines := q.lines + 1, suppressed := 0)
  }

  function Reply(p: Pace, now: nat): Answer {
    var q := Refilled(p, now);
    if q.lines >= MAX_LINES || q.tokens == 0 then Denied else Allowed(q.suppressed)
  }

  class Pacer {
    var started: bool
    var tokens: nat
    var last: nat
    var lines: nat
    var suppressed: nat

    function Value(): Pace
      reads this
    {
      Pace(started, tokens, last, lines, suppressed)
    }

    constructor ()
      ensures Value() == FRESH
    {
      started, tokens, last, lines, suppressed := false, 0, 0, 0, 0;
    }

    method Allow(now: nat) returns (ok: bool, reported: nat)
      modifies this
      ensures Value() == Next(old(Value()), now)
      ensures Reply(old(Value()), now) == if ok then Allowed(reported) else Denied
    {
      reported := 0;
      if !started {
        started, tokens, last := true, BURST, now;
      }
      if now > last {
        var refill := (now - last) / REFILL_MS;
        if refill != 0 {
          tokens := if BURST < tokens + refill then BURST else tokens + refill;
          last := last + refill * REFILL_MS;
        }
      }
      if lines >= MAX_LINES || tokens == 0 {
        suppressed := (suppressed + 1) % TWO32;
        return false, 0;
      }
      tokens := tokens - 1;
      lines := lines + 1;
      ok, reported := true, suppressed;
      suppressed := 0;
    }
  }

  function Run(clocks: seq<nat>): Pace {
    if clocks == [] then FRESH else Next(Run(clocks[..|clocks|-1]), clocks[|clocks|-1])
  }

  /** Suppressed calls the allowed lines have reported so far. */
  function Reported(clocks: seq<nat>): nat {
    if clocks == [] then 0
    else
      var front, reply := clocks[..|clocks|-1], Reply(Run(clocks[..|clocks|-1]), clocks[|clocks|-1]);
      Reported(front) + if reply.Allowed? then reply.reported else 0
  }

  /** How often the suppression counter wrapped: a call denied while it stood at its last value. */
  function Wraps(clocks: seq<nat>): nat {
    if clocks == [] then 0
    else
      var front, now := clocks[..|clocks|-1], clocks[|clocks|-1];
      Wraps(front) + if Reply(Run(front), now).Denied? && Run(front).suppressed == TWO32 - 1 then 1 else 0
  }

  lemma {:induction false} RefillBudget(p: Pace, now: nat, first: nat)
    requires p.started && p.last >= first && (p.last - first) % REFILL_MS == 0
    requires p.tokens <= BURST && p.tokens + p.lines <= BURST + (p.last - first) / REFILL_MS
    ensures var q := Refilled(p, now);
            q.started && q.last >= p.last && (q.last - first) % REFILL_MS == 0 && q.tokens <= BURST &&
            q.lines == p.lines && q.suppressed == p.suppressed &&
            q.tokens + q.lines <= BURST + (q.last - first) / REFILL_MS
  {
    if now > p.last {
      var refill := (now - p.last) / 500;
      assert (p.last + refill * 500 - first) / 500 == (p.last - first) / 500 + refill;
    }
  }

  /** BUDGET. After any calls, with any clock values, in any order, lines written and tokens left
      never exceed the burst plus one for each refill period the pacer's clock has moved past the
      first call, and the session cap holds. */
  lemma {:induction false} Budget(clocks: seq<nat>)
    requires clocks != []
    ensures var p := Run(clocks);
            p.started && p.last >= clocks[0] && (p.last - clocks[0]) % REFILL_MS == 0 && p.tokens <= BURST &&
            p.tokens + p.lines <= BURST + (p.last - clocks[0]) / REFILL_MS && p.lines <= MAX_LINES
  {
    var front, now := clocks[..|clocks|-1], clocks[|clocks|-1];
    if front == [] {
      FirstCall(now);
      assert clocks == [now];
    } else {
      Budget(front);
      RunNext(clocks);
      RefillBudget(Run(front), now, clocks[0]);
    }
    hide *;
  }

  lemma {:induction false} FirstCall(now: nat)
    ensures Run([now]) == Pace(true, BURST - 1, now, 1, 0)
  {
    assert [now][..0] == [];
    assert Run([]) == FRESH;
    assert Run([now]) == Next(FRESH, now);
  }

  lemma {:induction false} RunNext(clocks: seq<nat>)
    requires clocks != []
    ensures var front, now := clocks[..|clocks|-1], clocks[|clocks|-1];
            Run(clocks) == Next(Run(front), now) &&
            Reported(clocks) ==
              Reported(front) + (if Reply(Run(front), now).Allowed? then Reply(Run(front), now).reported else 0)
    ensures var front, now := clocks[..|clocks|-1], clocks[|clocks|-1];
            var p, q := Next(Run(front), now), Refilled(Run(front), now);
            p.started == q.started && p.last == q.last && p.tokens + p.lines == q.tokens + q.lines &&
            p.tokens <= q.tokens && (p.lines <= MAX_LINES || p.lines == q.lines)
  {
    hide Refilled;
  }

  /** One call is one line, one suppression, or a wrap of the counter. */
  lemma {:induction false} CountsNext(p: Pace, now: nat)
    requires p.suppressed < TWO32
    ensures var q, reply := Next(p, now), Reply(p, now);
            q.suppressed < TWO32 &&
            match reply
            case Allowed(reported) => reported == p.suppressed && q.lines == p.lines + 1 && q.suppressed == 0
            case Denied =>
              q.lines == p.lines && q.suppressed == if p.suppressed == TWO32 - 1 then 0 else p.suppressed + 1
  {
    assert Refilled(p, now).lines == p.lines && Refilled(p, now).suppressed == p.suppressed;
    hide Refilled;
  }

  /** CONSERVATION. Every call is a line, a reported suppression or a pending one, short by 2^32 for
      each wrap: the accounting is exact if and only if no call was denied while the 32-bit counter
      stood at its last value. */
  lemma {:induction false} CallsAccounted(clocks: seq<nat>)
    ensures |clocks| == Run(clocks).lines + Reported(clocks) + Run(clocks).suppressed + TWO32 * Wraps(clocks)
    ensures |clocks| == Run(clocks).lines + Reported(clocks) + Run(clocks).suppressed <==> Wraps(clocks) == 0
    ensures Run(clocks).suppressed < TWO32
  {
    if clocks == [] {
      assert Run([]) == FRESH && Reported([]) == 0 && Wraps([]) == 0;
    } else {
      var front, now := clocks[..|clocks|-1], clocks[|clocks|-1];
      CallsAccounted(front);
      RunNext(clocks);
      CountsNext(Run(front), now);
      assert Wraps(clocks) ==
        Wraps(front) + if Reply(Run(front), now).Denied? && Run(front).suppressed == TWO32 - 1 then 1 else 0;
    }
    hide *;
  }

  function Still(n: nat): seq<nat> { if n == 0 then [] else Still(n - 1) + [0] }

  lemma {:induction false} StillRun(n: nat)
    ensures n > 0 ==> Run(Still(n)) == Next(Run(Still(n - 1)), 0) && |Still(n)| == |Still(n - 1)| + 1
    ensures |Still(0)| == 0 && Run(Still(0)) == FRESH
  {
    if n > 0 { assert Still(n)[..|Still(n)|-1] == Still(n - 1); }
  }

  function FloodPace(n: nat): Pace {
    if n == 0 then FRESH
    else if n <= 20 then Pace(true, 20 - n, 0, n, 0)
    else Pace(true, 0, 0, 20, (n - 20) % 0x1_0000_0000)
  }

  lemma {:induction false} ModuloStep(k: nat)
    ensures (k % 0x1_0000_0000 + 1) % 0x1_0000_0000 == (k + 1) % 0x1_0000_0000
  {
  }

  lemma {:induction false} FloodStep(n: nat)
    ensures FloodPace(0) == FRESH && Next(FloodPace(n), 0) == FloodPace(n + 1)
    ensures Reply(FloodPace(n), 0) == if n < 20 then Allowed(0) else Denied
  {
    if n >= 20 { ModuloStep(n - 20); }
  }

  /** A clock that stands still: the burst, then suppressions only. */
  lemma {:induction false} Flooded(n: nat)
    ensures Run(Still(n)) == FloodPace(n) && |Still(n)| == n
  {
    hide *;
    StillRun(n);
    FloodStep(0);
    if n > 0 {
      Flooded(n - 1);
      FloodStep(n - 1);
    }
  }

  /** The counter does wrap: 2^32 suppressions in a row leave no trace. */
  lemma {:induction false} FloodForgotten()
    ensures |Still(BURST + TWO32)| == BURST + TWO32
    ensures Run(Still(BURST + TWO32)).lines == BURST && Run(Still(BURST + TWO32)).suppressed == 0
    ensures Wraps(Still(BURST + TWO32)) != 0
  {
    Flooded(BURST + TWO32);
    CallsAccounted(Still(BURST + TWO32));
    NothingReported(BURST + TWO32);
    assert FloodPace(20 + 0x1_0000_0000) == Pace(true, 0, 0, 20, 0);
    hide Run, Still, Reported, Wraps, FloodPace;
  }

  lemma {:induction false} NothingReported(n: nat)
    ensures Reported(Still(n)) == 0
  {
    hide *;
    StillReported(n);
    if n > 0 {
      NothingReported(n - 1);
      Flooded(n - 1);
      FloodStep(n - 1);
    }
  }

  lemma {:induction false} StillReported(n: nat)
    ensures Reported(Still(0)) == 0
    ensures n > 0 ==>
              var reply := Reply(Run(Still(n - 1)), 0);
              Reported(Still(n)) == Reported(Still(n - 1)) + if reply.Allowed? then reply.reported else 0
  {
    if n > 0 { assert Still(n)[..|Still(n)|-1] == Still(n - 1); }
    hide Run, Reply;
  }

  /** Lines are written only while the pacer's clock has paid for them. */
  lemma {:induction false} ClockBehindCalls(clocks: seq<nat>, latest: nat)
    requires clocks != [] && forall i :: 0 <= i < |clocks| ==> clocks[i] <= latest
    ensures Run(clocks).last <= latest
    ensures Run(clocks).lines <= BURST + (latest - clocks[0]) / REFILL_MS
  {
    Budget(clocks);
    LastBehind(clocks, latest);
    hide Run;
    assert (Run(clocks).last - clocks[0]) / 500 <= (latest - clocks[0]) / 500;
  }

  lemma {:induction false} LastBehind(clocks: seq<nat>, latest: nat)
    requires forall i :: 0 <= i < |clocks| ==> clocks[i] <= latest
    ensures Run(clocks).last <= latest
  {
    if clocks != [] {
      var front := clocks[..|clocks|-1];
      assert forall i :: 0 <= i < |front| ==> front[i] == clocks[i];
      LastBehind(front, latest);
      MovesWithin(Run(front), clocks[|clocks|-1], latest);
    }
  }

  lemma {:induction false} MovesWithin(p: Pace, now: nat, latest: nat)
    requires p.last <= latest && now <= latest
    ensures Next(p, now).last <= latest
  {
  }

  // ------------------------------------------------------- exactly which calls are allowed

  predicate AllowedAt(clocks: seq<nat>, i: nat)
    requires i < |clocks|
  {
    Reply(Run(clocks[..i]), clocks[i]).Allowed?
  }

  /** How many of the calls k..i-1 were allowed. */
  function AllowedIn(clocks: seq<nat>, k: nat, i: nat): nat
    requires k <= i <= |clocks|
  {
    if k == i then 0 else AllowedIn(clocks, k, i - 1) + if AllowedAt(clocks, i - 1) then 1 else 0
  }

  function Peak(clocks: seq<nat>): nat
    requires clocks != []
  {
    if |clocks| == 1 then clocks[0]
    else
      var before, now := Peak(clocks[..|clocks|-1]), clocks[|clocks|-1];
      if now > before then now else before
  }

  /** Whole refill periods between the first call and the latest clock seen by call i. */
  function Period(clocks: seq<nat>, i: nat): int
    requires i < |clocks|
  {
    (Peak(clocks[..i+1]) - clocks[0]) / 500
  }

  /** What is left at call i of the burst and the refills since call k. */
  function Room(clocks: seq<nat>, k: nat, i: nat): int
    requires k <= i < |clocks|
  {
    20 + Period(clocks, i) - Period(clocks, k) - AllowedIn(clocks, k, i)
  }

  /** The same after call i itself. */
  function RoomAfter(clocks: seq<nat>, k: nat, i: nat): int
    requires k <= i < |clocks|
  {
    20 + Period(clocks, i) - Period(clocks, k) - AllowedIn(clocks, k, i + 1)
  }

  /** The tokens left after call i are the least room left by any window that ends with it. */
  ghost predicate Least(clocks: seq<nat>, i: nat, tokens: nat)
    requires i < |clocks|
  {
    (forall k: nat :: k <= i ==> tokens <= RoomAfter(clocks, k, i)) &&
    (exists k: nat :: k <= i && tokens == RoomAfter(clocks, k, i))
  }

  ghost predicate Bucket(clocks: seq<nat>, i: nat, p: Pace)
    requires i < |clocks|
  {
    && p.started && p.last == clocks[0] + 500 * Period(clocks, i) && p.tokens <= 20
    && p.lines == AllowedIn(clocks, 0, i + 1) && Least(clocks, i, p.tokens)
  }

  lemma {:induction false} PeakGrows(clocks: seq<nat>, i: nat)
    requires 0 < i < |clocks|
    ensures var before := Peak(clocks[..i]);
            Peak(clocks[..i+1]) == (if clocks[i] > before then clocks[i] else before) && before >= clocks[0]
  {
    assert clocks[..i+1][..i] == clocks[..i];
    PeakFirst(clocks[..i]);
  }

  lemma {:induction false} PeakFirst(clocks: seq<nat>)
    requires clocks != []
    ensures Peak(clocks) >= clocks[0]
  {
    if |clocks| > 1 { PeakFirst(clocks[..|clocks|-1]); }
  }

  /** Refilling from the pacer's clock is counting whole periods of the latest clock. */
  lemma {:induction false} RefillExactly(p: Pace, now: nat, first: nat, peak: nat, tokens: nat)
    requires p.started && first <= peak && p.last == first + 500 * ((peak - first) / 500) && p.tokens == tokens <= 20
    ensures var q, top := Refilled(p, now), if now > peak then now else peak;
            var more := (top - first) / 500 - (peak - first) / 500;
            && more >= 0 && q.last == first + 500 * ((top - first) / 500) && q.started && q.lines == p.lines
            && q.tokens == if tokens + more < 20 then tokens + more else 20
  {
  }

  lemma {:induction false} FirstBucket(clocks: seq<nat>)
    requires clocks != []
    ensures AllowedAt(clocks, 0) && Bucket(clocks, 0, Run(clocks[..1]))
  {
    assert clocks[..0] == [] && clocks[..1] == [clocks[0]] && Run([]) == FRESH;
    FirstCall(clocks[0]);
    assert AllowedIn(clocks, 0, 0) == 0 && AllowedIn(clocks, 0, 1) == 1;
    assert RoomAfter(clocks, 0, 0) == 19;
    hide Run;
  }

  lemma {:induction false} WindowsMove(clocks: seq<nat>, i: nat)
    requires 0 < i < |clocks|
    ensures forall k: nat :: k < i ==>
              Room(clocks, k, i) == RoomAfter(clocks, k, i - 1) + Period(clocks, i) - Period(clocks, i - 1)
    ensures Room(clocks, i, i) == 20
    ensures forall k: nat :: k <= i ==>
              RoomAfter(clocks, k, i) == Room(clocks, k, i) - if AllowedAt(clocks, i) then 1 else 0
  {
    hide Period, AllowedAt;
  }

  /** The tokens a call finds after the refill. */
  lemma {:induction false} TokensFound(clocks: seq<nat>, i: nat, tokens: nat, found: nat)
    requires 0 < i < |clocks| && Least(clocks, i - 1, tokens)
    requires var more := Period(clocks, i) - Period(clocks, i - 1);
             more >= 0 && found == if tokens + more < 20 then tokens + more else 20
    ensures forall k: nat :: k <= i ==> found <= Room(clocks, k, i)
    ensures exists k: nat :: k <= i && found == Room(clocks, k, i)
  {
    WindowsMove(clocks, i);
    var more := Period(clocks, i) - Period(clocks, i - 1);
    hide Period, Room, RoomAfter, AllowedAt;
    var w: nat :| w <= i - 1 && tokens == RoomAfter(clocks, w, i - 1);
    assert if tokens + more < 20 then found == Room(clocks, w, i) else found == Room(clocks, i, i);
  }

  lemma {:induction false} RunTo(clocks: seq<nat>, i: nat)
    requires i < |clocks|
    ensures Run(clocks[..i+1]) == Next(Run(clocks[..i]), clocks[i])
  {
    assert clocks[..i+1][..i] == clocks[..i];
    hide Next;
  }

  lemma {:induction false} PeriodMoves(clocks: seq<nat>, i: nat, p: Pace)
    requires 0 < i < |clocks| && p.started && p.tokens <= 20 && p.last == clocks[0] + 500 * Period(clocks, i - 1)
    ensures var q, more := Refilled(p, clocks[i]), Period(clocks, i) - Period(clocks, i - 1);
            && more >= 0 && q.started && q.last == clocks[0] + 500 * Period(clocks, i) && q.lines == p.lines
            && q.tokens == if p.tokens + more < 20 then p.tokens + more else 20
  {
    hide Refilled, Peak;
    PeakGrows(clocks, i);
    RefillExactly(p, clocks[i], clocks[0], Peak(clocks[..i]), p.tokens);
  }

  /** What call i finds: the moved clock, and the least room of any window. */
  lemma {:induction false} BucketFound(clocks: seq<nat>, i: nat)
    requires 0 < i < |clocks| && Bucket(clocks, i - 1, Run(clocks[..i]))
    ensures var q := Refilled(Run(clocks[..i]), clocks[i]);
            && q.started && q.last == clocks[0] + 500 * Period(clocks, i) && q.tokens <= 20
            && q.lines == AllowedIn(clocks, 0, i)
            && (forall k: nat :: k <= i ==> q.tokens <= Room(clocks, k, i))
            && (exists k: nat :: k <= i && q.tokens == Room(clocks, k, i))
  {
    var p := Run(clocks[..i]);
    hide Run, Refilled, Room, AllowedIn, Period, Least;
    PeriodMoves(clocks, i, p);
    TokensFound(clocks, i, p.tokens, Refilled(p, clocks[i]).tokens);
  }

  lemma {:induction false} AnswerOf(p: Pace, now: nat)
    ensures var q, next, allowed := Refilled(p, now), Next(p, now), Reply(p, now).Allowed?;
            && (allowed <==> q.lines < 1000 && q.tokens > 0) && next.last == q.last && next.started == q.started
            && next.tokens == q.tokens - (if allowed then 1 else 0) && next.lines == q.lines + if allowed then 1 else 0
  {
    hide Refilled;
  }

  lemma {:induction false} LeastAfter(clocks: seq<nat>, i: nat, found: nat, tokens: nat)
    requires 0 < i < |clocks|
    requires forall k: nat :: k <= i ==> found <= Room(clocks, k, i)
    requires exists k: nat :: k <= i && found == Room(clocks, k, i)
    requires tokens == found - if AllowedAt(clocks, i) then 1 else 0
    ensures Least(clocks, i, tokens)
    ensures found > 0 <==> forall k: nat :: k <= i ==> Room(clocks, k, i) > 0
  {
    WindowsMove(clocks, i);
    hide Room, RoomAfter, AllowedAt;
    var w: nat :| w <= i && found == Room(clocks, w, i);
    assert tokens == RoomAfter(clocks, w, i);
  }

  lemma {:induction false} BucketNext(clocks: seq<nat>, i: nat)
    requires 0 < i < |clocks| && Bucket(clocks, i - 1, Run(clocks[..i]))
    ensures Bucket(clocks, i, Run(clocks[..i+1]))
    ensures AllowedAt(clocks, i) <==>
            AllowedIn(clocks, 0, i) < 1000 && forall k: nat :: k <= i ==> Room(clocks, k, i) > 0
  {
    var p, now := Run(clocks[..i]), clocks[i];
    assert AllowedIn(clocks, 0, i + 1) == AllowedIn(clocks, 0, i) + if AllowedAt(clocks, i) then 1 else 0;
    assert AllowedAt(clocks, i) == Reply(p, now).Allowed?;
    hide Run, Refilled, Room, RoomAfter, AllowedIn, Peak, Next, Reply, AllowedAt, Period, Least;
    BucketFound(clocks, i);
    RunTo(clocks, i);
    AnswerOf(p, now);
    LeastAfter(clocks, i, Refilled(p, now).tokens, Next(p, now).tokens);
  }

  lemma {:induction false} BucketAlways(clocks: seq<nat>, i: nat)
    requires i < |clocks|
    ensures Bucket(clocks, i, Run(clocks[..i+1]))
  {
    if i == 0 {
      FirstBucket(clocks);
    } else {
      BucketAlways(clocks, i - 1);
      BucketNext(clocks, i);
    }
    hide *;
  }

  /** ALLOWED. Whatever clocks the calls carry, a call is allowed exactly when fewer than 1000 calls were
      before it, and in every window of calls ending with it fewer were than the burst of 20 plus one for
      each whole 500 ms the latest clock has moved in the window. */
  lemma {:induction false} AllowedExactly(clocks: seq<nat>, i: nat)
    requires i < |clocks|
    ensures AllowedAt(clocks, i) <==>
            AllowedIn(clocks, 0, i) < 1000 &&
            forall k: nat :: k <= i ==> AllowedIn(clocks, k, i) < 20 + Period(clocks, i) - Period(clocks, k)
  {
    if i == 0 {
      FirstBucket(clocks);
      assert AllowedIn(clocks, 0, 0) == 0;
    } else {
      BucketAlways(clocks, i - 1);
      BucketNext(clocks, i);
      forall k: nat | k <= i
        ensures Room(clocks, k, i) > 0 <==> AllowedIn(clocks, k, i) < 20 + Period(clocks, i) - Period(clocks, k)
      {
      }
    }
    hide Run, AllowedAt, AllowedIn, Period, Bucket;
  }

  /** Calls denied since the last allowed one. */
  function DeniedBefore(clocks: seq<nat>, i: nat): nat
    requires i <= |clocks|
  {
    if i == 0 || AllowedAt(clocks, i - 1) then 0 else DeniedBefore(clocks, i - 1) + 1
  }

  lemma {:induction false} WrapStep(n: nat, counter: nat)
    requires counter == n % 0x1_0000_0000
    ensures (if counter == 0xFFFF_FFFF then 0 else counter + 1) == (n + 1) % 0x1_0000_0000
  {
  }

  lemma {:induction false} CountsOne(p: Pace, now: nat)
    requires p.suppressed < 0x1_0000_0000
    ensures Reply(p, now).Allowed? ==> Reply(p, now) == Allowed(p.suppressed) && Next(p, now).suppressed == 0
    ensures Reply(p, now).Denied? ==>
              Next(p, now).suppressed == if p.suppressed == 0xFFFF_FFFF then 0 else p.suppressed + 1
  {
    CountsNext(p, now);
    hide Next, Reply;
  }

  /** REPORTED. An allowed line reports the calls denied since the last one, modulo the counter's width. */
  lemma {:induction false} ReportedExactly(clocks: seq<nat>, i: nat)
    requires i <= |clocks|
    ensures Run(clocks[..i]).suppressed == DeniedBefore(clocks, i) % 0x1_0000_0000
    ensures i < |clocks| && AllowedAt(clocks, i) ==>
              Reply(Run(clocks[..i]), clocks[i]) == Allowed(DeniedBefore(clocks, i) % 0x1_0000_0000)
  {
    hide Run, Next, Reply;
    if i == 0 {
      assert clocks[..0] == [];
      assert Run(clocks[..0]) == FRESH by { NoCalls(); }
    } else {
      ReportedExactly(clocks, i - 1);
      RunTo(clocks, i - 1);
      CountsOne(Run(clocks[..i-1]), clocks[i-1]);
      WrapStep(DeniedBefore(clocks, i - 1), Run(clocks[..i-1]).suppressed);
    }
    if i < |clocks| { CountsOne(Run(clocks[..i]), clocks[i]); }
  }

  lemma {:induction false} NoCalls()
    ensures Run([]) == FRESH
  {
  }
}
