/** The source scout: a fixed schedule of slots, the captures they collected, and the accounting of
    repeated and unsampled sources from neighbouring captures alone. */
module SourceScout {
  import opened Options

  const HZ: nat := 10

  datatype Status = Collected | Failed | MissedDeadline | NotAttempted
  datatype Reason =
    | NoReason | Stopped | BufferExhausted | PreviousTerminalFailure | PreviousStop | WindowElapsed | CallFailed

  datatype Capture = Capture(epoch: nat, sequence: nat, refreshBegin: nat, refreshEnd: nat, acquireBefore: nat,
                             acquireAfter: nat, submit: nat, complete: nat, ready: nat)

  datatype Slot = Slot(observed: nat, status: Status, reason: Reason, call: Option<(nat, nat)>, capture: Option<Capture>)

  datatype Plan = Plan(begin: nat, frequency: nat, anchor: nat, readiness: nat)
  {
    function Due(index: nat): nat { begin + index * frequency / HZ }
  }

  // ------------------------------------------------------------------ the metadata loop

  datatype Source = Source(sequence: nat, refreshBegin: nat, refreshEnd: nat)

  datatype Meta = Meta(observed: nat, terminal: Option<Reason>, epoch: Option<nat>, source: Option<Source>)

  function Start(plan: Plan): Meta { Meta(plan.anchor, None, None, None) }

  predicate ReasonFits(plan: Plan, m: Meta, index: nat, s: Slot) {
    if m.terminal.Some? then s.status.NotAttempted? && s.reason == m.terminal.value
    else
      match s.status
      case NotAttempted =>
        s.reason == Stopped ||
        (s.reason == BufferExhausted && plan.Due(index) <= s.observed < plan.Due(index + 1))
      case MissedDeadline => s.reason == WindowElapsed && s.observed >= plan.Due(index + 1)
      case Failed => s.reason == CallFailed
      case Collected => s.reason == NoReason
  }

  predicate CallFits(plan: Plan, m: Meta, index: nat, s: Slot) {
    match s.status
    case NotAttempted => s.call.None? && s.capture.None?
    case MissedDeadline => s.call.None? && s.capture.None?
    case _ =>
      s.call.Some? &&
      var (before, after) := s.call.value;
      plan.Due(index) <= before < plan.Due(index + 1) && m.observed <= before <= after == s.observed &&
      (s.status.Failed? <==> s.capture.None?)
  }

  predicate CaptureFits(plan: Plan, m: Meta, before: nat, after: nat, c: Capture) {
    && c.refreshBegin <= c.refreshEnd <= c.acquireAfter
    && before <= c.acquireBefore <= c.acquireAfter <= c.submit <= c.complete <= c.ready <= after
    && (m.epoch.Some? ==> c.epoch == m.epoch.value) && c.sequence >= plan.readiness
    && (m.source.Some? ==> Follows(m.source.value, c))
  }

  /** No earlier than the last source; the same source is the same publication, a new one a later. */
  predicate Follows(last: Source, c: Capture) {
    c.sequence >= last.sequence &&
    if c.sequence == last.sequence then c.refreshBegin == last.refreshBegin && c.refreshEnd == last.refreshEnd
    else c.refreshBegin >= last.refreshEnd
  }

  function SourceOf(c: Capture): Source { Source(c.sequence, c.refreshBegin, c.refreshEnd) }

  function Step(plan: Plan, m: Meta, index: nat, s: Slot): Option<Meta> {
    if s.observed < m.observed || !ReasonFits(plan, m, index, s) || !CallFits(plan, m, index, s) ||
       (s.status.Collected? && !CaptureFits(plan, m, s.call.value.0, s.call.value.1, s.capture.value))
    then None
    else
      Some(Meta(s.observed,
                if m.terminal.Some? then m.terminal
                else if s.status.Failed? || s.reason == BufferExhausted then Some(PreviousTerminalFailure)
                else if s.status.NotAttempted? then Some(PreviousStop)
                else None,
                if s.status.Collected? then Some(s.capture.value.epoch) else m.epoch,
                if s.status.Collected? then Some(SourceOf(s.capture.value)) else m.source))
  }

  function Run(plan: Plan, slots: seq<Slot>): Option<Meta> {
    if slots == [] then Some(Start(plan))
    else
      var m := Run(plan, slots[..|slots|-1]);
      if m.None? then None else Step(plan, m.value, |slots| - 1, slots[|slots|-1])
  }

  lemma {:induction false} RunFails(plan: Plan, slots: seq<Slot>, i: nat)
    requires i <= |slots| && Run(plan, slots[..i]).None?
    ensures Run(plan, slots).None?
  {
    if i == |slots| {
      assert slots[..i] == slots;
    } else {
      assert slots[..|slots|-1][..i] == slots[..i];
      RunFails(plan, slots[..|slots|-1], i);
    }
  }

  /** The metadata loop over every slot. */
  method ValidateSlots(plan: Plan, slots: seq<Slot>) returns (ok: bool)
    ensures ok <==> Run(plan, slots).Some?
  {
    var observed, terminal: Option<Reason>, epoch: Option<nat>, source: Option<Source> := plan.anchor, None, None, None;
    for index := 0 to |slots|
      invariant Run(plan, slots[..index]) == Some(Meta(observed, terminal, epoch, source))
    {
      var s, m := slots[index], Meta(observed, terminal, epoch, source);
      assert slots[..index+1][..index] == slots[..index];
      assert Run(plan, slots[..index+1]) == Step(plan, m, index, s);
      hide Run, ReasonFits, CallFits, CaptureFits;
      if Step(plan, m, index, s).None? { RunFails(plan, slots, index + 1); }
      if s.observed < observed || !ReasonFits(plan, m, index, s) || !CallFits(plan, m, index, s) { return false; }
      if terminal.None? && s.status.NotAttempted? {
        terminal := if s.reason == BufferExhausted then Some(PreviousTerminalFailure) else Some(PreviousStop);
      }
      ReasonOfStatus(plan, m, index, s);
      if s.status.Failed? { terminal := Some(PreviousTerminalFailure); }
      if s.status.Collected? {
        CollectedHasCall(plan, m, index, s);
        if !CaptureFits(plan, m, s.call.value.0, s.call.value.1, s.capture.value) { return false; }
        epoch, source := Some(s.capture.value.epoch), Some(SourceOf(s.capture.value));
      }
      observed := s.observed;
    }
    assert slots[..|slots|] == slots;
    ok := true;
  }

  lemma {:induction false} ReasonOfStatus(plan: Plan, m: Meta, index: nat, s: Slot)
    requires ReasonFits(plan, m, index, s)
    ensures m.terminal.None? && s.reason == BufferExhausted ==> s.status.NotAttempted?
    ensures m.terminal.Some? ==> s.status.NotAttempted?
  {
  }

  lemma {:induction false} CollectedHasCall(plan: Plan, m: Meta, index: nat, s: Slot)
    requires CallFits(plan, m, index, s) && s.status.Collected?
    ensures s.call.Some? && s.capture.Some?
  {
  }

  /** What ends the attempts, seen from the slot that did. */
  predicate Ends(s: Slot) { s.status.Failed? || s.status.NotAttempted? }

  /** TERMINAL SUFFIX. After the first failed or unattempted slot no slot is attempted, and all of
      them name the same cause. */
  lemma {:induction false} NoRetry(plan: Plan, slots: seq<Slot>, i: nat, k: nat)
    requires Run(plan, slots).Some? && i < k < |slots| && Ends(slots[i])
    ensures slots[k].status.NotAttempted? && Run(plan, slots[..i+1]).Some? &&
            Run(plan, slots[..i+1]).value.terminal == Some(slots[k].reason)
    ensures Run(plan, slots).value.terminal == Run(plan, slots[..i+1]).value.terminal
  {
    var front := slots[..|slots|-1];
    assert front[..i+1] == slots[..i+1];
    if i < |front| - 1 {
      NoRetry(plan, front, i, |front| - 1);
      if k < |front| { NoRetry(plan, front, i, k); }
    } else {
      assert front[..i+1] == front;
    }
    TerminalStep(plan, Run(plan, front).value, |front|, slots[|front|]);
    if i == |front| - 1 { EndStep(plan, front); }
    hide Step;
  }

  lemma {:induction false} TerminalStep(plan: Plan, m: Meta, index: nat, s: Slot)
    requires Step(plan, m, index, s).Some?
    ensures m.terminal.Some? ==>
              s.status.NotAttempted? && Some(s.reason) == m.terminal && Step(plan, m, index, s).value.terminal == m.terminal
  {
  }

  lemma {:induction false} EndStep(plan: Plan, slots: seq<Slot>)
    requires slots != [] && Run(plan, slots).Some? && Ends(slots[|slots|-1])
    ensures Run(plan, slots).value.terminal.Some?
  {
  }

  // --------------------------------------------------------------------- the captures

  /** A capture with the pixels read for its slot. */
  datatype Image = Image(capture: Capture, rgb: seq<nat>)

  /** Collected captures in slot order, each with the pixels the reader returns. */
  function Images(slots: seq<Slot>, read: nat -> seq<nat>): seq<Image> {
    if slots == [] then []
    else
      var s, rest := slots[|slots|-1], Images(slots[..|slots|-1], read);
      if s.status.Collected? && s.capture.Some? then rest + [Image(s.capture.value, read(|slots| - 1))] else rest
  }

  /** Of every two captures, not only neighbours: one epoch, sources in order, equal sources the
      same publication. */
  ghost predicate InOrder(images: seq<Image>) {
    forall i, k :: 0 <= i < k < |images| ==>
      images[i].capture.epoch == images[k].capture.epoch && Follows(SourceOf(images[i].capture), images[k].capture)
  }

  ghost predicate WellFormed(images: seq<Image>) {
    forall i :: 0 <= i < |images| ==> images[i].capture.refreshBegin <= images[i].capture.refreshEnd
  }

  lemma {:induction false} OrderExtends(images: seq<Image>, x: Image)
    requires InOrder(images) && WellFormed(images) && x.capture.refreshBegin <= x.capture.refreshEnd
    requires images != [] ==>
               var last := images[|images|-1].capture;
               last.epoch == x.capture.epoch && Follows(SourceOf(last), x.capture)
    ensures InOrder(images + [x]) && WellFormed(images + [x])
  {
    forall i | 0 <= i < |images|
      ensures images[i].capture.epoch == x.capture.epoch && Follows(SourceOf(images[i].capture), x.capture)
    {
      if i < |images| - 1 { assert Follows(SourceOf(images[i].capture), images[|images|-1].capture); }
    }
  }

  ghost predicate Tracks(m: Meta, images: seq<Image>) {
    InOrder(images) && WellFormed(images) &&
    if images == [] then m.epoch.None? && m.source.None?
    else m.epoch == Some(images[|images|-1].capture.epoch) && m.source == Some(SourceOf(images[|images|-1].capture))
  }

  lemma {:induction false} TracksNext(plan: Plan, m: Meta, index: nat, s: Slot, images: seq<Image>, rgb: seq<nat>)
    requires Tracks(m, images) && Step(plan, m, index, s).Some?
    ensures s.status.Collected? ==> s.capture.Some? && Tracks(Step(plan, m, index, s).value, images + [Image(s.capture.value, rgb)])
    ensures !s.status.Collected? ==> Tracks(Step(plan, m, index, s).value, images)
  {
    if s.status.Collected? { OrderExtends(images, Image(s.capture.value, rgb)); }
    hide InOrder, WellFormed;
  }

  lemma {:induction false} CapturesInOrder(plan: Plan, slots: seq<Slot>, read: nat -> seq<nat>)
    requires Run(plan, slots).Some?
    ensures Tracks(Run(plan, slots).value, Images(slots, read))
  {
    if slots == [] {
    } else {
      var front := slots[..|slots|-1];
      CapturesInOrder(plan, front, read);
      TracksNext(plan, Run(plan, front).value, |front|, slots[|front|], Images(front, read), read(|front|));
    }
    hide Tracks, Step;
  }

  // ---------------------------------------------------------- repeats and unsampled IDs

  datatype Identity = Identity(epoch: nat, sequence: nat)
  function IdentityOf(c: Capture): Identity { Identity(c.epoch, c.sequence) }

  /** The decoder's counters; nothing when neighbouring equal sources differ in pixels. */
  datatype Census = Census(unique: nat, duplicates: nat)

  function Counted(images: seq<Image>): Option<Census> {
    if images == [] then Some(Census(0, 0))
    else
      var before, x := Counted(images[..|images|-1]), images[|images|-1];
      if before.None? then None
      else if |images| > 1 && IdentityOf(images[|images|-2].capture) == IdentityOf(x.capture) then
        if images[|images|-2].rgb == x.rgb then Some(before.value.(duplicates := before.value.duplicates + 1)) else None
      else Some(before.value.(unique := before.value.unique + 1))
  }

  /** Source IDs skipped between neighbouring captures. */
  function Unsampled(images: seq<Image>): int {
    if |images| <= 1 then 0
    else
      var last, x := images[|images|-2].capture.sequence, images[|images|-1].capture.sequence;
      Unsampled(images[..|images|-1]) + if x == last then 0 else x - last - 1
  }

  lemma {:induction false} CountFails(images: seq<Image>, i: nat)
    requires i <= |images| && Counted(images[..i]).None?
    ensures Counted(images).None?
  {
    if i == |images| {
      assert images[..i] == images;
    } else {
      assert images[..|images|-1][..i] == images[..i];
      CountFails(images[..|images|-1], i);
    }
  }

  lemma {:induction false} CountedSnoc(images: seq<Image>, i: nat)
    requires i < |images|
    ensures Counted([]) == Some(Census(0, 0))
    ensures var before, x := Counted(images[..i]), images[i];
            Counted(images[..i+1]) ==
              if before.None? then None
              else if i > 0 && IdentityOf(images[i-1].capture) == IdentityOf(x.capture) then
                if images[i-1].rgb == x.rgb then Some(before.value.(duplicates := before.value.duplicates + 1)) else None
              else Some(before.value.(unique := before.value.unique + 1))
  {
    assert images[..i+1][..i] == images[..i];
  }

  /** The census loop keeps only the preceding collected source and its pixels. */
  method TakeCensus(images: seq<Image>) returns (ok: bool, unique: nat, duplicates: nat)
    ensures Counted(images) == if ok then Some(Census(unique, duplicates)) else None
  {
    var previous: Option<Identity>, previousRgb: seq<nat> := None, [];
    unique, duplicates, ok := 0, 0, true;
    assert Counted([]) == Some(Census(0, 0));
    hide Counted;
    for i := 0 to |images|
      invariant Counted(images[..i]) == Some(Census(unique, duplicates))
      invariant i == 0 ==> previous.None?
      invariant i > 0 ==> previous == Some(IdentityOf(images[i-1].capture)) && previousRgb == images[i-1].rgb
    {
      CountedSnoc(images, i);
      var source, rgb := IdentityOf(images[i].capture), images[i].rgb;
      if Some(source) == previous {
        if rgb != previousRgb {
          CountFails(images, i + 1);
          return false, 0, 0;
        }
        duplicates := duplicates + 1;
      } else {
        unique := unique + 1;
      }
      previous, previousRgb := Some(source), rgb;
    }
    assert images[..|images|] == images;
  }

  /** The publication analysis: first witnesses by identity, and the running gap total. */
  method CountGaps(images: seq<Image>) returns (unsampled: int)
    requires InOrder(images)
    ensures unsampled == Unsampled(images) >= 0
  {
    unsampled := 0;
    var previous: Option<nat> := None;
    for i := 0 to |images|
      invariant unsampled == Unsampled(images[..i]) >= 0
      invariant previous == if i == 0 then None else Some(images[i-1].capture.sequence)
    {
      assert images[..i+1][..i] == images[..i];
      var sequence := images[i].capture.sequence;
      if previous.Some? {
        assert Follows(SourceOf(images[i-1].capture), images[i].capture);
        var skipped := if sequence == previous.value then 0 else sequence - previous.value - 1;
        unsampled := unsampled + skipped;
      }
      previous := Some(sequence);
    }
    assert images[..|images|] == images;
  }

  function Identities(images: seq<Image>): set<Identity> {
    set i | 0 <= i < |images| :: IdentityOf(images[i].capture)
  }

  lemma {:induction false} IdentitiesSnoc(images: seq<Image>, x: Image)
    ensures Identities(images + [x]) == Identities(images) + {IdentityOf(x.capture)}
  {
    var all := images + [x];
    assert all[|images|] == x;
    assert forall i :: 0 <= i < |images| ==> all[i] == images[i];
    forall id ensures id in Identities(all) <==> id in Identities(images) + {IdentityOf(x.capture)} {
      if id in Identities(images) {
        var i :| 0 <= i < |images| && IdentityOf(images[i].capture) == id;
        assert IdentityOf(all[i].capture) == id;
      }
      if id == IdentityOf(x.capture) { assert IdentityOf(all[|images|].capture) == id; }
    }
  }

  /** A source seen before is the last one seen. */
  lemma {:induction false} SeenIsLast(images: seq<Image>, x: Image)
    requires InOrder(images + [x]) && IdentityOf(x.capture) in Identities(images)
    ensures images != [] && IdentityOf(images[|images|-1].capture) == IdentityOf(x.capture)
  {
    var all := images + [x];
    var i :| 0 <= i < |images| && IdentityOf(images[i].capture) == IdentityOf(x.capture);
    assert all[i] == images[i] && all[|images|-1] == images[|images|-1] && all[|images|] == x;
    assert Follows(SourceOf(all[|images|-1].capture), all[|images|].capture);
    assert i < |images| - 1 ==> Follows(SourceOf(all[i].capture), all[|images|-1].capture);
  }

  ghost predicate SameRgb(images: seq<Image>) {
    forall i, k :: 0 <= i < k < |images| && IdentityOf(images[i].capture) == IdentityOf(images[k].capture) ==>
      images[i].rgb == images[k].rgb
  }

  lemma {:induction false} RgbExtends(images: seq<Image>, x: Image)
    requires InOrder(images + [x]) && SameRgb(images)
    requires images != [] && IdentityOf(images[|images|-1].capture) == IdentityOf(x.capture) ==> images[|images|-1].rgb == x.rgb
    ensures SameRgb(images + [x])
  {
    var all := images + [x];
    forall i | 0 <= i < |images| && IdentityOf(images[i].capture) == IdentityOf(x.capture) ensures images[i].rgb == x.rgb {
      SeenIsLast(images, x);
      assert i < |images| - 1 ==> images[i].rgb == images[|images|-1].rgb;
    }
  }

  lemma {:induction false} OrderFront(images: seq<Image>)
    requires images != [] && InOrder(images)
    ensures InOrder(images[..|images|-1])
  {
    var front := images[..|images|-1];
    assert forall i :: 0 <= i < |front| ==> front[i] == images[i];
  }

  predicate Repeats(images: seq<Image>) {
    |images| > 1 && IdentityOf(images[|images|-2].capture) == IdentityOf(images[|images|-1].capture)
  }

  /** A capture repeats some earlier source exactly when it repeats the last one. */
  lemma {:induction false} RepeatIsAdjacent(images: seq<Image>)
    requires images != [] && InOrder(images)
    ensures var front, x := images[..|images|-1], images[|images|-1];
            IdentityOf(x.capture) in Identities(front) <==> Repeats(images)
  {
    var front, x := images[..|images|-1], images[|images|-1];
    assert images == front + [x];
    if IdentityOf(x.capture) in Identities(front) {
      SeenIsLast(front, x);
      assert front[|front|-1] == images[|images|-2];
    }
    if Repeats(images) {
      assert IdentityOf(front[|front|-1].capture) in Identities(front);
    }
  }

  lemma {:induction false} CountStep(images: seq<Image>)
    requires images != [] && Counted(images).Some?
    ensures var front := images[..|images|-1];
            Counted(front).Some? &&
            var before, after := Counted(front).value, Counted(images).value;
            if Repeats(images)
            then after == before.(duplicates := before.duplicates + 1) && images[|images|-2].rgb == images[|images|-1].rgb
            else after == before.(unique := before.unique + 1)
  {
  }

  lemma {:induction false} GapStep(images: seq<Image>)
    requires |images| > 1 && InOrder(images)
    ensures var last, x := images[|images|-2].capture.sequence, images[|images|-1].capture.sequence;
            Unsampled(images) == Unsampled(images[..|images|-1]) + (if Repeats(images) then 0 else x - last - 1) &&
            (Repeats(images) <==> x == last)
  {
    assert images[|images|-2].capture.epoch == images[|images|-1].capture.epoch;
  }

  lemma {:induction false} DistinctCounted(images: seq<Image>)
    requires InOrder(images) && Counted(images).Some?
    ensures Counted(images).value.unique == |Identities(images)|
    ensures Counted(images).value.unique + Counted(images).value.duplicates == |images|
  {
    if images == [] {
      assert Identities(images) == {};
    } else {
      var front, x := images[..|images|-1], images[|images|-1];
      assert images == front + [x];
      OrderFront(images);
      CountStep(images);
      RepeatIsAdjacent(images);
      IdentitiesSnoc(front, x);
      DistinctCounted(front);
      if Repeats(images) { assert Identities(images) == Identities(front); }
    }
    hide *;
  }

  lemma {:induction false} RepeatsShowSamePixels(images: seq<Image>)
    requires InOrder(images) && Counted(images).Some?
    ensures SameRgb(images)
  {
    if images == [] {
    } else {
      var front, x := images[..|images|-1], images[|images|-1];
      assert images == front + [x];
      OrderFront(images);
      CountStep(images);
      assert front != [] ==> front[|front|-1] == images[|images|-2];
      RepeatsShowSamePixels(front);
      hide SameRgb, InOrder, Counted;
      RgbExtends(front, x);
    }
    hide Counted;
  }

  lemma {:induction false} IdsAccounted(images: seq<Image>)
    requires InOrder(images) && Counted(images).Some? && images != []
    ensures Unsampled(images) + Counted(images).value.unique ==
            images[|images|-1].capture.sequence - images[0].capture.sequence + 1
  {
    CountStep(images);
    var front := images[..|images|-1];
    if front == [] {
      assert Counted(front) == Some(Census(0, 0));
    } else {
      OrderFront(images);
      GapStep(images);
      IdsAccounted(front);
      assert front[|front|-1] == images[|images|-2] && front[0] == images[0];
    }
    hide Counted, InOrder, Repeats;
  }

  /** ADJACENT IS ENOUGH. Comparing each capture only with the one before it finds every repeated
      source, counts the distinct ones, and makes every repeat show the same pixels; and the
      distinct sources with the skipped IDs fill the observed range. */
  lemma {:induction false} AdjacentIsEnough(images: seq<Image>)
    requires InOrder(images) && Counted(images).Some?
    ensures Counted(images).value.unique == |Identities(images)|
    ensures Counted(images).value.unique + Counted(images).value.duplicates == |images|
    ensures SameRgb(images)
    ensures images != [] ==>
              Unsampled(images) + Counted(images).value.unique ==
              images[|images|-1].capture.sequence - images[0].capture.sequence + 1
  {
    hide *;
    DistinctCounted(images);
    RepeatsShowSamePixels(images);
    if images != [] { IdsAccounted(images); }
  }

  /** COMPLETE CENSUS. For any accepted receipt and any reader, an accepted census has found every
      repeat among the collected captures, and the accounting of source IDs closes. */
  lemma {:induction false} CensusComplete(plan: Plan, slots: seq<Slot>, read: nat -> seq<nat>)
    requires Run(plan, slots).Some? && Counted(Images(slots, read)).Some?
    ensures var images, census := Images(slots, read), Counted(Images(slots, read)).value;
            SameRgb(images) && census.unique == |Identities(images)| && census.unique + census.duplicates == |images| &&
            (images != [] ==>
              Unsampled(images) + census.unique == images[|images|-1].capture.sequence - images[0].capture.sequence + 1)
  {
    CapturesInOrder(plan, slots, read);
    AdjacentIsEnough(Images(slots, read));
    hide Run, Counted, Images, Identities, Unsampled, SameRgb;
  }
}
