/** Which source-scout receipts and which pixels the decoder accepts, said over the slots themselves. */
module ScoutReceipt {
  import opened Options
  import opened SourceScout

  /** Why no slot is attempted any more: the first slot that failed or was not attempted says. */
  function Cause(slots: seq<Slot>): Option<Reason> {
    if slots == [] then None
    else
      var before, s := Cause(slots[..|slots|-1]), slots[|slots|-1];
      if before.Some? then before
      else if s.status.Failed? then Some(PreviousTerminalFailure)
      else if s.status.NotAttempted? then Some(if s.reason == Stopped then PreviousStop else PreviousTerminalFailure)
      else None
  }

  /** The captures of the collected slots, in slot order. */
  function Captured(slots: seq<Slot>): seq<Capture> {
    if slots == [] then []
    else
      var rest, s := Captured(slots[..|slots|-1]), slots[|slots|-1];
      if s.status.Collected? && s.capture.Some? then rest + [s.capture.value] else rest
  }

  /** The external call was made in the slot, after everything observed before, and ended when observed. */
  ghost predicate Called(plan: Plan, earlier: seq<Slot>, s: Slot) {
    s.call.Some? &&
    var (before, after) := s.call.value;
    && plan.begin + |earlier| * plan.frequency / 10 <= before < plan.begin + (|earlier| + 1) * plan.frequency / 10
    && plan.anchor <= before <= after == s.observed && (forall x :: x in earlier ==> x.observed <= before)
  }

  /** The capture is later than every earlier one, or shows the same publication again. */
  ghost predicate Fresher(earlier: seq<Capture>, c: Capture) {
    forall x :: x in earlier ==>
      x.epoch == c.epoch && x.sequence <= c.sequence &&
      if x.sequence == c.sequence then x.refreshBegin == c.refreshBegin && x.refreshEnd == c.refreshEnd
      else x.refreshEnd <= c.refreshBegin
  }

  ghost predicate Collects(plan: Plan, earlier: seq<Slot>, s: Slot) {
    Called(plan, earlier, s) && s.capture.Some? &&
    var c := s.capture.value;
    && c.refreshBegin <= c.refreshEnd <= c.acquireAfter
    && s.call.value.0 <= c.acquireBefore <= c.acquireAfter <= c.submit <= c.complete <= c.ready <= s.call.value.1
    && plan.readiness <= c.sequence && Fresher(Captured(earlier), c)
  }

  /** What the slots before it ask of a slot. */
  ghost predicate SlotFits(plan: Plan, earlier: seq<Slot>, s: Slot) {
    && plan.anchor <= s.observed && (forall x :: x in earlier ==> x.observed <= s.observed)
    && if Cause(earlier).Some? then s.status.NotAttempted? && s.reason == Cause(earlier).value && s.call.None? && s.capture.None?
       else
         var next := plan.begin + (|earlier| + 1) * plan.frequency / 10;
         match s.status
         case NotAttempted =>
           s.call.None? && s.capture.None? &&
           (s.reason == Stopped ||
            (s.reason == BufferExhausted && plan.begin + |earlier| * plan.frequency / 10 <= s.observed < next))
         case MissedDeadline => s.call.None? && s.capture.None? && s.reason == WindowElapsed && s.observed >= next
         case Failed => s.reason == CallFailed && s.capture.None? && Called(plan, earlier, s)
         case Collected => s.reason == NoReason && Collects(plan, earlier, s)
  }

  ghost predicate Ordered(captures: seq<Capture>) {
    (forall i :: 0 <= i < |captures| ==> captures[i].refreshBegin <= captures[i].refreshEnd) &&
    forall i, k :: 0 <= i < k < |captures| ==>
      captures[i].epoch == captures[k].epoch && Follows(SourceOf(captures[i]), captures[k])
  }

  /** What the metadata loop remembers. */
  ghost predicate MetaIs(plan: Plan, slots: seq<Slot>, m: Meta) {
    && m.observed == (if slots == [] then plan.anchor else slots[|slots|-1].observed)
    && plan.anchor <= m.observed && (forall x :: x in slots ==> x.observed <= m.observed)
    && m.terminal == Cause(slots) && Last(Captured(slots), m.epoch, m.source) && Ordered(Captured(slots))
  }

  ghost predicate Last(captures: seq<Capture>, epoch: Option<nat>, source: Option<Source>) {
    if captures == [] then epoch.None? && source.None?
    else epoch == Some(captures[|captures|-1].epoch) && source == Some(SourceOf(captures[|captures|-1]))
  }

  /** Being later than the last capture is being later than all of them. */
  lemma {:induction false} FresherThanLast(captures: seq<Capture>, epoch: Option<nat>, source: Option<Source>, c: Capture)
    requires Ordered(captures) && Last(captures, epoch, source)
    ensures Fresher(captures, c) <==>
            (epoch.Some? ==> c.epoch == epoch.value) && (source.Some? ==> Follows(source.value, c))
    ensures Fresher(captures, c) && c.refreshBegin <= c.refreshEnd ==> Ordered(captures + [c])
  {
    if captures != [] {
      var last := captures[|captures|-1];
      assert last in captures;
      if c.epoch == last.epoch && Follows(SourceOf(last), c) {
        forall x | x in captures
          ensures x.epoch == c.epoch && x.sequence <= c.sequence && Follows(SourceOf(x), c)
        {
          var i :| 0 <= i < |captures| && captures[i] == x;
          assert i < |captures| - 1 ==> Follows(SourceOf(captures[i]), last);
        }
      }
    }
    assert forall i :: 0 <= i < |captures| ==> captures[i] in captures;
  }

  lemma {:induction false} CallExactly(plan: Plan, slots: seq<Slot>, m: Meta, s: Slot)
    requires MetaIs(plan, slots, m)
    ensures Called(plan, slots, s) <==>
            s.call.Some? && var (before, after) := s.call.value;
            plan.Due(|slots|) <= before < plan.Due(|slots| + 1) && m.observed <= before <= after == s.observed
  {
    if slots != [] { assert slots[|slots|-1] in slots; }
    hide Cause, Captured, Last, Ordered;
  }

  lemma {:induction false} CaptureExactly(plan: Plan, slots: seq<Slot>, m: Meta, s: Slot)
    requires MetaIs(plan, slots, m) && Called(plan, slots, s) && s.capture.Some?
    ensures Collects(plan, slots, s) <==> CaptureFits(plan, m, s.call.value.0, s.call.value.1, s.capture.value)
    ensures Collects(plan, slots, s) ==> Ordered(Captured(slots) + [s.capture.value])
  {
    FresherThanLast(Captured(slots), m.epoch, m.source, s.capture.value);
    hide Cause, Captured, Last, Ordered, Fresher, Follows, Called;
  }

  /** A slot is taken exactly when it fits after those before it. */
  lemma {:induction false} SlotExactly(plan: Plan, slots: seq<Slot>, m: Meta, s: Slot)
    requires MetaIs(plan, slots, m)
    ensures Step(plan, m, |slots|, s).Some? <==> SlotFits(plan, slots, s)
  {
    CallExactly(plan, slots, m, s);
    if Called(plan, slots, s) && s.capture.Some? { CaptureExactly(plan, slots, m, s); }
    ObservedExactly(plan, slots, m, s);
    hide Captured, Last, Ordered, Cause, CaptureFits, Collects, Called;
    CollectsCalls(plan, slots, s);
  }

  lemma {:induction false} CollectsCalls(plan: Plan, slots: seq<Slot>, s: Slot)
    ensures Collects(plan, slots, s) ==> Called(plan, slots, s) && s.capture.Some?
  {
  }

  lemma {:induction false} ObservedExactly(plan: Plan, slots: seq<Slot>, m: Meta, s: Slot)
    requires MetaIs(plan, slots, m)
    ensures m.observed <= s.observed <==> plan.anchor <= s.observed && forall x :: x in slots ==> x.observed <= s.observed
  {
    if slots != [] { assert slots[|slots|-1] in slots; }
    hide Captured, Last, Ordered, Cause;
  }

  lemma {:induction false} SnocFacts(slots: seq<Slot>, s: Slot)
    ensures Cause(slots + [s]) ==
            if Cause(slots).Some? then Cause(slots)
            else if s.status.Failed? then Some(PreviousTerminalFailure)
            else if s.status.NotAttempted? then Some(if s.reason == Stopped then PreviousStop else PreviousTerminalFailure)
            else None
    ensures Captured(slots + [s]) ==
            Captured(slots) + if s.status.Collected? && s.capture.Some? then [s.capture.value] else []
  {
    assert (slots + [s])[..|slots|] == slots;
  }

  lemma {:induction false} MetaNext(plan: Plan, slots: seq<Slot>, m: Meta, s: Slot)
    requires MetaIs(plan, slots, m) && Step(plan, m, |slots|, s).Some?
    ensures MetaIs(plan, slots + [s], Step(plan, m, |slots|, s).value)
  {
    SlotExactly(plan, slots, m, s);
    SnocFacts(slots, s);
    ObservedExactly(plan, slots, m, s);
    if s.status.Collected? {
      CallExactly(plan, slots, m, s);
      CaptureExactly(plan, slots, m, s);
    }
    assert Captured(slots) + [] == Captured(slots);
    hide Captured, Ordered, Cause, CaptureFits, Collects, Called;
  }

  lemma {:induction false} MetaAlways(plan: Plan, slots: seq<Slot>)
    requires Run(plan, slots).Some?
    ensures MetaIs(plan, slots, Run(plan, slots).value)
  {
    if slots == [] {
    } else {
      var front, s := slots[..|slots|-1], slots[|slots|-1];
      MetaAlways(plan, front);
      assert slots == front + [s];
      hide Step, MetaIs;
      MetaNext(plan, front, Run(plan, front).value, s);
    }
  }

  ghost predicate AllFit(plan: Plan, slots: seq<Slot>) {
    forall i :: 0 <= i < |slots| ==> SlotFits(plan, slots[..i], slots[i])
  }

  lemma {:induction false} AllFitSnoc(plan: Plan, slots: seq<Slot>)
    requires slots != []
    ensures AllFit(plan, slots) <==>
            AllFit(plan, slots[..|slots|-1]) && SlotFits(plan, slots[..|slots|-1], slots[|slots|-1])
  {
    hide SlotFits;
    var front := slots[..|slots|-1];
    assert forall i :: 0 <= i < |front| ==> front[i] == slots[i] && front[..i] == slots[..i];
  }

  /** RECEIPTS. A receipt's slots are accepted exactly when each fits after those before it. */
  lemma {:induction false} ReceiptExactly(plan: Plan, slots: seq<Slot>)
    ensures Run(plan, slots).Some? <==> AllFit(plan, slots)
  {
    if slots == [] {
    } else {
      var front, s := slots[..|slots|-1], slots[|slots|-1];
      ReceiptExactly(plan, front);
      AllFitSnoc(plan, slots);
      if Run(plan, front).Some? {
        MetaAlways(plan, front);
        SlotExactly(plan, front, Run(plan, front).value, s);
      }
      hide Step, MetaIs, AllFit, SlotFits;
    }
  }

  // ---------------------------------------------------------------------------- pixels

  lemma {:induction false} SamePixelsCount(images: seq<Image>)
    requires SameRgb(images)
    ensures Counted(images).Some?
  {
    if images != [] {
      var front := images[..|images|-1];
      assert forall i :: 0 <= i < |front| ==> front[i] == images[i];
      SamePixelsCount(front);
      CountedSnoc(images, |front|);
      assert images[..|front|+1] == images && images[..|front|] == front;
      if |images| > 1 && IdentityOf(images[|images|-2].capture) == IdentityOf(images[|images|-1].capture) {
        assert images[|images|-2].rgb == images[|images|-1].rgb;
      }
      hide Counted;
    }
  }

  /** PIXELS. The census of an accepted receipt succeeds exactly when all captures of one source, however
      far apart, show the same pixels. */
  lemma {:induction false} CensusExactly(plan: Plan, slots: seq<Slot>, read: nat -> seq<nat>)
    requires Run(plan, slots).Some?
    ensures Counted(Images(slots, read)).Some? <==> SameRgb(Images(slots, read))
  {
    CapturesInOrder(plan, slots, read);
    var images := Images(slots, read);
    hide Run, Counted, Images, SameRgb;
    if Counted(images).Some? { RepeatsShowSamePixels(images); }
    if SameRgb(images) { SamePixelsCount(images); }
  }
}
