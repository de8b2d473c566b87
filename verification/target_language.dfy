/** The event lists one vector-target body can have, written as the straight line the body runs, and
    the proof that the table-driven decoder accepts exactly those. */
module TargetLanguage {
  import opened Options
  import opened VectorTarget
  import N = NestedReplay

  // ------------------------------------------------------------------ the body's text

  /** An event of this kind at this call site that uses only its first `used` fields. */
  predicate Plain(ev: Event, kind: Kind, used: nat, site: nat) {
    ev.kind == kind && ev.site == site && forall i :: used <= i < 4 ==> ev.fields[i] == 0
  }

  predicate Silent(ev: Event) { ev.vector == [0, 0, 0, 0] }

  function CallerOf(site: nat): nat {
    if site == 0 then 0x8259F334 else if site == 1 then 0x8259F34C else if site == 2 then 0x8259F364
    else if site == 3 then 0x8259F36C else if site == 4 then 0x8259F474 else if site == 5 then 0x8259F48C else 0x8259F4B4
  }

  /** The body calls out at a site with its own object; at four of them the entry lanes are restored. */
  predicate CallText(ev: Event, e: Entry, site: nat) {
    Plain(ev, CallPre, 3, site) && ev.fields[0] == CallerOf(site) && ev.fields[1] == e.r3 &&
    (site in {0, 1, 2, 5} ==> ev.vector == e.v1)
  }

  predicate BackText(ev: Event, site: nat) { Plain(ev, CallReturn, 0, site) && Silent(ev) }

  /** The two events at positions i and i+1 call out at this site and come back. */
  predicate Calls(t: seq<Event>, i: nat, e: Entry, site: nat) {
    i + 1 < |t| && CallText(t[i], e, site) && BackText(t[i+1], site)
  }

  function Low(address: nat): nat { address % 0x1_0000_0000 }

  predicate LoadText(ev: Event, e: Entry) {
    Plain(ev, VectorLoad, 1, 0) && ev.fields[0] % 16 == 0 && ev.fields[0] <= Low(Low(e.r3) + 400) < ev.fields[0] + 16
  }

  predicate FlagText(ev: Event, e: Entry) {
    Plain(ev, FlagStore, 2, 0) && Silent(ev) && ev.fields[0] == Low(Low(e.r3) + 657) && ev.fields[1] <= 1
  }

  predicate GateText(ev: Event) { Plain(ev, SlotGate, 1, 0) && Silent(ev) && ev.fields[0] in {0, 16} }

  predicate CounterText(ev: Event, e: Entry) {
    Plain(ev, CounterLoad, 2, 0) && Silent(ev) && ev.fields[0] == Low(Low(e.r3) + 664) && ev.fields[1] <= 0xFFFF_FFFF
  }

  predicate StoreText(ev: Event, e: Entry, loaded: nat) {
    Plain(ev, CounterStore, 3, 0) && Silent(ev) && ev.fields[0] == Low(Low(e.r3) + 664) && ev.fields[1] == loaded &&
    ev.fields[2] == loaded + 1
  }

  predicate ReturnText(t: seq<Event>) { |t| == 1 && Plain(t[0], BodyReturn, 0, 0) && Silent(t[0]) }

  /** Call 5, then count; call 6 too when the new count's low word is above 32 and not negative. */
  predicate CountText(t: seq<Event>, e: Entry) {
    Calls(t, 0, e, 5) && |t| >= 4 && CounterText(t[2], e) && StoreText(t[3], e, t[2].fields[1]) &&
    if 32 < Low(t[3].fields[2]) < 0x8000_0000 then Calls(t, 4, e, 6) && ReturnText(t[6..]) else ReturnText(t[4..])
  }

  /** What follows the admission of a target body that returns normally. */
  predicate TargetText(t: seq<Event>, e: Entry) {
    |t| >= 11 && LoadText(t[0], e) && Calls(t, 1, e, 0) && Calls(t, 3, e, 1) && Calls(t, 5, e, 2) && Calls(t, 7, e, 3) &&
    FlagText(t[9], e) && GateText(t[10]) &&
    if t[10].fields[0] == 0 then Calls(t, 11, e, 4) && CountText(t[13..], e) else CountText(t[11..], e)
  }

  // ------------------------------------------------------- the decoder on one event list

  predicate Ends(kind: Kind) { kind.BodyReturn? || kind.BodyThrow? }

  predicate Finishes(f: Frame, t: seq<Event>, e: Entry)
    decreases |t|
  {
    t != [] && Step(f, t[0], e).Some? &&
    if t[0].kind.BodyReturn? then |t| == 1 else !t[0].kind.BodyThrow? && Finishes(Step(f, t[0], e).value, t[1..], e)
  }

  lemma {:induction false} PlainIsPayload(ev: Event)
    ensures Payload(ev) <==>
            Plain(ev, ev.kind, Used(ev.kind), ev.site) &&
            (ev.kind.VectorLoad? || ev.kind.CallPre? || Silent(ev)) &&
            (ev.kind.CallPre? || ev.kind.CallReturn? || ev.kind.CallThrow? || ev.site == 0)
  {
  }

  lemma {:induction false} Tables(site: Site)
    ensures READY[site] == (if site < 4 then site + 1 else if site == 4 then 7 else if site == 5 then 8 else 11)
    ensures AFTER[site] == (if site < 4 then site + 2 else if site == 4 then 8 else if site == 5 then 9 else 12)
    ensures CALLERS[site] == CallerOf(site)
  {
    assert site == 0 || site == 1 || site == 2 || site == 3 || site == 4 || site == 5 || site == 6;
  }

  /** Which kind of event each stage takes, besides the closing ones. */
  lemma {:induction false} NextOf(f: Frame, ev: Event, e: Entry)
    requires Step(f, ev, e).Some? && !Ends(ev.kind)
    ensures match ev.kind
            case VectorLoad => f.stage == 0
            case CallPre => f.stage == READY[ev.site]
            case CallReturn => f.stage == 13 && f.active == ev.site
            case CallThrow => f.stage == 13 && f.active == ev.site && Step(f, ev, e).value.stage == 14
            case FlagStore => f.stage == 5
            case SlotGate => f.stage == 6
            case CounterLoad => f.stage == 9
            case CounterStore => f.stage == 10
            case _ => false
  {
    hide Payload;
  }

  lemma {:induction false} ReturnOnlyDone(f: Frame, ev: Event, e: Entry)
    requires ev.kind.BodyReturn?
    ensures Step(f, ev, e).Some? <==> f.stage == 12 && Plain(ev, BodyReturn, 0, 0) && Silent(ev)
  {
    PlainIsPayload(ev);
    hide Payload;
  }

  lemma {:induction false} ThrownNeverFinishes(f: Frame, t: seq<Event>, e: Entry)
    requires f.stage == 14
    ensures !Finishes(f, t, e)
  {
    if t != [] && Step(f, t[0], e).Some? {
      Tables(t[0].site);
      if t[0].kind.BodyReturn? {
        ReturnOnlyDone(f, t[0], e);
      } else if !t[0].kind.BodyThrow? {
        NextOf(f, t[0], e);
      }
    }
    hide Step, Plain;
  }

  lemma {:induction false} FinishesNext(f: Frame, t: seq<Event>, e: Entry)
    requires f.stage != 12
    ensures Finishes(f, t, e) <==>
            t != [] && !Ends(t[0].kind) && Step(f, t[0], e).Some? && Step(f, t[0], e).value.stage != 14 &&
            Finishes(Step(f, t[0], e).value, t[1..], e)
  {
    if t != [] && Step(f, t[0], e).Some? {
      if t[0].kind.BodyReturn? { ReturnOnlyDone(f, t[0], e); }
      if Step(f, t[0], e).value.stage == 14 { ThrownNeverFinishes(Step(f, t[0], e).value, t[1..], e); }
    }
    hide Step, Plain;
  }

  lemma {:induction false} DoneText(f: Frame, t: seq<Event>, e: Entry)
    requires f.stage == 12
    ensures Finishes(f, t, e) <==> ReturnText(t)
  {
    if t != [] {
      Tables(t[0].site);
      if t[0].kind.BodyReturn? {
        ReturnOnlyDone(f, t[0], e);
      } else if Step(f, t[0], e).Some? && !t[0].kind.BodyThrow? {
        NextOf(f, t[0], e);
      }
    }
    hide Step;
  }

  // --------------------------------------------------------------------- one event each

  lemma {:induction false} CallStepExactly(f: Frame, ev: Event, e: Entry, site: Site)
    requires f.stage == READY[site]
    ensures !Ends(ev.kind) && Step(f, ev, e).Some? <==> CallText(ev, e, site)
    ensures CallText(ev, e, site) ==> Step(f, ev, e) == Some(f.(active := site, stage := 13))
  {
    PlainIsPayload(ev);
    Tables(site);
    Tables(ev.site);
    if Step(f, ev, e).Some? && !Ends(ev.kind) { NextOf(f, ev, e); }
    hide Payload;
  }

  lemma {:induction false} BackStepExactly(f: Frame, ev: Event, e: Entry)
    requires f.stage == 13
    ensures !Ends(ev.kind) && Step(f, ev, e).Some? && Step(f, ev, e).value.stage != 14 <==> BackText(ev, f.active)
    ensures BackText(ev, f.active) ==> Step(f, ev, e) == Some(f.(stage := AFTER[f.active]))
  {
    PlainIsPayload(ev);
    Tables(ev.site);
    Tables(f.active);
    if Step(f, ev, e).Some? && !Ends(ev.kind) { NextOf(f, ev, e); }
    hide Payload;
  }

  /** A call and its return, from the stage where the site is ready. */
  lemma {:induction false} CallsExactly(f: Frame, t: seq<Event>, e: Entry, site: Site)
    requires f.stage == READY[site]
    ensures Finishes(f, t, e) <==>
            Calls(t, 0, e, site) && Finishes(f.(active := site, stage := AFTER[site]), t[2..], e)
  {
    hide Step, Plain, Finishes, CallText, BackText;
    Tables(site);
    FinishesNext(f, t, e);
    if t != [] {
      CallStepExactly(f, t[0], e, site);
      if CallText(t[0], e, site) {
        var g := f.(active := site, stage := 13);
        FinishesNext(g, t[1..], e);
        if |t| >= 2 {
          BackStepExactly(g, t[1], e);
          assert t[1..][1..] == t[2..];
        }
      }
    }
  }

  lemma {:induction false} LoadExactly(f: Frame, ev: Event, e: Entry)
    requires f.stage == 0
    ensures !Ends(ev.kind) && Step(f, ev, e).Some? <==> LoadText(ev, e)
    ensures LoadText(ev, e) ==> Step(f, ev, e) == Some(f.(stage := 1))
  {
    PlainIsPayload(ev);
    Tables(ev.site);
    if Step(f, ev, e).Some? && !Ends(ev.kind) { NextOf(f, ev, e); }
    AlignedDown(Low(e.r3) + 400, ev.fields[0]);
    hide Payload, Aligned;
  }

  lemma {:induction false} AlignedDown(address: nat, a: nat)
    ensures a == Aligned(address) <==> a % 16 == 0 && a <= Low(address) < a + 16
  {
  }

  lemma {:induction false} FlagExactly(f: Frame, ev: Event, e: Entry)
    requires f.stage == 5
    ensures !Ends(ev.kind) && Step(f, ev, e).Some? <==> FlagText(ev, e)
    ensures FlagText(ev, e) ==> Step(f, ev, e) == Some(f.(stage := 6))
  {
    PlainIsPayload(ev);
    Tables(ev.site);
    if Step(f, ev, e).Some? && !Ends(ev.kind) { NextOf(f, ev, e); }
    hide Payload, Aligned;
  }

  lemma {:induction false} GateExactly(f: Frame, ev: Event, e: Entry)
    requires f.stage == 6
    ensures !Ends(ev.kind) && Step(f, ev, e).Some? <==> GateText(ev)
    ensures GateText(ev) ==> Step(f, ev, e) == Some(f.(stage := if ev.fields[0] == 0 then 7 else 8))
  {
    PlainIsPayload(ev);
    Tables(ev.site);
    if Step(f, ev, e).Some? && !Ends(ev.kind) { NextOf(f, ev, e); }
    hide Payload, Aligned;
  }

  lemma {:induction false} CounterExactly(f: Frame, ev: Event, e: Entry)
    requires f.stage == 9
    ensures !Ends(ev.kind) && Step(f, ev, e).Some? <==> CounterText(ev, e)
    ensures CounterText(ev, e) ==> Step(f, ev, e) == Some(f.(counter := ev.fields[1], stage := 10))
  {
    PlainIsPayload(ev);
    Tables(ev.site);
    if Step(f, ev, e).Some? && !Ends(ev.kind) { NextOf(f, ev, e); }
    hide Payload, Aligned;
  }

  lemma {:induction false} StoreExactly(f: Frame, ev: Event, e: Entry)
    requires f.stage == 10
    ensures !Ends(ev.kind) && Step(f, ev, e).Some? <==> StoreText(ev, e, f.counter)
    ensures StoreText(ev, e, f.counter) ==>
              Step(f, ev, e) == Some(f.(stage := if 32 < Low(ev.fields[2]) < 0x8000_0000 then 11 else 12))
  {
    PlainIsPayload(ev);
    Tables(ev.site);
    if Step(f, ev, e).Some? && !Ends(ev.kind) { NextOf(f, ev, e); }
    hide Payload, Aligned;
  }

  // --------------------------------------------------------------------- the whole body

  lemma {:induction false} CallsShift(t: seq<Event>, i: nat, e: Entry, site: nat)
    requires i <= |t|
    ensures Calls(t[i..], 0, e, site) <==> Calls(t, i, e, site)
  {
    hide CallText, BackText;
  }

  /** From the store on: the count has just been loaded. */
  lemma {:induction false} StoredExactly(f: Frame, t: seq<Event>, e: Entry)
    requires f.stage == 10 && |t| >= 3
    ensures Finishes(f, t[3..], e) <==>
            |t| >= 4 && StoreText(t[3], e, f.counter) &&
            if 32 < Low(t[3].fields[2]) < 0x8000_0000 then Calls(t, 4, e, 6) && ReturnText(t[6..]) else ReturnText(t[4..])
  {
    hide Step, Plain, Finishes, CallText, BackText, StoreText, ReturnText, Low;
    FinishesNext(f, t[3..], e);
    if |t| >= 4 {
      StoreExactly(f, t[3], e);
      assert t[3..][1..] == t[4..];
      if StoreText(t[3], e, f.counter) {
        var g := Step(f, t[3], e).value;
        Tables(6);
        if 32 < Low(t[3].fields[2]) < 0x8000_0000 {
          CallsExactly(g, t[4..], e, 6);
          CallsShift(t, 4, e, 6);
          if |t| >= 6 {
            assert t[4..][2..] == t[6..];
            DoneText(g.(active := 6, stage := 12), t[6..], e);
          }
        } else {
          DoneText(g, t[4..], e);
        }
      }
    }
  }

  lemma {:induction false} CountExactly(f: Frame, t: seq<Event>, e: Entry)
    requires f.stage == 8
    ensures Finishes(f, t, e) <==> CountText(t, e)
  {
    hide Step, Plain, Finishes, CallText, BackText, StoreText, ReturnText, Low, CounterText;
    Tables(5);
    CallsExactly(f, t, e, 5);
    if Calls(t, 0, e, 5) {
      var g := f.(active := 5, stage := 9);
      FinishesNext(g, t[2..], e);
      if |t| >= 3 {
        CounterExactly(g, t[2], e);
        assert t[2..][1..] == t[3..];
        if CounterText(t[2], e) { StoredExactly(Step(g, t[2], e).value, t, e); }
      }
    }
  }

  lemma {:induction false} GatedExactly(f: Frame, t: seq<Event>, e: Entry)
    requires f.stage == 5 && |t| >= 9
    ensures Finishes(f, t[9..], e) <==>
            |t| >= 11 && FlagText(t[9], e) && GateText(t[10]) &&
            if t[10].fields[0] == 0 then Calls(t, 11, e, 4) && CountText(t[13..], e) else CountText(t[11..], e)
  {
    hide Step, Plain, Finishes, CallText, BackText, Low, CountText, FlagText, GateText;
    FinishesNext(f, t[9..], e);
    if |t| >= 10 {
      FlagExactly(f, t[9], e);
      assert t[9..][1..] == t[10..];
      if FlagText(t[9], e) {
        var g := Step(f, t[9], e).value;
        FinishesNext(g, t[10..], e);
        if |t| >= 11 {
          GateExactly(g, t[10], e);
          assert t[10..][1..] == t[11..];
          if GateText(t[10]) { AfterGate(Step(g, t[10], e).value, t, e); }
        }
      }
    }
  }

  lemma {:induction false} AfterGate(f: Frame, t: seq<Event>, e: Entry)
    requires |t| >= 11 && f.stage == if t[10].fields[0] == 0 then 7 else 8
    ensures Finishes(f, t[11..], e) <==>
            if t[10].fields[0] == 0 then Calls(t, 11, e, 4) && CountText(t[13..], e) else CountText(t[11..], e)
  {
    hide Finishes, CallText, BackText, CountText;
    Tables(4);
    if t[10].fields[0] == 0 {
      CallsExactly(f, t[11..], e, 4);
      CallsShift(t, 11, e, 4);
      if |t| >= 13 {
        assert t[11..][2..] == t[13..];
        CountExactly(f.(active := 4, stage := 8), t[13..], e);
      }
    } else {
      CountExactly(f, t[11..], e);
    }
  }

  /** The call at site s, then what comes after its return. */
  lemma {:induction false} CallThen(f: Frame, t: seq<Event>, i: nat, e: Entry, site: Site)
    requires f.stage == READY[site] && i <= |t|
    ensures Finishes(f, t[i..], e) <==>
            Calls(t, i, e, site) && Finishes(f.(active := site, stage := AFTER[site]), t[i+2..], e)
  {
    hide Finishes, CallText, BackText;
    CallsExactly(f, t[i..], e, site);
    CallsShift(t, i, e, site);
    if i + 2 <= |t| { assert t[i..][2..] == t[i+2..]; }
  }

  lemma {:induction false} OpeningCalls(f: Frame, t: seq<Event>, e: Entry)
    requires f.stage == 1 && |t| >= 1
    ensures Finishes(f, t[1..], e) <==>
            Calls(t, 1, e, 0) && Calls(t, 3, e, 1) && Calls(t, 5, e, 2) && Calls(t, 7, e, 3) &&
            Finishes(f.(active := 3, stage := 5), t[9..], e)
  {
    hide Finishes, CallText, BackText;
    Tables(0);
    Tables(1);
    Tables(2);
    Tables(3);
    CallThen(f, t, 1, e, 0);
    if Calls(t, 1, e, 0) {
      CallThen(f.(active := 0, stage := 2), t, 3, e, 1);
      if Calls(t, 3, e, 1) {
        CallThen(f.(active := 1, stage := 3), t, 5, e, 2);
        if Calls(t, 5, e, 2) { CallThen(f.(active := 2, stage := 4), t, 7, e, 3); }
      }
    }
  }

  /** LANGUAGE. From a new frame the decoder takes a list and returns normally at its end exactly when
      the list is the text of a target body with this entry. */
  lemma {:induction false} TargetExactly(index: nat, parent: Id, t: seq<Event>, e: Entry)
    ensures Finishes(NewFrame(index, parent), t, e) <==> TargetText(t, e)
  {
    var f := NewFrame(index, parent);
    hide Step, Plain, Finishes, LoadText, CallText, BackText, FlagText, GateText, CountText;
    FinishesNext(f, t, e);
    if t != [] {
      LoadExactly(f, t[0], e);
      if LoadText(t[0], e) {
        var g := f.(stage := 1);
        OpeningCalls(g, t, e);
        if |t| >= 9 { GatedExactly(g.(active := 3, stage := 5), t, e); }
      }
    }
  }

  // ------------------------------------------------------ unfinished and thrown histories

  /** The frame after a list of events, if the decoder takes them all. */
  function Feed(f: Frame, t: seq<Event>, e: Entry): Option<Frame> {
    if t == [] then Some(f)
    else
      var before := Feed(f, t[..|t|-1], e);
      if before.None? then None else Step(before.value, t[|t|-1], e)
  }

  predicate NoEnd(t: seq<Event>) { forall i :: 0 <= i < |t| ==> !Ends(t[i].kind) }

  lemma {:induction false} FeedFirst(f: Frame, t: seq<Event>, e: Entry)
    requires t != []
    ensures Feed(f, t, e) == if Step(f, t[0], e).None? then None else Feed(Step(f, t[0], e).value, t[1..], e)
  {
    hide Step;
    if |t| > 1 {
      FeedFirst(f, t[..|t|-1], e);
      assert t[..|t|-1][1..] == t[1..][..|t|-2];
    } else {
      assert t[..0] == [] && t[1..] == [];
      assert Feed(f, [], e) == Some(f);
      if Step(f, t[0], e).Some? { assert Feed(Step(f, t[0], e).value, [], e) == Step(f, t[0], e); }
    }
  }

  lemma {:induction false} FinishesAfter(f: Frame, t: seq<Event>, u: seq<Event>, e: Entry)
    requires NoEnd(t)
    ensures Finishes(f, t + u, e) <==> Feed(f, t, e).Some? && Finishes(Feed(f, t, e).value, u, e)
    decreases |t|
  {
    hide Step;
    if t == [] {
      assert t + u == u;
    } else {
      FeedFirst(f, t, e);
      assert (t + u)[0] == t[0] && (t + u)[1..] == t[1..] + u;
      if Step(f, t[0], e).Some? { FinishesAfter(Step(f, t[0], e).value, t[1..], u, e); }
    }
  }

  function Made(kind: Kind, site: Site, fields: Words, vector: Words): Event {
    Event(0, NO_ID, kind, site, fields, vector, true, 0, true, false)
  }

  predicate Live(f: Frame) { f.stage <= 13 && (f.stage == 10 ==> f.counter <= U32) }

  /** An event every unfinished, unthrown target body could have next. */
  function Onward(f: Frame, e: Entry): Event
    requires Live(f)
  {
    if f.stage == 0 then Made(VectorLoad, 0, [Aligned(Low(e.r3) + 400), 0, 0, 0], ZEROS)
    else if f.stage <= 4 then Made(CallPre, f.stage - 1, [CallerOf(f.stage - 1), e.r3, 0, 0], e.v1)
    else if f.stage == 5 then Made(FlagStore, 0, [Low(Low(e.r3) + 657), 0, 0, 0], ZEROS)
    else if f.stage == 6 then Made(SlotGate, 0, ZEROS, ZEROS)
    else if f.stage == 7 then Made(CallPre, 4, [CallerOf(4), e.r3, 0, 0], e.v1)
    else if f.stage == 8 then Made(CallPre, 5, [CallerOf(5), e.r3, 0, 0], e.v1)
    else if f.stage == 9 then Made(CounterLoad, 0, [Low(Low(e.r3) + 664), 0, 0, 0], ZEROS)
    else if f.stage == 10 then Made(CounterStore, 0, [Low(Low(e.r3) + 664), f.counter, f.counter + 1, 0], ZEROS)
    else if f.stage == 11 then Made(CallPre, 6, [CallerOf(6), e.r3, 0, 0], e.v1)
    else if f.stage == 12 then Made(BodyReturn, 0, ZEROS, ZEROS)
    else Made(CallReturn, f.active, ZEROS, ZEROS)
  }

  /** How far along the line a stage is. */
  function Rank(f: Frame): nat { if f.stage == 13 then 2 * READY[f.active] + 1 else 2 * f.stage }

  lemma {:induction false} OnwardTaken(f: Frame, e: Entry)
    requires Live(f) && f.stage != 12
    ensures !Ends(Onward(f, e).kind) && Step(f, Onward(f, e), e).Some?
    ensures var g := Step(f, Onward(f, e), e).value; Live(g) && Rank(f) < Rank(g) <= 25
  {
    var ev := Onward(f, e);
    hide Step, Low, Aligned;
    Tables(f.active);
    if f.stage == 0 {
      AlignedDown(Low(e.r3) + 400, ev.fields[0]);
      LoadExactly(f, ev, e);
    } else if f.stage == 5 {
      FlagExactly(f, ev, e);
    } else if f.stage == 6 {
      GateExactly(f, ev, e);
    } else if f.stage == 9 {
      CounterExactly(f, ev, e);
    } else if f.stage == 10 {
      StoreExactly(f, ev, e);
    } else if f.stage == 13 {
      BackStepExactly(f, ev, e);
    } else {
      Tables(ev.site);
      CallStepExactly(f, ev, e, ev.site);
    }
  }

  lemma {:induction false} ReturnTaken(f: Frame, e: Entry)
    requires f.stage == 12
    ensures Finishes(f, [Onward(f, e)], e)
  {
    DoneText(f, [Onward(f, e)], e);
  }

  /** NO DEAD END. Every unfinished target body that has not thrown can still return normally. */
  lemma {:induction false} CanFinish(f: Frame, e: Entry) returns (u: seq<Event>)
    requires Live(f) && Rank(f) <= 25
    ensures Finishes(f, u, e)
    decreases 25 - Rank(f)
  {
    var ev := Onward(f, e);
    if f.stage == 12 {
      ReturnTaken(f, e);
      u := [ev];
    } else {
      OnwardTaken(f, e);
      hide Step, Onward, Rank, Live;
      var rest := CanFinish(Step(f, ev, e).value, e);
      u := [ev] + rest;
      assert u[1..] == rest;
    }
  }

  lemma {:induction false} StepLive(f: Frame, ev: Event, e: Entry)
    requires Live(f) && Step(f, ev, e).Some?
    ensures Step(f, ev, e).value.stage == 14 || Live(Step(f, ev, e).value)
  {
    Tables(ev.site);
    hide Payload, Aligned;
  }

  lemma {:induction false} FeedLive(f: Frame, t: seq<Event>, e: Entry)
    requires Live(f) && NoEnd(t) && Feed(f, t, e).Some?
    ensures Feed(f, t, e).value.stage == 14 || Live(Feed(f, t, e).value)
  {
    if t != [] {
      hide Step, Live;
      FeedLive(f, t[..|t|-1], e);
      var g := Feed(f, t[..|t|-1], e).value;
      if g.stage == 14 {
        StillThrown(g, t[|t|-1], e);
      } else {
        StepLive(g, t[|t|-1], e);
      }
    }
  }

  lemma {:induction false} StillThrown(f: Frame, ev: Event, e: Entry)
    requires f.stage == 14 && !Ends(ev.kind)
    ensures Step(f, ev, e).None?
  {
    Tables(ev.site);
    if Step(f, ev, e).Some? { NextOf(f, ev, e); }
    hide Step;
  }

  lemma {:induction false} RankBounded(f: Frame)
    requires Live(f)
    ensures Rank(f) <= 26 && (f.stage != 13 ==> Rank(f) <= 25) && (f.stage == 13 ==> Rank(f) <= 25)
  {
    Tables(f.active);
  }

  /** Some continuation makes this the text of a target body. */
  ghost predicate Begins(t: seq<Event>, e: Entry) { exists u :: TargetText(t + u, e) }

  /** PREFIXES. A list without a closing event leaves a running, unthrown body exactly when it is a
      beginning of the text of some body. */
  lemma {:induction false} RunningExactly(index: nat, parent: Id, t: seq<Event>, e: Entry)
    requires NoEnd(t)
    ensures var g := Feed(NewFrame(index, parent), t, e); g.Some? && g.value.stage != 14 <==> Begins(t, e)
  {
    var f := NewFrame(index, parent);
    var g := Feed(f, t, e);
    assert Live(f);
    hide Step, Live, TargetText, Finishes, Feed;
    if g.Some? && g.value.stage != 14 {
      FeedLive(f, t, e);
      RankBounded(g.value);
      var u := CanFinish(g.value, e);
      FinishesAfter(f, t, u, e);
      TargetExactly(index, parent, t + u, e);
    }
    forall u | TargetText(t + u, e) ensures g.Some? && g.value.stage != 14 {
      TargetExactly(index, parent, t + u, e);
      FinishesAfter(f, t, u, e);
      if g.value.stage == 14 { ThrownNeverFinishes(g.value, u, e); }
    }
  }

  /** After an accepted event the body is inside a call exactly when that event made the call. */
  lemma {:induction false} InsideAfterCall(f: Frame, ev: Event, e: Entry)
    requires Step(f, ev, e).Some? && !Ends(ev.kind)
    ensures Step(f, ev, e).value.stage == 13 <==> ev.kind.CallPre?
    ensures ev.kind.CallPre? ==> Step(f, ev, e).value.active == ev.site
  {
    Tables(ev.site);
    hide Payload, Aligned;
  }

  lemma {:induction false} ThrowTaken(f: Frame, ev: Event, e: Entry)
    requires !Ends(ev.kind)
    ensures Step(f, ev, e).Some? && Step(f, ev, e).value.stage == 14 <==>
            f.stage == 13 && ev.kind.CallThrow? && Plain(ev, CallThrow, 0, f.active) && Silent(ev)
  {
    PlainIsPayload(ev);
    Tables(ev.site);
    hide Payload, Aligned;
  }

  /** A beginning of a body's text whose last call threw. */
  ghost predicate Threw(t: seq<Event>, e: Entry) {
    |t| >= 2 && Begins(t[..|t|-1], e) && t[|t|-2].kind.CallPre? && Plain(t[|t|-1], CallThrow, 0, t[|t|-2].site) &&
    Silent(t[|t|-1])
  }

  lemma {:induction false} FeedInside(index: nat, parent: Id, t: seq<Event>, e: Entry)
    requires NoEnd(t) && Feed(NewFrame(index, parent), t, e).Some?
    ensures var g := Feed(NewFrame(index, parent), t, e).value;
            (g.stage == 13 <==> t != [] && t[|t|-1].kind.CallPre?) &&
            (g.stage == 13 ==> g.active == t[|t|-1].site)
  {
    if t != [] { InsideAfterCall(Feed(NewFrame(index, parent), t[..|t|-1], e).value, t[|t|-1], e); }
    hide Step;
  }

  /** HISTORIES. The decoder takes a list without a closing event exactly when it begins the text of a
      body, or is such a beginning ended by the throw of the call it had just made. */
  lemma {:induction false} HistoryExactly(index: nat, parent: Id, t: seq<Event>, e: Entry)
    requires NoEnd(t)
    ensures Feed(NewFrame(index, parent), t, e).Some? <==> Begins(t, e) || Threw(t, e)
  {
    var f := NewFrame(index, parent);
    hide Step, Begins, Ends;
    RunningExactly(index, parent, t, e);
    if t == [] {
      assert Feed(f, t, e) == Some(f);
    } else {
      var front, x := t[..|t|-1], t[|t|-1];
      RunningExactly(index, parent, front, e);
      var before := Feed(f, front, e);
      if before.Some? {
        FeedInside(index, parent, front, e);
        ThrowTaken(before.value, x, e);
        if before.value.stage == 14 { StillThrown(before.value, x, e); }
      }
    }
  }

  // ----------------------------------------------------------------------- in a lane

  /** The frame of an invocation is what its own events after the admission lead to. */
  ghost predicate Fed(lane: Lane, f: Frame, seen: seq<Event>) {
    seen != [] && NoEnd(seen[..|seen|-1]) && FeedIn(lane, NewFrame(f.index, f.parent), seen[1..]) == Some(f)
  }

  /** The same as `Feed`, each event with the operands of the entry it names. */
  function FeedIn(lane: Lane, f: Frame, t: seq<Event>): Option<Frame> {
    if t == [] then Some(f)
    else
      var before := FeedIn(lane, f, t[..|t|-1]);
      if before.None? then None else StepIn(lane, before.value, t[|t|-1])
  }

  lemma {:induction false} FeedInOwn(lane: Lane, f: Frame, t: seq<Event>, index: nat)
    requires index < |lane.entries| && forall i :: 0 <= i < |t| ==> t[i].index == index
    ensures FeedIn(lane, f, t) == Feed(f, t, lane.entries[index])
  {
    hide Step;
    if t != [] { FeedInOwn(lane, f, t[..|t|-1], index); }
  }

  lemma {:induction false} StepKeepsName(f: Frame, ev: Event, e: Entry)
    requires Step(f, ev, e).Some?
    ensures Step(f, ev, e).value.index == f.index && Step(f, ev, e).value.parent == f.parent
  {
    hide Payload, Aligned, Reaches;
  }

  lemma {:induction false} FedNext(lane: Lane, f: Frame, seen: seq<Event>, ev: Event)
    requires Fed(lane, f, seen) && !Ends(seen[|seen|-1].kind) && StepIn(lane, f, ev).Some?
    ensures Fed(lane, StepIn(lane, f, ev).value, seen + [ev])
  {
    var all := seen + [ev];
    assert all[1..] == seen[1..] + [ev] && all[1..][..|all|-2] == seen[1..];
    assert all[..|all|-1] == seen;
    StepKeepsName(f, ev, lane.entries[ev.index]);
    hide Step, Ends;
  }

  lemma {:induction false} FedInductive(lane: Lane, d: Window)
    ensures N.Inductive(Decoder(lane, d), (f: Frame, seen: seq<Event>) => Fed(lane, f, seen))
  {
    var m, p := Decoder(lane, d), (f: Frame, seen: seq<Event>) => Fed(lane, f, seen);
    hide StepIn;
    forall l, f, ev: Event | m.phase(ev).Opens? && N.OpensTo(m, l, ev, f) ensures p(f, [ev]) {
      var top :| m.open(l, top, ev) == Some(f);
      assert [ev][1..] == [];
    }
    hide Fed;
    forall f: Frame, seen: seq<Event>, ev: Event |
      p(f, seen) && N.Running(m, seen) && !m.phase(ev).Opens? && m.step(f, ev).Some?
      ensures p(m.step(f, ev).value, seen + [ev])
    {
      FedNext(lane, f, seen, ev);
    }
  }

  lemma {:induction false} OwnIndexes(lane: Lane, d: Window, events: seq<Event>, id: nat)
    ensures var own := N.Own(Decoder(lane, d), events, id); forall i :: 0 <= i < |own| ==> own[i].index + 1 == id
  {
    if events != [] {
      var m, front, ev := Decoder(lane, d), events[..|events|-1], events[|events|-1];
      OwnIndexes(lane, d, front, id);
      N.OwnSnoc(m, events, id);
      assert m.id(ev) == ev.index + 1;
      hide N.Own;
    }
  }

  /** The next own event a body with this history may have. */
  ghost predicate Continues(h: seq<Event>, ev: Event, e: Entry) {
    if ev.kind.BodyReturn? then TargetText(h + [ev], e)
    else if ev.kind.BodyThrow? then Plain(ev, BodyThrow, 0, 0) && Silent(ev)
    else Begins(h + [ev], e) || Threw(h + [ev], e)
  }

  lemma {:induction false} NoEndSnoc(h: seq<Event>, ev: Event)
    requires NoEnd(h) && !Ends(ev.kind)
    ensures NoEnd(h + [ev])
  {
  }

  lemma {:induction false} ContinuesExactly(f: Frame, h: seq<Event>, ev: Event, e: Entry)
    requires NoEnd(h) && Feed(NewFrame(f.index, f.parent), h, e) == Some(f)
    ensures Step(f, ev, e).Some? <==> Continues(h, ev, e)
  {
    var start := NewFrame(f.index, f.parent);
    assert (h + [ev])[..|h|] == h;
    PlainIsPayload(ev);
    hide Plain, TargetText, Begins, Threw, Ends, Silent;
    if ev.kind.BodyReturn? {
      FinishesAfter(start, h, [ev], e);
      TargetExactly(f.index, f.parent, h + [ev], e);
    } else if ev.kind.BodyThrow? {
      assert Step(f, ev, e).Some? <==> Payload(ev);
      ThrowPays(ev);
    } else {
      EndsKinds(ev);
      NoEndSnoc(h, ev);
      HistoryExactly(f.index, f.parent, h + [ev], e);
    }
    hide Step, Payload;
  }

  lemma {:induction false} EndsKinds(ev: Event)
    ensures Ends(ev.kind) <==> ev.kind.BodyReturn? || ev.kind.BodyThrow?
  {
  }

  lemma {:induction false} ThrowPays(ev: Event)
    requires ev.kind.BodyThrow?
    ensures Payload(ev) <==> Plain(ev, BodyThrow, 0, 0) && Silent(ev)
  {
  }

  /** What the innermost invocation has: events of one entry, the last not closing, leading to its frame. */
  ghost predicate OwnFed(lane: Lane, id: nat, f: Frame, seen: seq<Event>) {
    Fed(lane, f, seen) && !Ends(seen[|seen|-1].kind) && forall i :: 0 <= i < |seen| ==> seen[i].index + 1 == id
  }

  lemma {:induction false} RunningMeans(lane: Lane, d: Window, seen: seq<Event>)
    ensures N.Running(Decoder(lane, d), seen) <==> seen != [] && !Ends(seen[|seen|-1].kind)
  {
  }

  lemma {:induction false} TopOwnFed(lane: Lane, d: Window, events: seq<Event>)
    requires N.Run(Decoder(lane, d), START, events).Some?
    ensures var t := N.Run(Decoder(lane, d), START, events).value;
            t.stack != [] ==> var top := t.stack[|t.stack|-1]; OwnFed(lane, top.id, top.frame, top.events)
  {
    var m, p := Decoder(lane, d), (f: Frame, seen: seq<Event>) => Fed(lane, f, seen);
    var t := N.Run(m, START, events).value;
    hide N.Run, Decoder, N.Inductive, Fed, N.Own, Ends, N.Running, N.Apart;
    FedInductive(lane, d);
    N.HoldsEverywhere(m, START, events, p);
    N.OwnHistories(m, START, events);
    if t.stack != [] {
      var k := |t.stack| - 1;
      OwnIndexes(lane, d, events, t.stack[k].id);
      RunningMeans(lane, d, t.stack[k].events);
      assert p(t.stack[k].frame, t.stack[k].events);
      assert t.stack[k].events == N.Own(m, events, t.stack[k].id);
    }
  }

  lemma {:induction false} TopIsFed(lane: Lane, id: nat, f: Frame, seen: seq<Event>)
    requires OwnFed(lane, id, f, seen) && 0 < id <= |lane.entries|
    ensures NoEnd(seen[1..])
    ensures Feed(NewFrame(f.index, f.parent), seen[1..], lane.entries[id - 1]) == Some(f)
  {
    hide Feed, FeedIn, Ends;
    FeedInOwn(lane, NewFrame(f.index, f.parent), seen[1..], id - 1);
  }

  lemma {:induction false} RunSnocIs(lane: Lane, d: Window, events: seq<Event>, ev: Event)
    requires N.Run(Decoder(lane, d), START, events).Some?
    ensures N.Run(Decoder(lane, d), START, events + [ev]) ==
            N.Step(Decoder(lane, d), |events|, N.Run(Decoder(lane, d), START, events).value, ev)
  {
    assert (events + [ev])[..|events|] == events;
  }

  lemma {:induction false} OwnContinues(lane: Lane, id: nat, f: Frame, seen: seq<Event>, ev: Event)
    requires OwnFed(lane, id, f, seen) && 0 < id <= |lane.entries|
    ensures seen != [] && (Step(f, ev, lane.entries[id - 1]).Some? <==> Continues(seen[1..], ev, lane.entries[id - 1]))
  {
    assert seen != [];
    hide Feed, FeedIn, NoEnd, Step, Continues, Ends;
    TopIsFed(lane, id, f, seen);
    ContinuesExactly(f, seen[1..], ev, lane.entries[id - 1]);
  }

  lemma {:induction false} StepTakes(lane: Lane, d: Window, n: nat, t: N.Trace<LaneState, Frame, Event>, ev: Event)
    requires !ev.kind.Admission? && ev.index < |lane.entries|
    ensures N.Step(Decoder(lane, d), n, t, ev).Some? <==>
            LaneCheck(lane, d, t.lane, ev).Some? && t.stack != [] && t.stack[|t.stack|-1].id == ev.index + 1 &&
            Step(t.stack[|t.stack|-1].frame, ev, lane.entries[ev.index]).Some?
  {
    hide LaneCheck, Step, Open;
  }

  /** NEXT EVENT. A replayed lane takes one more event of an open body exactly when the lane's own
      checks pass, the body is the innermost one, and its own events with this one are the text of a
      body with its entry, begin one, or end it by a throw. */
  lemma {:induction false} NextAccepted(lane: Lane, d: Window, events: seq<Event>, ev: Event)
    requires N.Run(Decoder(lane, d), START, events).Some? && !ev.kind.Admission? && ev.index < |lane.entries|
    ensures var t := N.Run(Decoder(lane, d), START, events).value;
            N.Run(Decoder(lane, d), START, events + [ev]).Some? <==>
            LaneCheck(lane, d, t.lane, ev).Some? && t.stack != [] && t.stack[|t.stack|-1].id == ev.index + 1 &&
            t.stack[|t.stack|-1].events != [] &&
            Continues(t.stack[|t.stack|-1].events[1..], ev, lane.entries[ev.index])
  {
    hide *;
    var t := N.Run(Decoder(lane, d), START, events).value;
    TopOwnFed(lane, d, events);
    RunSnocIs(lane, d, events, ev);
    StepTakes(lane, d, |events|, t, ev);
    if t.stack != [] && t.stack[|t.stack|-1].id == ev.index + 1 {
      var top := t.stack[|t.stack|-1];
      OwnContinues(lane, top.id, top.frame, top.events, ev);
    }
  }

  ghost predicate FromAdmission(f: Frame, seen: seq<Event>) { seen != [] && seen[0].kind.Admission? }

  lemma {:induction false} OpensFirst(lane: Lane, d: Window)
    ensures N.Inductive(Decoder(lane, d), FromAdmission)
  {
    hide StepIn, LaneCheck, Open;
  }

  lemma {:induction false} FedReturns(lane: Lane, f: Frame, seen: seq<Event>, index: nat)
    requires Fed(lane, f, seen) && seen[|seen|-1].kind.BodyReturn? && seen[0].kind.Admission?
    requires index < |lane.entries| && forall i :: 0 <= i < |seen| ==> seen[i].index == index
    ensures TargetText(seen[1..], lane.entries[index])
  {
    var start, h, ev := NewFrame(f.index, f.parent), seen[1..|seen|-1], seen[|seen|-1];
    assert seen[1..] == h + [ev] && seen[1..][..|seen|-2] == h;
    assert NoEnd(h);
    hide Step, TargetText;
    FeedInOwn(lane, start, h, index);
    FinishesAfter(start, h, [ev], lane.entries[index]);
    TargetExactly(f.index, f.parent, h + [ev], lane.entries[index]);
  }

  lemma {:induction false} CheckNeedsEntry(lane: Lane, d: Window, l: LaneState, ev: Event)
    ensures Decoder(lane, d).lane(l, ev).Some? ==> ev.index < |lane.entries|
  {
    hide Clock, Admits;
  }

  lemma {:induction false} StepNeedsEntry(lane: Lane, d: Window, events: seq<Event>)
    requires N.Run(Decoder(lane, d), START, events).Some?
    ensures forall i :: 0 <= i < |events| ==> events[i].index < |lane.entries|
  {
    if events != [] {
      hide *;
      var m, front, ev := Decoder(lane, d), events[..|events|-1], events[|events|-1];
      N.RunSnoc(m, START, events);
      StepNeedsEntry(lane, d, front);
      var t := N.Run(m, START, front).value;
      N.StepMoves(m, |events| - 1, t, ev);
      CheckNeedsEntry(lane, d, t.lane, ev);
      assert events == front + [ev];
    }
  }

  /** TEXTS. Every normally returned body of a replayed lane had, after its admission, exactly the text
      of a target body with the operands of its own entry. */
  lemma {:induction false} NormalRowIsText(lane: Lane, d: Window, i: nat)
    requires Replayed(lane, d).Some? && i < |Replayed(lane, d).value.completed|
    requires Replayed(lane, d).value.completed[i].normal
    ensures var row := Replayed(lane, d).value.completed[i];
            row.events != [] && row.events[0].kind.Admission? && 0 < row.id <= |lane.entries| &&
            TargetText(row.events[1..], lane.entries[row.id - 1])
  {
    var m, p := Decoder(lane, d), (f: Frame, seen: seq<Event>) => Fed(lane, f, seen);
    var row := Replayed(lane, d).value.completed[i];
    FedInductive(lane, d);
    N.HoldsEverywhere(m, START, lane.events, p);
    N.NestsLifo(m, START, lane.events);
    N.OwnHistories(m, START, lane.events);
    OpensFirst(lane, d);
    N.HoldsEverywhere(m, START, lane.events, FromAdmission);
    OwnIndexes(lane, d, lane.events, row.id);
    StepNeedsEntry(lane, d, lane.events);
    hide N.Run, LaneCheck, StepIn, N.Inductive, FeedIn, TargetText, N.Own;
    assert p(row.frame, row.events) && N.Bracketed(m, lane.events, row) && FromAdmission(row.frame, row.events);
    assert row.events == N.Own(m, lane.events, row.id);
    assert row.events[0] == lane.events[row.first];
    FedReturns(lane, row.frame, row.events, row.id - 1);
  }
}
