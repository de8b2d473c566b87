/** What a target body's frame holds, read off its events at once instead of one by one. */
module TargetFrames {
  import opened Options
  import opened VectorTarget
  import L = TargetLanguage
  import N = NestedReplay

  /** The site of the last call, returned or not. */
  function LastSite(t: seq<Event>): Site {
    if t == [] then 0 else if t[|t|-1].kind.CallPre? then t[|t|-1].site else LastSite(t[..|t|-1])
  }

  /** The counter value loaded last. */
  function LastCounter(t: seq<Event>): nat {
    if t == [] then 0 else if t[|t|-1].kind.CounterLoad? then t[|t|-1].fields[1] else LastCounter(t[..|t|-1])
  }

  /** The stage the last event leads to. */
  function StageOf(t: seq<Event>): nat {
    if t == [] then 0
    else
      var ev := t[|t|-1];
      match ev.kind
      case VectorLoad => 1
      case CallPre => 13
      case CallReturn => if ev.site < 4 then ev.site + 2 else if ev.site == 4 then 8 else if ev.site == 5 then 9 else 12
      case CallThrow => 14
      case FlagStore => 6
      case SlotGate => if ev.fields[0] == 0 then 7 else 8
      case CounterLoad => 10
      case CounterStore => if 32 < ev.fields[2] % TWO32 < 0x8000_0000 then 11 else 12
      case _ => StageOf(t[..|t|-1])
  }

  /** The frame of a body with these events after its admission. */
  function FrameOf(index: nat, parent: Id, t: seq<Event>): Frame {
    Frame(index, parent, StageOf(t), LastSite(t), LastCounter(t))
  }

  lemma {:induction false} ReadNext(f: Frame, t: seq<Event>, ev: Event, e: Entry)
    requires f == FrameOf(f.index, f.parent, t) && Step(f, ev, e).Some?
    ensures Step(f, ev, e).value == FrameOf(f.index, f.parent, t + [ev])
  {
    assert (t + [ev])[..|t|] == t;
    hide Payload, Aligned;
  }

  lemma {:induction false} FeedSnoc(lane: Lane, f: Frame, t: seq<Event>)
    requires t != [] && L.FeedIn(lane, f, t).Some?
    ensures L.FeedIn(lane, f, t[..|t|-1]).Some? && t[|t|-1].index < |lane.entries|
    ensures Step(L.FeedIn(lane, f, t[..|t|-1]).value, t[|t|-1], lane.entries[t[|t|-1].index]) == L.FeedIn(lane, f, t)
  {
    hide Step;
  }

  /** FRAMES. The frame the steps reach one by one is the one read off the whole list. */
  lemma {:induction false} FrameExactly(lane: Lane, index: nat, parent: Id, t: seq<Event>)
    requires L.FeedIn(lane, NewFrame(index, parent), t).Some?
    ensures L.FeedIn(lane, NewFrame(index, parent), t) == Some(FrameOf(index, parent, t))
  {
    if t == [] {
    } else {
      hide Step, L.FeedIn, FrameOf;
      var front, ev := t[..|t|-1], t[|t|-1];
      FeedSnoc(lane, NewFrame(index, parent), t);
      FrameExactly(lane, index, parent, front);
      NamedSo(index, parent, front);
      ReadNext(FrameOf(index, parent, front), front, ev, lane.entries[ev.index]);
      assert t == front + [ev];
    }
  }

  lemma {:induction false} NamedSo(index: nat, parent: Id, t: seq<Event>)
    ensures FrameOf(index, parent, t).index == index && FrameOf(index, parent, t).parent == parent
  {
  }

  ghost predicate Framed(f: Frame, seen: seq<Event>) { seen != [] && f == FrameOf(f.index, f.parent, seen[1..]) }

  /** ROWS. The frame recorded for an ended body, and that of one still open, is the one its own events
      say. */
  lemma {:induction false} FramesOfLane(lane: Lane, d: Window)
    requires Replayed(lane, d).Some?
    ensures var t := Replayed(lane, d).value;
            && (forall live :: live in t.stack ==> Framed(live.frame, live.events))
            && (forall row :: row in t.completed ==> Framed(row.frame, row.events))
  {
    var t, p := Replayed(lane, d).value, (f: Frame, seen: seq<Event>) => L.Fed(lane, f, seen);
    hide N.Run, Decoder, L.Fed, Framed, N.Inductive, N.Running;
    L.FedInductive(lane, d);
    N.HoldsEverywhere(Decoder(lane, d), START, lane.events, p);
    forall live | live in t.stack ensures Framed(live.frame, live.events) {
      assert p(live.frame, live.events);
      FedFramed(lane, live.frame, live.events);
    }
    forall row | row in t.completed ensures Framed(row.frame, row.events) {
      assert p(row.frame, row.events);
      FedFramed(lane, row.frame, row.events);
    }
  }

  lemma {:induction false} FedFramed(lane: Lane, f: Frame, seen: seq<Event>)
    requires L.Fed(lane, f, seen)
    ensures Framed(f, seen)
  {
    FrameExactly(lane, f.index, f.parent, seen[1..]);
    hide L.FeedIn, FrameOf;
  }
}
