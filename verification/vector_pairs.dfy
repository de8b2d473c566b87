/** The join's pairing of vector calls with their returns, inside every completed work body. */
module VectorPairs {
  import opened Options
  import opened WorkEmission
  import opened WorkMeaning
  import opened WorkReplay
  import N = NestedReplay

  // ---------------------------------------------------------------- one scan of one body

  /** Positions in the scanned events: the open vector call, and the pairs found. */
  datatype Scan = Scan(active: Option<nat>, pairs: seq<(nat, nat)>)

  function ScanStep(s: Scan, n: nat, kind: Kind): Option<Scan> {
    match kind
    case VectorCall => if s.active.Some? then None else Some(s.(active := Some(n)))
    case VectorReturn => if s.active.None? then None else Some(Scan(None, s.pairs + [(s.active.value, n)]))
    case VectorThrow => if s.active.None? then None else Some(s.(active := None))
    case _ => Some(s)
  }

  function ScanRun(seen: seq<Event>): Option<Scan> {
    if seen == [] then Some(Scan(None, []))
    else
      var s := ScanRun(seen[..|seen|-1]);
      if s.None? then None else ScanStep(s.value, |seen| - 1, seen[|seen|-1].kind)
  }

  function Returns(seen: seq<Event>): nat {
    if seen == [] then 0
    else Returns(seen[..|seen|-1]) + if seen[|seen|-1].kind.VectorReturn? then 1 else 0
  }

  lemma {:induction false} ScanSnoc(seen: seq<Event>, ev: Event)
    ensures ScanRun(seen + [ev]) ==
            if ScanRun(seen).None? then None else ScanStep(ScanRun(seen).value, |seen|, ev.kind)
    ensures Returns(seen + [ev]) == Returns(seen) + if ev.kind.VectorReturn? then 1 else 0
  {
    assert (seen + [ev])[..|seen|] == seen;
  }

  lemma {:induction false} ScanFails(seen: seq<Event>, i: nat)
    requires i <= |seen| && ScanRun(seen[..i]).None?
    ensures ScanRun(seen).None?
  {
    if i == |seen| {
      assert seen[..i] == seen;
    } else {
      assert seen[..|seen|-1][..i] == seen[..i];
      ScanFails(seen[..|seen|-1], i);
    }
  }

  /** A vector call with the k-th ordinal, and the return that answers it. */
  ghost predicate PairAt(seen: seq<Event>, v: seq<nat>, k: nat, p: (nat, nat)) {
    p.0 < p.1 < |seen| && k < |v| && seen[p.0].kind.VectorCall? && seen[p.0].fields[1] == v[k] &&
    seen[p.1].kind.VectorReturn?
  }

  ghost predicate Pairs(seen: seq<Event>, v: seq<nat>, pairs: seq<(nat, nat)>) {
    && (forall k :: 0 <= k < |pairs| ==> PairAt(seen, v, k, pairs[k]))
    && (forall k, l :: 0 <= k < l < |pairs| ==> pairs[k].1 < pairs[l].0)
  }

  /** The open call comes after every pair and carries the next ordinal. */
  ghost predicate OpenCall(seen: seq<Event>, v: seq<nat>, s: Scan) {
    s.active.Some? ==>
      s.active.value < |seen| && |s.pairs| < |v| && seen[s.active.value].kind.VectorCall? &&
      seen[s.active.value].fields[1] == v[|s.pairs|] &&
      forall k :: 0 <= k < |s.pairs| ==> s.pairs[k].1 < s.active.value
  }

  /** The scan never fails, is open exactly while the frame's call is, and has one pair a return. */
  ghost predicate Paired(f: Frame, seen: seq<Event>) {
    ScanRun(seen).Some? &&
    var s, v := ScanRun(seen).value, Calls(seen, VectorCall);
    && (s.active.Some? <==> f.stage.VectorActive?)
    && |s.pairs| == Returns(seen) && Pairs(seen, v, s.pairs) && OpenCall(seen, v, s)
    && (!f.stage.Thrown? ==> |v| == |s.pairs| + if s.active.Some? then 1 else 0)
  }

  lemma {:induction false} VectorMoves(f: Frame, ev: Event)
    requires Step(f, ev).Some?
    ensures var g := Step(f, ev).value;
            match ev.kind
            case VectorCall => f.stage.VectorReady? && g.stage.VectorActive?
            case VectorReturn => f.stage.VectorActive? && (g.stage.VectorReady? || g.stage.Done?)
            case VectorThrow => f.stage.VectorActive? && g.stage.Thrown?
            case _ => (f.stage.VectorActive? <==> g.stage.VectorActive?) && (f.stage.Thrown? ==> g.stage.Thrown?)
  {
    hide Payload;
    match PartOf(ev.kind)
    case ToGates => hide ScalarStep, JobStep, VectorStep;
    case ToScalars => hide GateStep, JobStep, VectorStep;
    case ToJobs => hide GateStep, ScalarStep, VectorStep;
    case ToVectors => hide GateStep, ScalarStep, JobStep;
    case _ => hide GateStep, ScalarStep, JobStep, VectorStep;
  }

  lemma {:induction false} PairsGrow(seen: seq<Event>, ev: Event, v: seq<nat>, more: seq<nat>, pairs: seq<(nat, nat)>)
    requires Pairs(seen, v, pairs)
    ensures Pairs(seen + [ev], v + more, pairs)
  {
  }

  lemma {:induction false} PairCloses(seen: seq<Event>, ev: Event, v: seq<nat>, s: Scan)
    requires Pairs(seen, v, s.pairs) && OpenCall(seen, v, s) && s.active.Some? && ev.kind.VectorReturn?
    ensures Pairs(seen + [ev], v, s.pairs + [(s.active.value, |seen|)])
  {
    PairsGrow(seen, ev, v, [], s.pairs);
    assert v + [] == v;
    assert PairAt(seen + [ev], v, |s.pairs|, (s.active.value, |seen|));
  }

  lemma {:induction false} PairOpens(seen: seq<Event>, ev: Event, v: seq<nat>, s: Scan)
    requires Pairs(seen, v, s.pairs) && |v| == |s.pairs| && ev.kind.VectorCall?
    ensures OpenCall(seen + [ev], v + [ev.fields[1]], s.(active := Some(|seen|)))
  {
    forall k | 0 <= k < |s.pairs| ensures s.pairs[k].1 < |seen| {
      assert PairAt(seen, v, k, s.pairs[k]);
    }
  }

  lemma {:induction false} OpenGrows(seen: seq<Event>, ev: Event, v: seq<nat>, s: Scan)
    requires OpenCall(seen, v, s)
    ensures OpenCall(seen + [ev], v, s)
  {
  }

  lemma {:induction false} PairedKept(f: Frame, seen: seq<Event>, ev: Event)
    requires Paired(f, seen) && Step(f, ev).Some?
    ensures Paired(Step(f, ev).value, seen + [ev])
  {
    VectorMoves(f, ev);
    ScanSnoc(seen, ev);
    CallsSnoc(seen, ev, VectorCall);
    var s, v := ScanRun(seen).value, Calls(seen, VectorCall);
    hide Step, ScanRun, Calls, Returns, Pairs, OpenCall;
    var more := if ev.kind.VectorCall? then [ev.fields[1]] else [];
    PairsGrow(seen, ev, v, more, s.pairs);
    assert v + [] == v;
    match ev.kind
    case VectorCall => PairOpens(seen, ev, v, s);
    case VectorReturn => PairCloses(seen, ev, v, s); NoOpenCall(seen + [ev], v, Scan(None, s.pairs + [(s.active.value, |seen|)]));
    case VectorThrow => NoOpenCall(seen + [ev], v, s.(active := None));
    case _ => OpenGrows(seen, ev, v, s);
  }

  lemma {:induction false} NoOpenCall(seen: seq<Event>, v: seq<nat>, s: Scan)
    requires s.active.None?
    ensures OpenCall(seen, v, s)
  {
  }

  lemma {:induction false} PairedBegins(index: nat, parent: Id, ev: Event)
    requires ev.kind.Admission?
    ensures Paired(NewFrame(index, parent), [ev])
  {
    NoCalls(ev);
    assert [ev][..0] == [];
    assert ScanRun([]) == Some(Scan(None, []));
  }

  lemma {:induction false} PairedInductive(lane: Lane, d: Window)
    ensures N.Inductive(Decoder(lane, d), Paired)
  {
    var m := Decoder(lane, d);
    forall l, f, ev: Event | m.phase(ev).Opens? && N.OpensTo(m, l, ev, f) ensures Paired(f, [ev]) {
      var top :| m.open(l, top, ev) == Some(f);
      PairedBegins(f.index, f.parent, ev);
    }
    hide Paired, Step;
    forall f: Frame, seen: seq<Event>, ev: Event |
      Paired(f, seen) && N.Running(m, seen) && !m.phase(ev).Opens? && m.step(f, ev).Some?
      ensures Paired(m.step(f, ev).value, seen + [ev])
    {
      PairedKept(f, seen, ev);
    }
  }

  /** ONE PAIR PER RETURN. Over any completed body of an accepted lane neither pairing check can
      fail and there is one pair for each vector return; when the body returned normally these are
      all of its vector calls, and the k-th has ordinal count-1-k. */
  lemma {:induction false} BodyPairs(lane: Lane, d: Window, claimed: Claimed, i: nat)
    requires Replayed(lane, d, claimed).Some? && i < |Replayed(lane, d, claimed).value.completed|
    ensures var row := Replayed(lane, d, claimed).value.completed[i];
            ScanRun(row.events).Some? &&
            var pairs := ScanRun(row.events).value.pairs;
            |pairs| == Returns(row.events) && Pairs(row.events, Calls(row.events, VectorCall), pairs) &&
            (row.normal ==> |pairs| == |Calls(row.events, VectorCall)| == row.frame.vector.count &&
                            forall k :: 0 <= k < |pairs| ==>
                              row.events[pairs[k].0].fields[1] == row.frame.vector.count - 1 - k)
  {
    var m, t := Decoder(lane, d), Replayed(lane, d, claimed).value;
    var row := t.completed[i];
    PairedInductive(lane, d);
    N.HoldsEverywhere(m, Start(claimed), lane.events, Paired);
    assert Paired(row.frame, row.events);
    if row.normal {
      NormalReturns(lane, d, claimed, i);
      hide N.Run, Step, ScanRun, Calls, Returns, Decoder, LaneCheck;
      forall k | 0 <= k < |ScanRun(row.events).value.pairs|
        ensures row.events[ScanRun(row.events).value.pairs[k].0].fields[1] == row.frame.vector.count - 1 - k
      {
        assert PairAt(row.events, Calls(row.events, VectorCall), k, ScanRun(row.events).value.pairs[k]);
      }
    }
  }

  lemma {:induction false} NormalReturns(lane: Lane, d: Window, claimed: Claimed, i: nat)
    requires Replayed(lane, d, claimed).Some? && i < |Replayed(lane, d, claimed).value.completed|
    requires Replayed(lane, d, claimed).value.completed[i].normal
    ensures var row := Replayed(lane, d, claimed).value.completed[i];
            var v := Calls(row.events, VectorCall);
            row.frame.stage.Done? && |v| == row.frame.vector.count &&
            forall k :: 0 <= k < |v| ==> v[k] == row.frame.vector.count - 1 - k
  {
    RowMeaning(lane, d, claimed, i);
    hide Replayed, Mode, ScalarProgress, JobProgress, Calls, Bounds;
  }

  // ------------------------------------------------------- events by invocation, per lane

  /** The lane's events of one invocation, with their positions in the lane. */
  function Positioned(events: seq<Event>, own: Id): seq<(nat, Event)> {
    if events == [] then []
    else
      var rest := Positioned(events[..|events|-1], own);
      if events[|events|-1].invocation == own then rest + [(|events| - 1, events[|events|-1])] else rest
  }

  function Seconds(group: seq<(nat, Event)>): seq<Event> {
    if group == [] then [] else Seconds(group[..|group|-1]) + [group[|group|-1].1]
  }

  lemma {:induction false} SecondsSnoc(group: seq<(nat, Event)>, x: (nat, Event))
    ensures Seconds(group + [x]) == Seconds(group) + [x.1]
  {
    assert (group + [x])[..|group|] == group;
  }

  lemma {:induction false} SecondsAt(group: seq<(nat, Event)>, i: nat)
    requires i < |group|
    ensures |Seconds(group)| == |group| && Seconds(group)[i] == group[i].1
  {
    if i < |group| - 1 { SecondsAt(group[..|group|-1], i); } else if |group| > 1 { SecondsAt(group[..|group|-1], 0); }
  }

  /** Every group over all lanes. */
  function Grouped(lanes: seq<Lane>, own: Id): seq<(nat, Event)> {
    if lanes == [] then [] else Grouped(lanes[..|lanes|-1], own) + Positioned(lanes[|lanes|-1].events, own)
  }

  type Groups = map<Id, seq<(nat, Event)>>

  function GroupIn(raw: Groups, own: Id): seq<(nat, Event)> { if own in raw then raw[own] else [] }

  /** The groups hold the earlier lanes and the first k events of the next one. */
  ghost predicate Holds(raw: Groups, earlier: seq<Lane>, events: seq<Event>) {
    forall own :: GroupIn(raw, own) == Grouped(earlier, own) + Positioned(events, own)
  }

  lemma {:induction false} PositionedSnoc(events: seq<Event>, k: nat, own: Id)
    requires k < |events|
    ensures Positioned(events[..k+1], own) ==
            Positioned(events[..k], own) + if events[k].invocation == own then [(k, events[k])] else []
  {
    assert events[..k+1][..k] == events[..k];
  }

  lemma {:induction false} HoldsOne(raw: Groups, earlier: seq<Lane>, events: seq<Event>, k: nat, own: Id)
    requires k < |events| && GroupIn(raw, own) == Grouped(earlier, own) + Positioned(events[..k], own)
    ensures var named := events[k].invocation;
            GroupIn(raw[named := GroupIn(raw, named) + [(k, events[k])]], own) ==
            Grouped(earlier, own) + Positioned(events[..k+1], own)
  {
    PositionedSnoc(events, k, own);
    hide Grouped, Positioned;
  }

  lemma {:induction false} HoldsNext(raw: Groups, earlier: seq<Lane>, events: seq<Event>, k: nat)
    requires k < |events| && Holds(raw, earlier, events[..k])
    ensures var own := events[k].invocation;
            Holds(raw[own := GroupIn(raw, own) + [(k, events[k])]], earlier, events[..k+1])
  {
    hide Grouped, Positioned, GroupIn;
    var named := events[k].invocation;
    var next := raw[named := GroupIn(raw, named) + [(k, events[k])]];
    forall own ensures GroupIn(next, own) == Grouped(earlier, own) + Positioned(events[..k+1], own) {
      HoldsOne(raw, earlier, events, k, own);
    }
  }

  lemma {:induction false} HoldsLane(raw: Groups, lanes: seq<Lane>, i: nat)
    requires i < |lanes|
    ensures Holds(raw, lanes[..i], lanes[i].events) ==> Holds(raw, lanes[..i+1], [])
    ensures Holds(raw, lanes[..i], []) ==> forall own :: GroupIn(raw, own) == Grouped(lanes[..i], own)
  {
    hide GroupIn;
    assert lanes[..i+1][..i] == lanes[..i];
    assert forall own :: Positioned([], own) == [];
  }

  /** The raw groups as the join builds them, one event at a time. */
  method GroupEvents(lanes: seq<Lane>) returns (raw: Groups)
    ensures forall own :: GroupIn(raw, own) == Grouped(lanes, own)
  {
    raw := map[];
    for i := 0 to |lanes|
      invariant Holds(raw, lanes[..i], [])
    {
      var events := lanes[i].events;
      hide Grouped, Positioned, Holds, GroupIn;
      for k := 0 to |events|
        invariant Holds(raw, lanes[..i], events[..k])
      {
        var own := events[k].invocation;
        HoldsNext(raw, lanes[..i], events, k);
        raw := raw[own := GroupIn(raw, own) + [(k, events[k])]];
      }
      assert events[..|events|] == events;
      HoldsLane(raw, lanes, i);
    }
    assert lanes[..|lanes|] == lanes;
    assert forall own :: Positioned([], own) == [];
    hide Grouped, Positioned, GroupIn;
  }

  /** Admitted entries have strictly increasing own serials and every event names one of them. */
  ghost predicate Known(lane: Lane, events: seq<Event>, t: N.Trace<LaneState, Frame, Event>) {
    && t.lastId == t.lane.entered <= |lane.entries|
    && (forall i :: 0 <= i < |events| ==> NamesEntry(lane, t.lane.entered, events[i]))
    && (forall i :: 0 <= i < t.lane.entered ==>
          lane.entries[i].own.epoch == lane.epoch && lane.entries[i].own.serial <= t.lane.own)
    && (forall i, k :: 0 <= i < k < t.lane.entered ==> lane.entries[i].own.serial < lane.entries[k].own.serial)
  }

  predicate NamesEntry(lane: Lane, entered: nat, ev: Event) {
    ev.index < entered <= |lane.entries| && ev.invocation == lane.entries[ev.index].own
  }

  lemma {:induction false} LaneAdvances(lane: Lane, d: Window, l: LaneState, ev: Event)
    requires LaneCheck(lane, d, l, ev).Some?
    ensures var next := LaneCheck(lane, d, l, ev).value;
            ev.index < |lane.entries| && ev.invocation == lane.entries[ev.index].own &&
            lane.entries[ev.index].own.epoch == lane.epoch &&
            if ev.kind.Admission? then
              ev.index == l.entered && next.entered == l.entered + 1 &&
              l.own < next.own && next.own == lane.entries[ev.index].own.serial
            else next.entered == l.entered && next.own == l.own
  {
  }

  lemma {:induction false} KnownNext(lane: Lane, d: Window, events: seq<Event>, t: N.Trace<LaneState, Frame, Event>,
      next: N.Trace<LaneState, Frame, Event>)
    requires events != [] && Known(lane, events[..|events|-1], t) && N.Apart(t)
    requires N.Moves(Decoder(lane, d), |events| - 1, t, events[|events|-1], next)
    requires LaneCheck(lane, d, t.lane, events[|events|-1]) == Some(next.lane)
    ensures Known(lane, events, next)
  {
    var front, ev := events[..|events|-1], events[|events|-1];
    LaneAdvances(lane, d, t.lane, ev);
    hide LaneCheck;
    assert ev.index < next.lane.entered;
    hide N.Moves, N.Apart;
    forall i | 0 <= i < |events| ensures NamesEntry(lane, next.lane.entered, events[i]) {
      if i < |front| { assert NamesEntry(lane, t.lane.entered, front[i]); }
    }
  }

  lemma {:induction false} KnownHolds(lane: Lane, d: Window, claimed: Claimed, events: seq<Event>)
    requires N.Run(Decoder(lane, d), Start(claimed), events).Some?
    ensures Known(lane, events, N.Run(Decoder(lane, d), Start(claimed), events).value)
  {
    if events == [] {
    } else {
      var m, front := Decoder(lane, d), events[..|events|-1];
      N.RunSnoc(m, Start(claimed), events);
      N.OwnHistories(m, Start(claimed), front);
      N.StepMoves(m, |events| - 1, N.Run(m, Start(claimed), front).value, events[|events|-1]);
      KnownHolds(lane, d, claimed, front);
      hide N.Run, N.Step, N.Moves, N.Apart, N.Told, Known, LaneCheck;
      KnownNext(lane, d, events, N.Run(m, Start(claimed), front).value, N.Run(m, Start(claimed), events).value);
    }
  }

  ghost predicate Rising(group: seq<(nat, Event)>, limit: nat) {
    && (forall i, k :: 0 <= i < k < |group| ==> group[i].0 < group[k].0)
    && (forall i :: 0 <= i < |group| ==> group[i].0 < limit)
  }

  lemma {:induction false} RisingNext(group: seq<(nat, Event)>, limit: nat, ev: Event)
    requires Rising(group, limit)
    ensures Rising(group, limit + 1) && Rising(group + [(limit, ev)], limit + 1)
  {
  }

  lemma {:induction false} PositionedStep(m: N.Machine<LaneState, Frame, Event>, events: seq<Event>, own: Id, id: nat)
    requires events != [] && (events[|events|-1].invocation == own <==> m.id(events[|events|-1]) == id)
    requires Seconds(Positioned(events[..|events|-1], own)) == N.Own(m, events[..|events|-1], id)
    requires Rising(Positioned(events[..|events|-1], own), |events| - 1)
    ensures Seconds(Positioned(events, own)) == N.Own(m, events, id)
    ensures Rising(Positioned(events, own), |events|)
  {
    var front := events[..|events|-1];
    SecondsSnoc(Positioned(front, own), (|front|, events[|front|]));
    RisingNext(Positioned(front, own), |front|, events[|front|]);
    hide Seconds, Rising;
  }

  lemma {:induction false} PositionedOwn(m: N.Machine<LaneState, Frame, Event>, events: seq<Event>, own: Id, id: nat)
    requires forall i :: 0 <= i < |events| ==> (events[i].invocation == own <==> m.id(events[i]) == id)
    ensures Seconds(Positioned(events, own)) == N.Own(m, events, id)
    ensures Rising(Positioned(events, own), |events|)
  {
    if events == [] {
    } else {
      hide *;
      var front := events[..|events|-1];
      assert forall i :: 0 <= i < |front| ==> front[i] == events[i];
      PositionedOwn(m, front, own, id);
      PositionedStep(m, events, own, id);
    }
  }

  /** A row's own identity, from its immutable entry. */
  function OwnId(lane: Lane, row: WorkRow): Id {
    if 1 <= row.id <= |lane.entries| then lane.entries[row.id-1].own else NO_ID
  }

  /** A completed body is exactly the lane's group of its invocation. */
  lemma {:induction false} RowIsGroup(lane: Lane, d: Window, claimed: Claimed, i: nat)
    requires Replayed(lane, d, claimed).Some? && i < |Replayed(lane, d, claimed).value.completed|
    ensures var row := Replayed(lane, d, claimed).value.completed[i];
            1 <= row.id <= |lane.entries| && OwnId(lane, row).epoch == lane.epoch &&
            Seconds(Positioned(lane.events, OwnId(lane, row))) == row.events &&
            Rising(Positioned(lane.events, OwnId(lane, row)), |lane.events|)
  {
    var m, t := Decoder(lane, d), Replayed(lane, d, claimed).value;
    var row := t.completed[i];
    KnownHolds(lane, d, claimed, lane.events);
    N.OwnHistories(m, Start(claimed), lane.events);
    hide N.Run, LaneCheck, N.Own, Positioned, Seconds, Rising, Open, Step;
    forall n | 0 <= n < |lane.events|
      ensures lane.events[n].invocation == OwnId(lane, row) <==> m.id(lane.events[n]) == row.id
    {
      assert NamesEntry(lane, t.lane.entered, lane.events[n]);
    }
    PositionedOwn(m, lane.events, OwnId(lane, row), row.id);
  }

  /** Two completed bodies of a lane never share an identity. */
  lemma {:induction false} RowsDiffer(lane: Lane, d: Window, claimed: Claimed, i: nat, k: nat)
    requires Replayed(lane, d, claimed).Some? && i < k < |Replayed(lane, d, claimed).value.completed|
    ensures var rows := Replayed(lane, d, claimed).value.completed; OwnId(lane, rows[i]) != OwnId(lane, rows[k])
  {
    KnownHolds(lane, d, claimed, lane.events);
    N.OwnHistories(Decoder(lane, d), Start(claimed), lane.events);
    hide N.Run, LaneCheck, N.Told, Decoder;
    var t := Replayed(lane, d, claimed).value;
    var a, b := t.completed[i].id, t.completed[k].id;
    assert a != b;
  }

  // ----------------------------------------------------------------- the whole inventory

  /** A completed body as the join sees it. */
  datatype Finished = Finished(own: Id, row: WorkRow)
  datatype Inventory = Inventory(rows: seq<Finished>, claimed: Claimed)

  function FinishedRows(lane: Lane, rows: seq<WorkRow>): seq<Finished> {
    seq(|rows|, i requires 0 <= i < |rows| => Finished(OwnId(lane, rows[i]), rows[i]))
  }

  /** The decoder over every lane; parent identities are claimed across all of them. */
  function Decoded(lanes: seq<Lane>, d: Window): Option<Inventory> {
    if lanes == [] then Some(Inventory([], Claimed({}, {}, {})))
    else
      var lane, before := lanes[|lanes|-1], Decoded(lanes[..|lanes|-1], d);
      if before.None? || lane.epoch != |lanes| || !Accepted(lane, d, before.value.claimed) then None
      else
        var t := Replayed(lane, d, before.value.claimed).value;
        Some(Inventory(before.value.rows + FinishedRows(lane, t.completed), t.lane.claimed))
  }

  ghost predicate Ascending(group: seq<(nat, Event)>) {
    forall i, k :: 0 <= i < k < |group| ==> group[i].0 < group[k].0
  }

  /** A finished body of these lanes: its group is its event list, and the scan of it succeeds. */
  ghost predicate Sound(lanes: seq<Lane>, x: Finished) {
    && 1 <= x.own.epoch <= |lanes|
    && Seconds(Grouped(lanes, x.own)) == x.row.events && Ascending(Grouped(lanes, x.own))
    && ScanRun(x.row.events).Some?
  }

  ghost predicate Separate(rows: seq<Finished>) {
    forall i, k :: 0 <= i < k < |rows| ==> rows[i].own != rows[k].own
  }

  lemma {:induction false} ForeignGroup(events: seq<Event>, own: Id)
    requires forall i :: 0 <= i < |events| ==> events[i].invocation.epoch != own.epoch
    ensures Positioned(events, own) == []
  {
    if events != [] { ForeignGroup(events[..|events|-1], own); }
  }

  lemma {:induction false} EventsInLane(lane: Lane, d: Window, claimed: Claimed)
    requires Replayed(lane, d, claimed).Some?
    ensures forall i :: 0 <= i < |lane.events| ==> lane.events[i].invocation.epoch == lane.epoch
  {
    KnownHolds(lane, d, claimed, lane.events);
    hide N.Run;
    var t := Replayed(lane, d, claimed).value;
    forall i | 0 <= i < |lane.events| ensures lane.events[i].invocation.epoch == lane.epoch {
      assert NamesEntry(lane, t.lane.entered, lane.events[i]);
    }
  }

  lemma {:induction false} NoLaterGroup(lanes: seq<Lane>, d: Window, own: Id)
    requires Decoded(lanes, d).Some? && own.epoch > |lanes|
    ensures Grouped(lanes, own) == []
  {
    if lanes != [] {
      var front := lanes[..|lanes|-1];
      NoLaterGroup(front, d, own);
      EventsInLane(lanes[|lanes|-1], d, Decoded(front, d).value.claimed);
      ForeignGroup(lanes[|lanes|-1].events, own);
    }
  }

  lemma {:induction false} DecodedSnoc(lanes: seq<Lane>, d: Window)
    requires lanes != [] && Decoded(lanes, d).Some?
    ensures var lane, before := lanes[|lanes|-1], Decoded(lanes[..|lanes|-1], d);
            before.Some? && lane.epoch == |lanes| && Replayed(lane, d, before.value.claimed).Some? &&
            Decoded(lanes, d).value.rows ==
              before.value.rows + FinishedRows(lane, Replayed(lane, d, before.value.claimed).value.completed)
    ensures forall own :: Grouped(lanes, own) == Grouped(lanes[..|lanes|-1], own) + Positioned(lanes[|lanes|-1].events, own)
  {
    hide Replayed;
  }

  lemma {:induction false} SoundFrom(lanes: seq<Lane>, x: Finished, group: seq<(nat, Event)>, limit: nat)
    requires 1 <= x.own.epoch <= |lanes| && group == Grouped(lanes, x.own)
    requires Seconds(group) == x.row.events && (Ascending(group) || Rising(group, limit)) && ScanRun(x.row.events).Some?
    ensures Sound(lanes, x)
  {
    hide Grouped, Seconds, ScanRun;
  }

  lemma {:induction false} OldStaysSound(lanes: seq<Lane>, d: Window, x: Finished)
    requires lanes != [] && Decoded(lanes, d).Some? && Sound(lanes[..|lanes|-1], x)
    ensures Sound(lanes, x) && x.own.epoch < |lanes|
  {
    SoundParts(lanes[..|lanes|-1], x);
    hide *;
    DecodedSnoc(lanes, d);
    var lane, before := lanes[|lanes|-1], Decoded(lanes[..|lanes|-1], d).value;
    EventsInLane(lane, d, before.claimed);
    ForeignGroup(lane.events, x.own);
    var group := Grouped(lanes[..|lanes|-1], x.own);
    assert group + [] == group;
    SoundFrom(lanes, x, group, 0);
  }

  lemma {:induction false} NewIsSound(lanes: seq<Lane>, d: Window, i: nat)
    requires lanes != [] && Decoded(lanes, d).Some? && Decoded(lanes[..|lanes|-1], d).Some?
    requires var lane, before := lanes[|lanes|-1], Decoded(lanes[..|lanes|-1], d).value;
             Replayed(lane, d, before.claimed).Some? && i < |Replayed(lane, d, before.claimed).value.completed|
    ensures var lane, before := lanes[|lanes|-1], Decoded(lanes[..|lanes|-1], d).value;
            var row := Replayed(lane, d, before.claimed).value.completed[i];
            Sound(lanes, Finished(OwnId(lane, row), row)) && OwnId(lane, row).epoch == |lanes|
  {
    hide *;
    var lane, before := lanes[|lanes|-1], Decoded(lanes[..|lanes|-1], d).value;
    DecodedSnoc(lanes, d);
    RowIsGroup(lane, d, before.claimed, i);
    BodyPairs(lane, d, before.claimed, i);
    var row := Replayed(lane, d, before.claimed).value.completed[i];
    NoLaterGroup(lanes[..|lanes|-1], d, OwnId(lane, row));
    var group := Positioned(lane.events, OwnId(lane, row));
    assert [] + group == group;
    SoundFrom(lanes, Finished(OwnId(lane, row), row), group, |lane.events|);
  }

  lemma {:induction false} DecodedSound(lanes: seq<Lane>, d: Window)
    requires Decoded(lanes, d).Some?
    ensures forall i :: 0 <= i < |Decoded(lanes, d).value.rows| ==> Sound(lanes, Decoded(lanes, d).value.rows[i])
    ensures Separate(Decoded(lanes, d).value.rows)
  {
    if lanes == [] {
    } else {
      DecodedSnoc(lanes, d);
      var lane, before := lanes[|lanes|-1], Decoded(lanes[..|lanes|-1], d).value;
      var done := Replayed(lane, d, before.claimed).value.completed;
      hide *;
      DecodedSound(lanes[..|lanes|-1], d);
      SoundRows(lanes, d, before.rows, done);
    }
  }

  /** These rows are all sound, and belong to earlier lanes (`below`) or all to the last lane. */
  ghost predicate SoundIn(lanes: seq<Lane>, rows: seq<Finished>, below: bool) {
    forall i :: 0 <= i < |rows| ==>
      Sound(lanes, rows[i]) && (if below then rows[i].own.epoch < |lanes| else rows[i].own.epoch == |lanes|)
  }

  lemma {:induction false} OldRowsSound(lanes: seq<Lane>, d: Window, rows: seq<Finished>)
    requires lanes != [] && Decoded(lanes, d).Some?
    requires forall i :: 0 <= i < |rows| ==> Sound(lanes[..|lanes|-1], rows[i])
    ensures SoundIn(lanes, rows, true)
  {
    hide Decoded, Sound;
    forall i | 0 <= i < |rows| ensures Sound(lanes, rows[i]) && rows[i].own.epoch < |lanes| {
      OldStaysSound(lanes, d, rows[i]);
    }
  }

  lemma {:induction false} NewRowsSound(lanes: seq<Lane>, d: Window)
    requires lanes != [] && Decoded(lanes, d).Some? && Decoded(lanes[..|lanes|-1], d).Some?
    requires Replayed(lanes[|lanes|-1], d, Decoded(lanes[..|lanes|-1], d).value.claimed).Some?
    ensures var lane, before := lanes[|lanes|-1], Decoded(lanes[..|lanes|-1], d).value;
            var rows := FinishedRows(lane, Replayed(lane, d, before.claimed).value.completed);
            SoundIn(lanes, rows, false) && Separate(rows)
  {
    var lane, before := lanes[|lanes|-1], Decoded(lanes[..|lanes|-1], d).value;
    var done := Replayed(lane, d, before.claimed).value.completed;
    hide Decoded, Replayed, OwnId, Sound;
    forall i | 0 <= i < |done|
      ensures Sound(lanes, Finished(OwnId(lane, done[i]), done[i])) && OwnId(lane, done[i]).epoch == |lanes|
    {
      NewIsSound(lanes, d, i);
    }
    forall i, k | 0 <= i < k < |done| ensures OwnId(lane, done[i]) != OwnId(lane, done[k]) {
      RowsDiffer(lane, d, before.claimed, i, k);
    }
  }

  lemma {:induction false} SoundTogether(lanes: seq<Lane>, a: seq<Finished>, b: seq<Finished>)
    requires SoundIn(lanes, a, true) && SoundIn(lanes, b, false) && Separate(a) && Separate(b)
    ensures forall i :: 0 <= i < |a + b| ==> Sound(lanes, (a + b)[i])
    ensures Separate(a + b)
  {
    hide Sound;
  }

  lemma {:induction false} SoundRows(lanes: seq<Lane>, d: Window, old_: seq<Finished>, done: seq<WorkRow>)
    requires lanes != [] && Decoded(lanes, d).Some? && Decoded(lanes[..|lanes|-1], d).Some?
    requires var lane, before := lanes[|lanes|-1], Decoded(lanes[..|lanes|-1], d).value;
             old_ == before.rows && Replayed(lane, d, before.claimed).Some? &&
             done == Replayed(lane, d, before.claimed).value.completed
    requires Decoded(lanes, d).value.rows == old_ + FinishedRows(lanes[|lanes|-1], done)
    requires forall i :: 0 <= i < |old_| ==> Sound(lanes[..|lanes|-1], old_[i])
    requires Separate(old_)
    ensures forall i :: 0 <= i < |Decoded(lanes, d).value.rows| ==> Sound(lanes, Decoded(lanes, d).value.rows[i])
    ensures Separate(Decoded(lanes, d).value.rows)
  {
    hide *;
    OldRowsSound(lanes, d, old_);
    NewRowsSound(lanes, d);
    SoundTogether(lanes, old_, FinishedRows(lanes[|lanes|-1], done));
  }

  // -------------------------------------------------------------------- the pairing loop

  /** One paired call: where its pre-call event is in the original lane, and both events. */
  datatype Found = Found(position: nat, pre: Event, end: Event)

  function Locate(group: seq<(nat, Event)>, pairs: seq<(nat, nat)>): seq<Found> {
    if pairs == [] then []
    else
      var rest, p := Locate(group, pairs[..|pairs|-1]), pairs[|pairs|-1];
      if p.0 < |group| && p.1 < |group| then rest + [Found(group[p.0].0, group[p.0].1, group[p.1].1)] else rest
  }

  type PairMap = map<(Id, nat), Found>

  function Add(pairs: PairMap, own: Id, found: seq<Found>): PairMap {
    if found == [] then pairs
    else Add(pairs, own, found[..|found|-1])[(own, found[|found|-1].position) := found[|found|-1]]
  }

  lemma {:induction false} LocateSnoc(group: seq<(nat, Event)>, pairs: seq<(nat, nat)>, p: (nat, nat))
    requires p.0 < |group| && p.1 < |group|
    ensures Locate(group, pairs + [p]) == Locate(group, pairs) + [Found(group[p.0].0, group[p.0].1, group[p.1].1)]
  {
    assert (pairs + [p])[..|pairs|] == pairs;
  }

  lemma {:induction false} AddSnoc(pairs: PairMap, own: Id, found: seq<Found>, x: Found)
    ensures Add(pairs, own, found + [x]) == Add(pairs, own, found)[(own, x.position) := x]
  {
    assert (found + [x])[..|found|] == found;
  }

  lemma {:induction false} AddKeys(pairs: PairMap, own: Id, found: seq<Found>, key: (Id, nat))
    ensures key in Add(pairs, own, found) <==>
            key in pairs || (key.0 == own && exists x :: x in found && x.position == key.1)
  {
    if found != [] {
      var front, x := found[..|found|-1], found[|found|-1];
      AddKeys(pairs, own, front, key);
      assert found == front + [x];
    }
  }

  lemma {:induction false} LocatedBefore(group: seq<(nat, Event)>, pairs: seq<(nat, nat)>, limit: nat)
    requires Ascending(group) && limit < |group|
    requires forall k :: 0 <= k < |pairs| ==> pairs[k].0 < limit
    ensures forall x :: x in Locate(group, pairs) ==> x.position < group[limit].0
  {
    if pairs != [] { LocatedBefore(group, pairs[..|pairs|-1], limit); }
  }

  /** Every recorded pair lies before the open call. */
  ghost predicate InBounds(s: Scan, n: nat) {
    && (forall k :: 0 <= k < |s.pairs| ==> s.pairs[k].0 < n)
    && (s.active.Some? ==> s.active.value < n && forall k :: 0 <= k < |s.pairs| ==> s.pairs[k].0 < s.active.value)
  }

  lemma {:induction false} ScanBounds(seen: seq<Event>)
    ensures ScanRun(seen).Some? ==> InBounds(ScanRun(seen).value, |seen|)
  {
    if seen != [] { ScanBounds(seen[..|seen|-1]); }
  }

  lemma {:induction false} SecondsTake(group: seq<(nat, Event)>, i: nat)
    requires i <= |group|
    ensures |Seconds(group)| == |group| && Seconds(group[..i]) == Seconds(group)[..i]
  {
    if i == |group| {
      assert group[..i] == group;
      if group != [] { SecondsAt(group, 0); }
    } else {
      SecondsTake(group[..|group|-1], i);
      assert group[..|group|-1][..i] == group[..i];
    }
  }

  /** A returned call is a new key: its position comes after every pair recorded before it. */
  lemma {:induction false} FreshKey(pairs: PairMap, own: Id, group: seq<(nat, Event)>, s: Scan)
    requires Ascending(group) && s.active.Some? && InBounds(s, |group|)
    requires forall key :: key in pairs ==> key.0 != own
    ensures (own, group[s.active.value].0) !in Add(pairs, own, Locate(group, s.pairs))
  {
    LocatedBefore(group, s.pairs, s.active.value);
    AddKeys(pairs, own, Locate(group, s.pairs), (own, group[s.active.value].0));
    hide Add, Locate, Ascending;
  }

  /** The loop's state after the first i events of a group. */
  ghost predicate Paces(before: PairMap, own: Id, group: seq<(nat, Event)>, i: nat, s: Scan,
                        active: Option<(nat, Event)>, pairs: PairMap)
    requires i <= |group|
  {
    && ScanRun(Seconds(group[..i])) == Some(s) && InBounds(s, i)
    && pairs == Add(before, own, Locate(group, s.pairs))
    && active == (if s.active.Some? && s.active.value < |group| then Some(group[s.active.value]) else None)
  }

  /** The next scan step exists because the whole scan succeeds. */
  lemma {:induction false} ScanOn(seen: seq<Event>, i: nat)
    requires i < |seen| && ScanRun(seen).Some? && ScanRun(seen[..i]).Some?
    ensures ScanRun(seen[..i+1]) == ScanStep(ScanRun(seen[..i]).value, i, seen[i].kind)
    ensures ScanRun(seen[..i+1]).Some? && InBounds(ScanRun(seen[..i+1]).value, i + 1)
  {
    hide *;
    ScanSnoc(seen[..i], seen[i]);
    assert seen[..i] + [seen[i]] == seen[..i+1];
    if ScanRun(seen[..i+1]).None? { ScanFails(seen, i + 1); }
    ScanBounds(seen[..i+1]);
  }

  lemma {:induction false} NextScan(group: seq<(nat, Event)>, i: nat)
    requires i < |group| && ScanRun(Seconds(group)).Some? && ScanRun(Seconds(group[..i])).Some?
    ensures ScanRun(Seconds(group[..i+1])) == ScanStep(ScanRun(Seconds(group[..i])).value, i, group[i].1.kind)
    ensures ScanRun(Seconds(group[..i+1])).Some? && InBounds(ScanRun(Seconds(group[..i+1])).value, i + 1)
  {
    hide *;
    SecondsAt(group, i);
    SecondsTake(group, i);
    SecondsTake(group, i + 1);
    ScanOn(Seconds(group), i);
  }

  lemma {:induction false} PaceOn(before: PairMap, own: Id, group: seq<(nat, Event)>, i: nat, s: Scan,
               active: Option<(nat, Event)>, pairs: PairMap)
    requires i < |group| && ScanRun(Seconds(group)).Some? && Paces(before, own, group, i, s, active, pairs)
    requires Ascending(group) && forall key :: key in before ==> key.0 != own
    ensures ScanStep(s, i, group[i].1.kind).Some?
    ensures var next, ev := ScanStep(s, i, group[i].1.kind).value, group[i].1;
            match ev.kind
            case VectorCall => active.None? && Paces(before, own, group, i + 1, next, Some(group[i]), pairs)
            case VectorReturn =>
              active.Some? && (own, active.value.0) !in pairs &&
              Paces(before, own, group, i + 1, next, None,
                    pairs[(own, active.value.0) := Found(active.value.0, active.value.1, ev)])
            case VectorThrow => active.Some? && Paces(before, own, group, i + 1, next, None, pairs)
            case _ => Paces(before, own, group, i + 1, next, active, pairs)
  {
    NextScan(group, i);
    if group[i].1.kind.VectorReturn? && s.active.Some? {
      FreshKey(before, own, group, s);
      LocateSnoc(group, s.pairs, (s.active.value, i));
      AddSnoc(before, own, Locate(group, s.pairs), Found(group[s.active.value].0, group[s.active.value].1, group[i].1));
    }
    hide ScanRun, Seconds, Locate, Add, Ascending;
  }

  /** One body's events in lane order, pairing each vector call with its return. */
  method PairRow(own: Id, group: seq<(nat, Event)>, before: PairMap) returns (ok: bool, pairs: PairMap)
    requires Ascending(group) && forall key :: key in before ==> key.0 != own
    requires ScanRun(Seconds(group)).Some?
    ensures ok && pairs == Add(before, own, Locate(group, ScanRun(Seconds(group)).value.pairs))
  {
    pairs, ok := before, true;
    var active: Option<(nat, Event)> := None;
    ghost var s := Scan(None, []);
    for i := 0 to |group|
      invariant Paces(before, own, group, i, s, active, pairs)
    {
      var ev := group[i].1;
      PaceOn(before, own, group, i, s, active, pairs);
      hide Paces, ScanStep;
      if ev.kind.VectorCall? {
        if active.Some? { return false, pairs; }
        active := Some(group[i]);
      } else if ev.kind.VectorReturn? || ev.kind.VectorThrow? {
        if active.None? { return false, pairs; }
        if ev.kind.VectorReturn? {
          if (own, active.value.0) in pairs { return false, pairs; }
          pairs := pairs[(own, active.value.0) := Found(active.value.0, active.value.1, ev)];
        }
        active := None;
      }
      s := ScanStep(s, i, ev.kind).value;
    }
    assert group[..|group|] == group;
  }

  /** All pairs of the finished bodies, row by row. */
  function AllPairs(lanes: seq<Lane>, rows: seq<Finished>): PairMap {
    if rows == [] then map[]
    else
      var x := rows[|rows|-1];
      var s := ScanRun(x.row.events);
      if s.None? then map[]
      else Add(AllPairs(lanes, rows[..|rows|-1]), x.own, Locate(Grouped(lanes, x.own), s.value.pairs))
  }

  function Parents(rows: seq<Finished>): map<Id, WorkRow> {
    if rows == [] then map[] else Parents(rows[..|rows|-1])[rows[|rows|-1].own := rows[|rows|-1].row]
  }

  lemma {:induction false} ParentKeys(rows: seq<Finished>, own: Id)
    ensures own in Parents(rows) <==> exists i :: 0 <= i < |rows| && rows[i].own == own
  {
    if rows != [] {
      var front := rows[..|rows|-1];
      ParentKeys(front, own);
      assert own in Parents(rows) <==> own in Parents(front) || own == rows[|front|].own;
      if own in Parents(front) {
        var i :| 0 <= i < |front| && front[i].own == own;
        assert rows[i].own == own;
      }
    }
  }

  lemma {:induction false} PairOwners(lanes: seq<Lane>, rows: seq<Finished>, key: (Id, nat))
    requires key in AllPairs(lanes, rows)
    ensures exists i :: 0 <= i < |rows| && rows[i].own == key.0
  {
    if rows != [] {
      var front, x := rows[..|rows|-1], rows[|rows|-1];
      var s := ScanRun(x.row.events);
      AddKeys(AllPairs(lanes, front), x.own, Locate(Grouped(lanes, x.own), s.value.pairs), key);
      if key.0 != x.own {
        PairOwners(lanes, front, key);
        var i :| 0 <= i < |front| && front[i].own == key.0;
        assert rows[i].own == key.0;
      }
    }
  }

  lemma {:induction false} NextRow(lanes: seq<Lane>, rows: seq<Finished>, i: nat)
    requires i < |rows| && Separate(rows) && Sound(lanes, rows[i])
    ensures rows[i].own !in Parents(rows[..i])
    ensures forall key :: key in AllPairs(lanes, rows[..i]) ==> key.0 != rows[i].own
    ensures Parents(rows[..i+1]) == Parents(rows[..i])[rows[i].own := rows[i].row]
    ensures AllPairs(lanes, rows[..i+1]) ==
            Add(AllPairs(lanes, rows[..i]), rows[i].own, Locate(Grouped(lanes, rows[i].own), ScanRun(rows[i].row.events).value.pairs))
  {
    assert rows[..i+1][..i] == rows[..i];
    ParentKeys(rows[..i], rows[i].own);
    hide Parents, Add, Locate, Grouped, ScanRun, Seconds;
    forall key | key in AllPairs(lanes, rows[..i]) ensures key.0 != rows[i].own {
      PairOwners(lanes, rows[..i], key);
    }
  }

  /** PAIRING NEVER FAILS. Over everything the decoder accepted, none of the pairing's checks (a
      completed identity seen twice, a body differing from its lane events, a vector call inside
      another, an unopened termination, a repeated position) can fire. */
  method PairAll(lanes: seq<Lane>, d: Window, rows: seq<Finished>)
    returns (ok: bool, parents: map<Id, WorkRow>, pairs: PairMap)
    requires Decoded(lanes, d).Some? && rows == Decoded(lanes, d).value.rows
    ensures ok && parents == Parents(rows) && pairs == AllPairs(lanes, rows)
  {
    DecodedSound(lanes, d);
    hide *;
    var raw := GroupEvents(lanes);
    NoRows(lanes);
    parents, pairs, ok := map[], map[], true;
    for i := 0 to |rows|
      invariant parents == Parents(rows[..i]) && pairs == AllPairs(lanes, rows[..i])
    {
      var own, row := rows[i].own, rows[i].row;
      NextRow(lanes, rows, i);
      SoundParts(lanes, rows[i]);
      if own in parents { return false, parents, pairs; }
      parents := parents[own := row];
      var group := GroupIn(raw, own);
      if Seconds(group) != row.events { return false, parents, pairs; }
      var paired;
      paired, pairs := PairRow(own, group, pairs);
      if !paired { return false, parents, pairs; }
    }
    assert rows[..|rows|] == rows;
  }

  lemma {:induction false} NoRows(lanes: seq<Lane>)
    ensures Parents([]) == map[] && AllPairs(lanes, []) == map[]
  {
  }

  lemma {:induction false} SoundParts(lanes: seq<Lane>, x: Finished)
    requires Sound(lanes, x)
    ensures 1 <= x.own.epoch <= |lanes|
    ensures Seconds(Grouped(lanes, x.own)) == x.row.events && Ascending(Grouped(lanes, x.own))
    ensures ScanRun(x.row.events).Some?
  {
  }
}
