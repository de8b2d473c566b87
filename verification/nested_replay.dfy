/** The replay loop the lane decoders share: nested invocations on a bounded stack, one history
    each, and what any accepted lane then satisfies. A decoder supplies its own checks. */
module NestedReplay {
  import opened Options

  datatype Phase = Opens | Inside | Closes(normal: bool)

  /** One decoder: `id` is the allocation serial of an event's invocation, `lane` its checks on
      the lane as a whole, `open` and `step` its checks on one frame. */
  datatype Machine<!L, !F, !E> = Machine(
    depth: nat,
    id: E -> nat,
    phase: E -> Phase,
    lane: (L, E) -> Option<L>,
    open: (L, Option<F>, E) -> Option<F>,
    step: (F, E) -> Option<F>)

  /** A pending invocation: where its first event is, its frame, its events so far. */
  datatype Live<F, E> = Live(id: nat, first: nat, frame: F, events: seq<E>)

  /** An ended invocation, with the positions of its first and last event. */
  datatype Row<F, E> = Row(id: nat, first: nat, last: nat, frame: F, events: seq<E>, normal: bool)

  datatype Trace<L, F, E> = Trace(lane: L, lastId: nat, stack: seq<Live<F, E>>,
                                  completed: seq<Row<F, E>>, entered: seq<nat>)

  function TopFrame<L, F, E>(t: Trace<L, F, E>): Option<F> {
    if t.stack == [] then None else Some(t.stack[|t.stack|-1].frame)
  }

  function Step<L, F, E>(m: Machine<L, F, E>, n: nat, t: Trace<L, F, E>, e: E): Option<Trace<L, F, E>> {
    var lane := m.lane(t.lane, e);
    if lane.None? then None
    else if m.phase(e).Opens? then
      var f := m.open(lane.value, TopFrame(t), e);
      if m.id(e) <= t.lastId || |t.stack| >= m.depth || f.None? then None
      else Some(Trace(lane.value, m.id(e), t.stack + [Live(m.id(e), n, f.value, [e])],
                      t.completed, t.entered + [m.id(e)]))
    else if t.stack == [] || t.stack[|t.stack|-1].id != m.id(e) then None
    else
      var top, front := t.stack[|t.stack|-1], t.stack[..|t.stack|-1];
      var f := m.step(top.frame, e);
      if f.None? then None
      else if m.phase(e).Inside? then
        Some(t.(lane := lane.value, stack := front + [top.(frame := f.value, events := top.events + [e])]))
      else
        Some(t.(lane := lane.value, stack := front,
                completed := t.completed + [Row(top.id, top.first, n, f.value, top.events + [e], m.phase(e).normal)]))
  }

  function Run<L, F, E>(m: Machine<L, F, E>, start: L, events: seq<E>): Option<Trace<L, F, E>> {
    if events == [] then Some(Trace(start, 0, [], [], []))
    else
      var t := Run(m, start, events[..|events|-1]);
      if t.None? then None else Step(m, |events| - 1, t.value, events[|events|-1])
  }

  lemma {:induction false} RunFails<L, F, E>(m: Machine<L, F, E>, start: L, events: seq<E>, i: nat)
    requires i <= |events| && Run(m, start, events[..i]).None?
    ensures Run(m, start, events).None?
  {
    if i == |events| {
      assert events[..i] == events;
    } else {
      assert events[..|events|-1][..i] == events[..i];
      RunFails(m, start, events[..|events|-1], i);
    }
  }

  /** The loop as the decoders write it. */
  method Replay<L, F, E>(m: Machine<L, F, E>, start: L, events: seq<E>) returns (r: Option<Trace<L, F, E>>)
    ensures r == Run(m, start, events)
  {
    var lane, lastId: nat := start, 0;
    var stack: seq<Live<F, E>>, completed: seq<Row<F, E>>, entered: seq<nat> := [], [], [];
    for i := 0 to |events|
      invariant Run(m, start, events[..i]) == Some(Trace(lane, lastId, stack, completed, entered))
    {
      var e := events[i];
      ghost var t := Trace(lane, lastId, stack, completed, entered);
      assert events[..i+1][..i] == events[..i];
      assert Run(m, start, events[..i+1]) == Step(m, i, t, e);
      if Step(m, i, t, e).None? { RunFails(m, start, events, i + 1); }
      var checked := m.lane(lane, e);
      if checked.None? { return None; }
      lane := checked.value;
      if m.phase(e).Opens? {
        if m.id(e) <= lastId || |stack| >= m.depth { return None; }
        var f := m.open(lane, if |stack| == 0 then None else Some(stack[|stack|-1].frame), e);
        if f.None? { return None; }
        stack := stack + [Live(m.id(e), i, f.value, [e])];
        lastId, entered := m.id(e), entered + [m.id(e)];
      } else {
        if |stack| == 0 || stack[|stack|-1].id != m.id(e) { return None; }
        var top := stack[|stack|-1];
        var f := m.step(top.frame, e);
        if f.None? { return None; }
        stack := stack[..|stack|-1];
        if m.phase(e).Inside? {
          stack := stack + [top.(frame := f.value, events := top.events + [e])];
        } else {
          completed := completed + [Row(top.id, top.first, i, f.value, top.events + [e], m.phase(e).normal)];
        }
      }
    }
    assert events[..|events|] == events;
    r := Some(Trace(lane, lastId, stack, completed, entered));
  }

  lemma {:induction false} RunSnoc<L, F, E>(m: Machine<L, F, E>, start: L, events: seq<E>)
    requires events != [] && Run(m, start, events).Some?
    ensures Run(m, start, events[..|events|-1]).Some?
    ensures Step(m, |events| - 1, Run(m, start, events[..|events|-1]).value, events[|events|-1]) == Run(m, start, events)
  {
  }

  /** The three ways an accepted event moves the invocations of a lane. */
  ghost predicate Moves<L, F, E>(m: Machine<L, F, E>, n: nat, t: Trace<L, F, E>, e: E, next: Trace<L, F, E>) {
    match m.phase(e)
    case Opens =>
      && m.id(e) > t.lastId && |t.stack| < m.depth && next.lastId == m.id(e)
      && next.entered == t.entered + [m.id(e)] && next.completed == t.completed
      && |next.stack| == |t.stack| + 1
      && next.stack == t.stack + [Live(m.id(e), n, next.stack[|t.stack|].frame, [e])]
      && m.open(next.lane, TopFrame(t), e) == Some(next.stack[|t.stack|].frame)
    case Inside =>
      && t.stack != [] && |next.stack| == |t.stack| && next.lastId == t.lastId
      && next.entered == t.entered && next.completed == t.completed
      && var k := |t.stack| - 1;
         var top := t.stack[k];
         top.id == m.id(e) && m.step(top.frame, e) == Some(next.stack[k].frame) &&
         next.stack == t.stack[..k] + [Live(top.id, top.first, next.stack[k].frame, top.events + [e])]
    case Closes(normal) =>
      && t.stack != [] && next.lastId == t.lastId && next.entered == t.entered
      && |next.completed| == |t.completed| + 1
      && var top, k := t.stack[|t.stack|-1], |t.completed|;
         top.id == m.id(e) && next.stack == t.stack[..|t.stack|-1] &&
         m.step(top.frame, e) == Some(next.completed[k].frame) &&
         next.completed ==
           t.completed + [Row(top.id, top.first, n, next.completed[k].frame, top.events + [e], normal)]
  }

  lemma {:induction false} StepMoves<L, F, E>(m: Machine<L, F, E>, n: nat, t: Trace<L, F, E>, e: E)
    requires Step(m, n, t, e).Some?
    ensures Moves(m, n, t, e, Step(m, n, t, e).value)
    ensures m.lane(t.lane, e) == Some(Step(m, n, t, e).value.lane)
  {
  }

  // ------------------------------------------------------------------- conservation

  function RowIds<F, E>(rows: seq<Row<F, E>>): seq<nat> {
    if rows == [] then [] else RowIds(rows[..|rows|-1]) + [rows[|rows|-1].id]
  }

  function LiveIds<F, E>(stack: seq<Live<F, E>>): seq<nat> {
    if stack == [] then [] else LiveIds(stack[..|stack|-1]) + [stack[|stack|-1].id]
  }

  lemma {:induction false} RowIdsSnoc<F, E>(rows: seq<Row<F, E>>, row: Row<F, E>)
    ensures RowIds(rows + [row]) == RowIds(rows) + [row.id]
  {
    assert (rows + [row])[..|rows|] == rows;
  }

  lemma {:induction false} LiveIdsSnoc<F, E>(stack: seq<Live<F, E>>, live: Live<F, E>)
    ensures LiveIds(stack + [live]) == LiveIds(stack) + [live.id]
  {
    assert (stack + [live])[..|stack|] == stack;
  }

  ghost predicate Increasing(s: seq<nat>) {
    forall i, k :: 0 <= i < k < |s| ==> s[i] < s[k]
  }

  ghost predicate Conserves<L, F, E>(t: Trace<L, F, E>) {
    && multiset(t.entered) == multiset(RowIds(t.completed)) + multiset(LiveIds(t.stack))
    && Increasing(t.entered) && (forall id :: id in t.entered ==> id <= t.lastId)
  }

  lemma {:induction false} ConservedOpen<L, F, E>(t: Trace<L, F, E>, next: Trace<L, F, E>, live: Live<F, E>)
    requires Conserves(t) && live.id > t.lastId && next.lastId == live.id
    requires next.stack == t.stack + [live] && next.completed == t.completed && next.entered == t.entered + [live.id]
    ensures Conserves(next)
  {
    LiveIdsSnoc(t.stack, live);
    hide RowIds, LiveIds;
    assert forall i :: 0 <= i < |t.entered| ==> t.entered[i] in t.entered;
  }

  lemma {:induction false} ConservedInside<L, F, E>(t: Trace<L, F, E>, next: Trace<L, F, E>, live: Live<F, E>)
    requires Conserves(t) && t.stack != [] && live.id == t.stack[|t.stack|-1].id
    requires next.stack == t.stack[..|t.stack|-1] + [live]
    requires next.completed == t.completed && next.entered == t.entered && next.lastId == t.lastId
    ensures Conserves(next)
  {
    LiveIdsSnoc(t.stack[..|t.stack|-1], live);
    hide RowIds;
  }

  lemma {:induction false} ConservedClose<L, F, E>(t: Trace<L, F, E>, next: Trace<L, F, E>, row: Row<F, E>)
    requires Conserves(t) && t.stack != [] && row.id == t.stack[|t.stack|-1].id
    requires next.stack == t.stack[..|t.stack|-1] && next.completed == t.completed + [row]
    requires next.entered == t.entered && next.lastId == t.lastId
    ensures Conserves(next)
  {
    RowIdsSnoc(t.completed, row);
    hide RowIds, Increasing;
  }

  lemma {:induction false} ConservedNext<L, F, E>(m: Machine<L, F, E>, n: nat, t: Trace<L, F, E>, e: E,
      next: Trace<L, F, E>)
    requires Conserves(t) && Moves(m, n, t, e, next)
    ensures Conserves(next)
  {
    hide Conserves, RowIds, LiveIds;
    match m.phase(e)
    case Opens => ConservedOpen(t, next, next.stack[|t.stack|]);
    case Inside => ConservedInside(t, next, next.stack[|t.stack|-1]);
    case Closes(_) => ConservedClose(t, next, next.completed[|t.completed|]);
  }

  /** CONSERVATION. Entered invocations are exactly the completed and pending ones together, each
      once, and identities are handed out in increasing order. */
  lemma {:induction false} Conserved<L, F, E>(m: Machine<L, F, E>, start: L, events: seq<E>)
    requires Run(m, start, events).Some?
    ensures var t := Run(m, start, events).value;
            multiset(t.entered) == multiset(RowIds(t.completed)) + multiset(LiveIds(t.stack)) &&
            Increasing(t.entered) && (forall id :: id in t.entered ==> id <= t.lastId)
  {
    if events == [] {
    } else {
      RunSnoc(m, start, events);
      Conserved(m, start, events[..|events|-1]);
      hide Run, Step, RowIds, LiveIds, Moves;
      var t := Run(m, start, events[..|events|-1]).value;
      StepMoves(m, |events| - 1, t, events[|events|-1]);
      ConservedNext(m, |events| - 1, t, events[|events|-1], Run(m, start, events).value);
    }
  }

  // -------------------------------------------------------------- one history each

  /** The lane's events of one invocation, in lane order. */
  function Own<L, F, E>(m: Machine<L, F, E>, events: seq<E>, id: nat): seq<E> {
    if events == [] then []
    else
      var rest := Own(m, events[..|events|-1], id);
      if m.id(events[|events|-1]) == id then rest + [events[|events|-1]] else rest
  }

  /** Pending identities increase up the stack, and no identity is used twice. */
  ghost predicate Apart<L, F, E>(t: Trace<L, F, E>) {
    && (forall i, k :: 0 <= i < k < |t.stack| ==> t.stack[i].id < t.stack[k].id)
    && (forall i :: 0 <= i < |t.stack| ==> 0 < t.stack[i].id <= t.lastId)
    && (forall i :: 0 <= i < |t.completed| ==> 0 < t.completed[i].id <= t.lastId)
    && (forall i, k :: 0 <= i < |t.completed| && 0 <= k < |t.stack| ==> t.completed[i].id != t.stack[k].id)
    && (forall i, k :: 0 <= i < k < |t.completed| ==> t.completed[i].id != t.completed[k].id)
  }

  /** What one event does to the identities: at most one comes on top, or the top one ends. */
  ghost predicate Known<L, F, E>(t: Trace<L, F, E>, next: Trace<L, F, E>) {
    && t.lastId <= next.lastId
    && (forall i :: 0 <= i < |next.stack| ==>
          if i < |t.stack| then next.stack[i].id == t.stack[i].id else t.lastId < next.stack[i].id <= next.lastId)
    && (forall i :: 0 <= i < |next.completed| ==>
          if i < |t.completed| then next.completed[i].id == t.completed[i].id
          else i == |t.completed| && |t.stack| == |next.stack| + 1 && next.completed[i].id == t.stack[|next.stack|].id)
    && (|next.stack| <= |t.stack| || (|next.stack| == |t.stack| + 1 && |next.completed| == |t.completed|))
  }

  lemma {:induction false} MovesKnown<L, F, E>(m: Machine<L, F, E>, n: nat, t: Trace<L, F, E>, e: E,
      next: Trace<L, F, E>)
    requires Moves(m, n, t, e, next)
    ensures Known(t, next)
  {
  }

  lemma {:induction false} KnownApart<L, F, E>(t: Trace<L, F, E>, next: Trace<L, F, E>)
    requires Apart(t) && Known(t, next)
    ensures Apart(next)
  {
  }

  lemma {:induction false} ApartNext<L, F, E>(m: Machine<L, F, E>, n: nat, t: Trace<L, F, E>, e: E,
      next: Trace<L, F, E>)
    requires Apart(t) && Moves(m, n, t, e, next)
    ensures Apart(next)
  {
    hide *;
    MovesKnown(m, n, t, e, next);
    KnownApart(t, next);
  }

  ghost predicate Told<L, F, E>(m: Machine<L, F, E>, events: seq<E>, t: Trace<L, F, E>) {
    && (forall i :: 0 <= i < |t.stack| ==> t.stack[i].events == Own(m, events, t.stack[i].id))
    && (forall i :: 0 <= i < |t.completed| ==> t.completed[i].events == Own(m, events, t.completed[i].id))
    && (forall id :: id > t.lastId ==> Own(m, events, id) == [])
  }

  lemma {:induction false} OwnSnoc<L, F, E>(m: Machine<L, F, E>, events: seq<E>, id: nat)
    requires events != []
    ensures Own(m, events, id) ==
            Own(m, events[..|events|-1], id) + if m.id(events[|events|-1]) == id then [events[|events|-1]] else []
  {
  }

  /** What one event does to the histories: its own invocation's gets it, and the others stay. */
  ghost predicate Gains<L, F, E>(id: nat, e: E, t: Trace<L, F, E>, next: Trace<L, F, E>) {
    && t.lastId <= next.lastId && id <= next.lastId
    && (forall i :: 0 <= i < |next.stack| ==>
          if i < |t.stack| then
            next.stack[i].id == t.stack[i].id &&
            next.stack[i].events ==
              if i == |t.stack| - 1 && t.stack[i].id == id then t.stack[i].events + [e] else t.stack[i].events
          else next.stack[i].id == id > t.lastId && next.stack[i].events == [e])
    && (id <= t.lastId ==> t.stack != [] && t.stack[|t.stack|-1].id == id)
    && (forall i :: 0 <= i < |next.completed| ==>
          if i < |t.completed| then next.completed[i] == t.completed[i]
          else t.stack != [] && next.completed[i].id == t.stack[|t.stack|-1].id == id &&
               next.completed[i].events == t.stack[|t.stack|-1].events + [e])
  }

  lemma {:induction false} MovesGain<L, F, E>(m: Machine<L, F, E>, n: nat, t: Trace<L, F, E>, e: E,
      next: Trace<L, F, E>)
    requires Apart(t) && Moves(m, n, t, e, next)
    ensures Gains(m.id(e), e, t, next)
  {
  }

  lemma {:induction false} ApartGains<L, F, E>(m: Machine<L, F, E>, front: seq<E>, events: seq<E>, e: E,
      t: Trace<L, F, E>, next: Trace<L, F, E>)
    requires forall id: nat :: Own(m, events, id) == if m.id(e) == id then Own(m, front, id) + [e] else Own(m, front, id)
    requires Apart(t) && Told(m, front, t) && Gains(m.id(e), e, t, next)
    ensures Told(m, events, next)
  {
    hide Own;
    StackGains(m, front, events, e, t, next);
    RowsGain(m, front, events, e, t, next);
    hide Apart, Gains;
  }

  lemma {:induction false} StackGains<L, F, E>(m: Machine<L, F, E>, front: seq<E>, events: seq<E>, e: E,
      t: Trace<L, F, E>, next: Trace<L, F, E>)
    requires forall id: nat :: Own(m, events, id) == if m.id(e) == id then Own(m, front, id) + [e] else Own(m, front, id)
    requires Apart(t) && Told(m, front, t) && Gains(m.id(e), e, t, next)
    ensures forall i :: 0 <= i < |next.stack| ==> next.stack[i].events == Own(m, events, next.stack[i].id)
    ensures forall id: nat :: id > next.lastId ==> Own(m, events, id) == []
  {
    hide Own;
    forall i | 0 <= i < |next.stack| ensures next.stack[i].events == Own(m, events, next.stack[i].id) {
      if i < |t.stack| {
        assert t.stack[i].events == Own(m, front, t.stack[i].id);
        if i < |t.stack| - 1 { assert t.stack[i].id < t.stack[|t.stack|-1].id; }
        assert i == |t.stack| - 1 || t.stack[i].id != m.id(e);
      } else {
        var id := next.stack[i].id;
        assert id > t.lastId && Own(m, front, id) == [];
      }
    }
  }

  lemma {:induction false} RowsGain<L, F, E>(m: Machine<L, F, E>, front: seq<E>, events: seq<E>, e: E,
      t: Trace<L, F, E>, next: Trace<L, F, E>)
    requires forall id: nat :: Own(m, events, id) == if m.id(e) == id then Own(m, front, id) + [e] else Own(m, front, id)
    requires Apart(t) && Told(m, front, t) && Gains(m.id(e), e, t, next)
    ensures forall i :: 0 <= i < |next.completed| ==> next.completed[i].events == Own(m, events, next.completed[i].id)
  {
    hide Own;
    forall i | 0 <= i < |next.completed| ensures next.completed[i].events == Own(m, events, next.completed[i].id) {
      if i < |t.completed| {
        var row := t.completed[i];
        assert row.events == Own(m, front, row.id) && row.id <= t.lastId;
        assert t.stack != [] ==> row.id != t.stack[|t.stack|-1].id;
        assert row.id != m.id(e);
      } else {
        var ended := next.completed[i];
        assert t.stack != [] && ended.id == t.stack[|t.stack|-1].id;
        assert t.stack[|t.stack|-1].events == Own(m, front, ended.id);
      }
    }
  }

  lemma {:induction false} ToldNext<L, F, E>(m: Machine<L, F, E>, events: seq<E>, t: Trace<L, F, E>,
      next: Trace<L, F, E>)
    requires events != [] && Apart(t) && Told(m, events[..|events|-1], t)
    requires Moves(m, |events| - 1, t, events[|events|-1], next)
    ensures Told(m, events, next)
  {
    hide Own, Moves, Told, Apart;
    var front, e := events[..|events|-1], events[|events|-1];
    forall id: nat
      ensures Own(m, events, id) == if m.id(e) == id then Own(m, front, id) + [e] else Own(m, front, id)
    {
      OwnSnoc(m, events, id);
    }
    MovesGain(m, |events| - 1, t, e, next);
    ApartGains(m, front, events, e, t, next);
  }

  /** HISTORIES. What an ended or pending invocation kept is exactly the lane's events of its own
      identity, and no identity ends twice or is both ended and pending. */
  lemma {:induction false} OwnHistories<L, F, E>(m: Machine<L, F, E>, start: L, events: seq<E>)
    requires Run(m, start, events).Some?
    ensures Apart(Run(m, start, events).value) && Told(m, events, Run(m, start, events).value)
  {
    if events == [] {
    } else {
      RunSnoc(m, start, events);
      OwnHistories(m, start, events[..|events|-1]);
      hide *;
      var t, next := Run(m, start, events[..|events|-1]).value, Run(m, start, events).value;
      StepMoves(m, |events| - 1, t, events[|events|-1]);
      ApartNext(m, |events| - 1, t, events[|events|-1], next);
      ToldNext(m, events, t, next);
    }
  }

  // ------------------------------------------------------------- last in, first out

  /** Two bracketed invocations are one inside the other, or one after the other. */
  ghost predicate Laminar<F, E>(a: Row<F, E>, b: Row<F, E>) {
    a.last < b.first || b.last < a.first ||
    (a.first < b.first && b.last < a.last) || (b.first < a.first && a.last < b.last)
  }

  ghost predicate Placed<L, F, E>(m: Machine<L, F, E>, events: seq<E>, t: Trace<L, F, E>) {
    && (forall i, k :: 0 <= i < k < |t.stack| ==> t.stack[i].first < t.stack[k].first)
    && (forall i :: 0 <= i < |t.stack| ==>
          t.stack[i].first < |events| && t.stack[i].events != [] && t.stack[i].events[0] == events[t.stack[i].first])
    && (forall i :: 0 <= i < |t.completed| ==> Bracketed(m, events, t.completed[i]))
    && (forall i, k :: 0 <= i < |t.completed| && 0 <= k < |t.stack| ==>
          t.completed[i].last < t.stack[k].first || t.stack[k].first < t.completed[i].first)
    && (forall i, k :: 0 <= i < k < |t.completed| ==> Laminar(t.completed[i], t.completed[k]))
  }

  /** A row runs from its first to its last event. */
  ghost predicate Bracketed<L, F, E>(m: Machine<L, F, E>, events: seq<E>, row: Row<F, E>) {
    row.first < row.last < |events| && row.events != [] &&
    row.events[0] == events[row.first] && row.events[|row.events|-1] == events[row.last] &&
    m.phase(events[row.last]) == Closes(row.normal)
  }

  lemma {:induction false} BracketedGrows<L, F, E>(m: Machine<L, F, E>, events: seq<E>, row: Row<F, E>)
    requires events != [] && Bracketed(m, events[..|events|-1], row)
    ensures Bracketed(m, events, row) && row.last < |events| - 1
  {
  }

  lemma {:induction false} PlacedOpen<L, F, E>(m: Machine<L, F, E>, events: seq<E>, t: Trace<L, F, E>,
      next: Trace<L, F, E>, live: Live<F, E>)
    requires events != [] && Placed(m, events[..|events|-1], t)
    requires live.first == |events| - 1 && live.events == [events[|events|-1]]
    requires next.stack == t.stack + [live] && next.completed == t.completed
    ensures Placed(m, events, next)
  {
    hide Laminar;
    var front := events[..|events|-1];
    assert forall i :: 0 <= i < |front| ==> front[i] == events[i];
    forall i | 0 <= i < |t.completed| ensures Bracketed(m, events, t.completed[i]) && t.completed[i].last < |front| {
      BracketedGrows(m, events, t.completed[i]);
    }
    hide Bracketed;
  }

  lemma {:induction false} PlacedInside<L, F, E>(m: Machine<L, F, E>, events: seq<E>, t: Trace<L, F, E>,
      next: Trace<L, F, E>, live: Live<F, E>)
    requires events != [] && Placed(m, events[..|events|-1], t) && t.stack != []
    requires var top := t.stack[|t.stack|-1];
             live.first == top.first && live.events == top.events + [events[|events|-1]]
    requires next.stack == t.stack[..|t.stack|-1] + [live] && next.completed == t.completed
    ensures Placed(m, events, next)
  {
    hide Laminar;
    var front := events[..|events|-1];
    assert forall i :: 0 <= i < |front| ==> front[i] == events[i];
    forall i | 0 <= i < |t.completed| ensures Bracketed(m, events, t.completed[i]) {
      BracketedGrows(m, events, t.completed[i]);
    }
    hide Bracketed;
  }

  lemma {:induction false} NewRowLaminar<L, F, E>(m: Machine<L, F, E>, events: seq<E>, t: Trace<L, F, E>,
      row: Row<F, E>)
    requires events != [] && Placed(m, events[..|events|-1], t) && t.stack != []
    requires row.first == t.stack[|t.stack|-1].first && row.last == |events| - 1
    requires row.events == t.stack[|t.stack|-1].events + [events[|events|-1]]
    requires m.phase(events[|events|-1]) == Closes(row.normal)
    ensures Bracketed(m, events, row)
    ensures forall i :: 0 <= i < |t.completed| ==> Laminar(t.completed[i], row)
  {
    forall i | 0 <= i < |t.completed| ensures Laminar(t.completed[i], row) {
      BracketedGrows(m, events, t.completed[i]);
    }
  }

  lemma {:induction false} PlacedClose<L, F, E>(m: Machine<L, F, E>, events: seq<E>, t: Trace<L, F, E>,
      next: Trace<L, F, E>, row: Row<F, E>)
    requires events != [] && Placed(m, events[..|events|-1], t) && t.stack != []
    requires row.first == t.stack[|t.stack|-1].first && row.last == |events| - 1
    requires row.events == t.stack[|t.stack|-1].events + [events[|events|-1]]
    requires m.phase(events[|events|-1]) == Closes(row.normal)
    requires next.stack == t.stack[..|t.stack|-1] && next.completed == t.completed + [row]
    ensures Placed(m, events, next)
  {
    NewRowLaminar(m, events, t, row);
    hide Laminar;
    var front := events[..|events|-1];
    assert forall i :: 0 <= i < |front| ==> front[i] == events[i];
    forall i | 0 <= i < |t.completed| ensures Bracketed(m, events, t.completed[i]) {
      BracketedGrows(m, events, t.completed[i]);
    }
    hide Bracketed;
  }

  lemma {:induction false} PlacedNext<L, F, E>(m: Machine<L, F, E>, events: seq<E>, t: Trace<L, F, E>,
      next: Trace<L, F, E>)
    requires events != [] && Placed(m, events[..|events|-1], t)
    requires Moves(m, |events| - 1, t, events[|events|-1], next)
    ensures Placed(m, events, next)
  {
    hide Placed;
    match m.phase(events[|events|-1])
    case Opens => PlacedOpen(m, events, t, next, next.stack[|t.stack|]);
    case Inside => PlacedInside(m, events, t, next, next.stack[|t.stack|-1]);
    case Closes(_) => PlacedClose(m, events, t, next, next.completed[|t.completed|]);
  }

  /** LAST IN, FIRST OUT. Any two ended invocations are nested or disjoint, and none straddles the
      start of one still pending. */
  lemma {:induction false} NestsLifo<L, F, E>(m: Machine<L, F, E>, start: L, events: seq<E>)
    requires Run(m, start, events).Some?
    ensures Placed(m, events, Run(m, start, events).value)
  {
    if events == [] {
    } else {
      RunSnoc(m, start, events);
      NestsLifo(m, start, events[..|events|-1]);
      hide *;
      var t, next := Run(m, start, events[..|events|-1]).value, Run(m, start, events).value;
      StepMoves(m, |events| - 1, t, events[|events|-1]);
      PlacedNext(m, events, t, next);
    }
  }

  ghost predicate ClocksOrdered<E>(time: E -> nat, events: seq<E>) {
    forall i, k :: 0 <= i <= k < |events| ==> time(events[i]) <= time(events[k])
  }

  /** CLOCK NESTING. When the lane's clocks do not decrease, an invocation entered between
      another's ends has its whole clock bracket inside the other's. */
  lemma {:induction false} InnerInsideOuter<L, F, E>(m: Machine<L, F, E>, start: L, events: seq<E>, time: E -> nat,
      i: nat, k: nat)
    requires Run(m, start, events).Some? && ClocksOrdered(time, events)
    requires i < |Run(m, start, events).value.completed| && k < |Run(m, start, events).value.completed|
    requires var rows := Run(m, start, events).value.completed;
             rows[i].first < rows[k].first < rows[i].last
    ensures var rows := Run(m, start, events).value.completed;
            Bracketed(m, events, rows[i]) && Bracketed(m, events, rows[k]) && rows[k].last < rows[i].last &&
            time(rows[i].events[0]) <= time(rows[k].events[0]) <=
            time(rows[k].events[|rows[k].events|-1]) <= time(rows[i].events[|rows[i].events|-1])
  {
    NestsLifo(m, start, events);
    hide Run;
    var rows := Run(m, start, events).value.completed;
    assert Laminar(rows[i], rows[k]) || Laminar(rows[k], rows[i]);
    assert Bracketed(m, events, rows[i]) && Bracketed(m, events, rows[k]);
  }

  /** What a decoder's own clock check must guarantee: an accepted event is no earlier than the
      lane's clock, which then becomes the event's. */
  ghost predicate KeepsClock<L(!new), F, E(!new)>(m: Machine<L, F, E>, clock: L -> nat, valid: E -> bool,
      time: E -> nat) {
    forall l, e :: valid(e) && m.lane(l, e).Some? ==> clock(l) <= time(e) && clock(m.lane(l, e).value) == time(e)
  }

  lemma {:induction false} OrderedSnoc<E>(time: E -> nat, front: seq<E>, e: E)
    requires ClocksOrdered(time, front) && (front != [] ==> time(front[|front|-1]) <= time(e))
    ensures ClocksOrdered(time, front + [e])
  {
    var all := front + [e];
    forall i, k | 0 <= i <= k < |all| ensures time(all[i]) <= time(all[k]) {
      if i < k && k == |front| { assert time(front[i]) <= time(front[k-1]); }
    }
  }

  lemma {:induction false} KeptClock<L(!new), F, E(!new)>(m: Machine<L, F, E>, l: L, e: E,
                                                          clock: L -> nat, valid: E -> bool, time: E -> nat)
    requires KeepsClock(m, clock, valid, time) && valid(e) && m.lane(l, e).Some?
    ensures clock(l) <= time(e) && clock(m.lane(l, e).value) == time(e)
  {
  }

  /** A lane whose recorded clocks are all valid lists its events in clock order. */
  lemma {:induction false} ClocksFollow<L(!new), F, E(!new)>(m: Machine<L, F, E>, start: L, events: seq<E>,
                                                             clock: L -> nat, valid: E -> bool, time: E -> nat)
    requires Run(m, start, events).Some? && KeepsClock(m, clock, valid, time)
    requires forall i :: 0 <= i < |events| ==> valid(events[i])
    ensures ClocksOrdered(time, events)
    ensures events != [] ==> clock(Run(m, start, events).value.lane) == time(events[|events|-1])
  {
    if events != [] {
      hide Run, Step, Moves, KeepsClock, ClocksOrdered;
      var front, e := events[..|events|-1], events[|events|-1];
      RunSnoc(m, start, events);
      ClocksFollow(m, start, front, clock, valid, time);
      var l := Run(m, start, front).value.lane;
      StepMoves(m, |front|, Run(m, start, front).value, e);
      KeptClock(m, l, e, clock, valid, time);
      OrderedSnoc(time, front, e);
      assert events == front + [e];
    }
  }

  // ---------------------------------------------------------- an induction principle

  /** `p` relates a frame to the events its invocation has had so far. */
  ghost predicate Inductive<L(!new), F(!new), E(!new)>(m: Machine<L, F, E>, p: (F, seq<E>) -> bool) {
    && (forall l, f, e :: m.phase(e).Opens? && OpensTo(m, l, e, f) ==> p(f, [e]))
    && (forall f, seen, e :: p(f, seen) && Running(m, seen) && !m.phase(e).Opens? && m.step(f, e).Some? ==>
          p(m.step(f, e).value, seen + [e]))
  }

  predicate Running<L, F, E>(m: Machine<L, F, E>, seen: seq<E>) {
    seen != [] && !m.phase(seen[|seen|-1]).Closes?
  }

  ghost predicate OpensTo<L(!new), F(!new), E(!new)>(m: Machine<L, F, E>, l: L, e: E, f: F) {
    exists top :: m.open(l, top, e) == Some(f)
  }

  ghost predicate Everywhere<L, F, E>(m: Machine<L, F, E>, t: Trace<L, F, E>, p: (F, seq<E>) -> bool) {
    && (forall i :: 0 <= i < |t.stack| ==> Running(m, t.stack[i].events) && p(t.stack[i].frame, t.stack[i].events))
    && (forall i :: 0 <= i < |t.completed| ==> p(t.completed[i].frame, t.completed[i].events))
  }

  lemma {:induction false} EverywhereNext<L(!new), F(!new), E(!new)>(m: Machine<L, F, E>, p: (F, seq<E>) -> bool,
                                                  n: nat, t: Trace<L, F, E>, e: E, next: Trace<L, F, E>)
    requires Inductive(m, p) && Everywhere(m, t, p) && Moves(m, n, t, e, next)
    ensures Everywhere(m, next, p)
  {
    match m.phase(e)
    case Opens =>
      assert OpensTo(m, next.lane, e, next.stack[|t.stack|].frame);
    case Inside =>
      var top := t.stack[|t.stack|-1];
      assert p(m.step(top.frame, e).value, top.events + [e]);
    case Closes(_) =>
      var top := t.stack[|t.stack|-1];
      assert p(m.step(top.frame, e).value, top.events + [e]);
  }

  /** A relation kept by every opening and every step holds of every invocation of the lane. */
  lemma {:induction false} HoldsEverywhere<L(!new), F(!new), E(!new)>(m: Machine<L, F, E>, start: L, events: seq<E>,
                                                                      p: (F, seq<E>) -> bool)
    requires Run(m, start, events).Some? && Inductive(m, p)
    ensures Everywhere(m, Run(m, start, events).value, p)
  {
    if events == [] {
    } else {
      RunSnoc(m, start, events);
      HoldsEverywhere(m, start, events[..|events|-1], p);
      hide *;
      var t := Run(m, start, events[..|events|-1]).value;
      StepMoves(m, |events| - 1, t, events[|events|-1]);
      EverywhereNext(m, p, |events| - 1, t, events[|events|-1], Run(m, start, events).value);
    }
  }
}
