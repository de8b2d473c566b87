/** What a replayed lane has open, and when it takes one more event, told from the events alone. */
module NestedLanguage {
  import opened Options
  import opened NestedReplay

  /** The identities of the invocations opened and not yet closed, outermost first. */
  function OpenIds<L, F, E>(m: Machine<L, F, E>, events: seq<E>): seq<nat> {
    if events == [] then []
    else
      var before, e := OpenIds(m, events[..|events|-1]), events[|events|-1];
      match m.phase(e)
      case Opens => before + [m.id(e)]
      case Inside => before
      case Closes(_) => if before == [] then [] else before[..|before|-1]
  }

  ghost predicate SameIds<F, E>(stack: seq<Live<F, E>>, ids: seq<nat>) {
    |stack| == |ids| && forall k :: 0 <= k < |stack| ==> stack[k].id == ids[k]
  }

  lemma {:induction false} SameIdsNext<L, F, E>(m: Machine<L, F, E>, n: nat, t: Trace<L, F, E>, e: E, ids: seq<nat>,
      next: Trace<L, F, E>)
    requires SameIds(t.stack, ids) && Moves(m, n, t, e, next)
    ensures SameIds(next.stack, match m.phase(e)
                                case Opens => ids + [m.id(e)]
                                case Inside => ids
                                case Closes(_) => if ids == [] then [] else ids[..|ids|-1])
  {
  }

  /** The stack of a replayed lane holds exactly the invocations its events left open. */
  lemma {:induction false} StackIsOpen<L, F, E>(m: Machine<L, F, E>, start: L, events: seq<E>)
    requires Run(m, start, events).Some?
    ensures SameIds(Run(m, start, events).value.stack, OpenIds(m, events))
  {
    if events == [] {
    } else {
      var front, e := events[..|events|-1], events[|events|-1];
      RunSnoc(m, start, events);
      StackIsOpen(m, start, front);
      hide Run, Step, SameIds, Moves;
      var t := Run(m, start, front).value;
      StepMoves(m, |events| - 1, t, e);
      SameIdsNext(m, |events| - 1, t, e, OpenIds(m, front), Run(m, start, events).value);
    }
  }

  lemma {:induction false} RunOneMore<L, F, E>(m: Machine<L, F, E>, start: L, events: seq<E>, e: E)
    ensures Run(m, start, events + [e]) ==
            if Run(m, start, events).None? then None else Step(m, |events|, Run(m, start, events).value, e)
  {
    assert (events + [e])[..|events|] == events;
  }

  /** When a lane takes its next event, before any decoder's own meaning. */
  lemma {:induction false} StepTakes<L, F, E>(m: Machine<L, F, E>, n: nat, t: Trace<L, F, E>, e: E, ids: seq<nat>)
    requires SameIds(t.stack, ids)
    ensures Step(m, n, t, e).Some? <==>
            m.lane(t.lane, e).Some? &&
            if m.phase(e).Opens? then
              m.id(e) > t.lastId && |ids| < m.depth && m.open(m.lane(t.lane, e).value, TopFrame(t), e).Some?
            else ids != [] && ids[|ids|-1] == m.id(e) && m.step(t.stack[|t.stack|-1].frame, e).Some?
  {
  }
}
