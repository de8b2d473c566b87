/** The event lists one work body can have, written as the loops of the body itself, and the proof
    that the decoder's stage machine accepts exactly those. */
module WorkLanguage {
  import opened Options
  import opened WorkEmission
  import opened WorkMeaning
  import R = WorkReplay
  import N = NestedReplay

  // ------------------------------------------------------------------ the body's text

  /** An event of this kind that uses only its first `used` fields. */
  predicate Plain(ev: Event, kind: Kind, used: nat) {
    ev.kind == kind && (forall i :: used <= i < 10 ==> ev.fields[i] == 0) && (kind.VectorCall? || ev.vector == [0, 0, 0, 0])
  }

  predicate CallAt(ev: Event, kind: Kind, used: nat, site: nat) { Plain(ev, kind, used) && ev.fields[0] == site }

  predicate ReturnText(t: seq<Event>) { |t| == 1 && Plain(t[0], BodyReturn, 0) }

  /** for (i = n; i-- > 0;) emit vector i; return */
  predicate VectorText(t: seq<Event>, n: nat) {
    if n == 0 then ReturnText(t)
    else
      |t| >= 2 && CallAt(t[0], VectorCall, 5, 0x825886F4) && t[0].fields[1] == n - 1 && Plain(t[1], VectorReturn, 0) &&
      VectorText(t[2..], n - 1)
  }

  /** while (next < (signed) bound) { emit job next; reload bound; } wait for bound; return */
  predicate JobText(t: seq<Event>, next: nat, bound: nat) {
    if next < Signed(bound) then
      |t| >= 3 && CallAt(t[0], JobCall, 9, 0x8258866C) && t[0].fields[1] == next && t[0].fields[8] <= 0xFFFF_FFFF &&
      Plain(t[1], JobReturn, 1) && Plain(t[2], JobReload, 1) && t[2].fields[0] <= 0xFFFF_FFFF &&
      JobText(t[3..], next + 1, t[2].fields[0])
    else
      |t| == 3 && CallAt(t[0], WaitCall, 4, 0x82588694) && t[0].fields[1] == bound && t[0].fields[3] == 1 &&
      Plain(t[1], WaitReturn, 0) && ReturnText(t[2..])
  }

  predicate ModeText(t: seq<Event>) {
    |t| >= 2 && Plain(t[0], ModeGate, 1) && t[0].fields[0] <= 255 &&
    if t[0].fields[0] != 0
    then Plain(t[1], VectorCount, 1) && t[1].fields[0] <= 65535 && VectorText(t[2..], t[1].fields[0])
    else Plain(t[1], JobBound, 1) && t[1].fields[0] <= 0xFFFF_FFFF && JobText(t[2..], 0, t[1].fields[0])
  }

  /** Scalar calls at falling indices below `upper`, each cleaned up when it returned a zero low byte. */
  predicate ScalarText(t: seq<Event>, upper: nat) {
    if |t| >= 2 && t[0].kind.ScalarCall? then
      CallAt(t[0], ScalarCall, 6, 0x825885AC) && t[0].fields[1] < upper && Plain(t[1], ScalarReturn, 1) &&
      if t[1].fields[0] % 256 == 0 then
        |t| >= 4 && CallAt(t[2], CleanupCall, 3, 0x825885CC) && Plain(t[3], CleanupReturn, 0) &&
        ScalarText(t[4..], t[0].fields[1])
      else ScalarText(t[2..], t[0].fields[1])
    else ModeText(t)
  }

  /** What follows the admission of a body that returns normally. */
  predicate BodyText(t: seq<Event>) {
    |t| >= 2 && Plain(t[0], MainGate, 1) && t[0].fields[0] <= 255 &&
    if t[0].fields[0] == 0 then ReturnText(t[1..])
    else Plain(t[1], ScalarCount, 1) && t[1].fields[0] <= 65535 && ScalarText(t[2..], t[1].fields[0])
  }

  // ------------------------------------------------------- the decoder on one event list

  predicate Ends(kind: Kind) { kind.BodyReturn? || kind.BodyThrow? }

  /** The decoder takes the whole list from this frame, and its last event is the normal return. */
  predicate Finishes(f: Frame, t: seq<Event>)
    decreases |t|
  {
    t != [] && Step(f, t[0]).Some? &&
    if t[0].kind.BodyReturn? then |t| == 1 else !t[0].kind.BodyThrow? && Finishes(Step(f, t[0]).value, t[1..])
  }

  lemma {:induction false} PlainIsPayload(ev: Event, kind: Kind)
    requires ev.kind == kind
    ensures Payload(ev) <==> Plain(ev, kind, Used(kind)) && (Site(kind).Some? ==> ev.fields[0] == Site(kind).value)
  {
  }

  /** What the decoder makes of a non-closing event, stage by stage. */
  lemma {:induction false} NextOf(f: Frame, ev: Event)
    requires Step(f, ev).Some? && !Ends(ev.kind)
    ensures match f.stage
            case Begun => ev.kind.MainGate?
            case MainSet => ev.kind.ScalarCount?
            case ScalarReady => ev.kind.ScalarCall? || ev.kind.ModeGate?
            case ScalarActive => ev.kind.ScalarReturn? || ev.kind.ScalarThrow?
            case CleanupReady => ev.kind.CleanupCall?
            case CleanupActive => ev.kind.CleanupReturn? || ev.kind.CleanupThrow?
            case JobInit => ev.kind.JobBound?
            case JobReady => ev.kind.JobCall?
            case JobActive => ev.kind.JobReturn? || ev.kind.JobThrow?
            case JobReloading => ev.kind.JobReload?
            case WaitReady => ev.kind.WaitCall?
            case WaitActive => ev.kind.WaitReturn? || ev.kind.WaitThrow?
            case VectorInit => ev.kind.VectorCount?
            case VectorReady => ev.kind.VectorCall?
            case VectorActive => ev.kind.VectorReturn? || ev.kind.VectorThrow?
            case Done => false
            case Thrown => false
    ensures (ev.kind.ScalarThrow? || ev.kind.CleanupThrow? || ev.kind.JobThrow? || ev.kind.WaitThrow? ||
             ev.kind.VectorThrow?) ==> Step(f, ev).value.stage.Thrown?
  {
    hide Payload, Rebound;
  }

  lemma {:induction false} ReturnOnlyDone(f: Frame, ev: Event)
    requires ev.kind.BodyReturn?
    ensures Step(f, ev).Some? <==> f.stage.Done? && Plain(ev, BodyReturn, 0)
  {
    PlainIsPayload(ev, BodyReturn);
  }

  lemma {:induction false} ThrownNeverFinishes(f: Frame, t: seq<Event>)
    requires f.stage.Thrown?
    ensures !Finishes(f, t)
  {
    if t != [] && Step(f, t[0]).Some? {
      if t[0].kind.BodyReturn? {
        ReturnOnlyDone(f, t[0]);
      } else if !t[0].kind.BodyThrow? {
        NextOf(f, t[0]);
      }
    }
    hide Step, Plain;
  }

  /** One step of a body that is not done: the first event is not a closing one. */
  lemma {:induction false} FinishesNext(f: Frame, t: seq<Event>)
    requires !f.stage.Done?
    ensures Finishes(f, t) <==>
            t != [] && !Ends(t[0].kind) && Step(f, t[0]).Some? && !Step(f, t[0]).value.stage.Thrown? &&
            Finishes(Step(f, t[0]).value, t[1..])
  {
    if t != [] && Step(f, t[0]).Some? {
      if t[0].kind.BodyReturn? { ReturnOnlyDone(f, t[0]); }
      if Step(f, t[0]).value.stage.Thrown? { ThrownNeverFinishes(Step(f, t[0]).value, t[1..]); }
    }
    hide Step, Plain;
  }

  lemma {:induction false} DoneText(f: Frame, t: seq<Event>)
    requires f.stage.Done?
    ensures Finishes(f, t) <==> ReturnText(t)
  {
    if t != [] {
      if t[0].kind.BodyReturn? {
        ReturnOnlyDone(f, t[0]);
      } else if Step(f, t[0]).Some? && !t[0].kind.BodyThrow? {
        NextOf(f, t[0]);
      }
    }
    hide Step;
  }

  // ---------------------------------------------------------- vector loop, from its end

  lemma {:induction false} VectorCallStep(f: Frame, ev: Event)
    requires f.stage.VectorReady?
    ensures !Ends(ev.kind) && Step(f, ev).Some? <==>
            CallAt(ev, VectorCall, 5, 0x825886F4) && ev.fields[1] == f.vector.next
    ensures !Ends(ev.kind) && Step(f, ev).Some? ==>
              Step(f, ev).value == f.(stage := VectorActive, vector := f.vector.(calls := f.vector.calls + 1))
  {
    PlainIsPayload(ev, ev.kind);
    if Step(f, ev).Some? && !Ends(ev.kind) { NextOf(f, ev); }
    hide Plain, Payload;
  }

  lemma {:induction false} VectorReturnStep(f: Frame, ev: Event)
    requires f.stage.VectorActive?
    ensures !Ends(ev.kind) && Step(f, ev).Some? && !Step(f, ev).value.stage.Thrown? <==> Plain(ev, VectorReturn, 0)
    ensures Plain(ev, VectorReturn, 0) ==>
              Step(f, ev) == Some(f.(stage := if f.vector.next != 0 then VectorReady else Done,
                                     vector := f.vector.(next := Previous(f.vector.next))))
  {
    PlainIsPayload(ev, ev.kind);
    if Step(f, ev).Some? && !Ends(ev.kind) { NextOf(f, ev); }
    hide Plain, Payload;
  }

  lemma {:induction false} VectorExactly(f: Frame, t: seq<Event>, n: nat)
    requires if n == 0 then f.stage.Done? else f.stage.VectorReady? && f.vector.next == n - 1
    ensures Finishes(f, t) <==> VectorText(t, n)
    decreases n
  {
    hide Step, Plain, Finishes;
    if n == 0 {
      DoneText(f, t);
    } else {
      FinishesNext(f, t);
      if t != [] {
        VectorCallStep(f, t[0]);
        if !Ends(t[0].kind) && Step(f, t[0]).Some? {
          var g := Step(f, t[0]).value;
          FinishesNext(g, t[1..]);
          if |t| >= 2 {
            VectorReturnStep(g, t[1]);
            assert t[1..][1..] == t[2..];
            if Plain(t[1], VectorReturn, 0) { VectorExactly(Step(g, t[1]).value, t[2..], n - 1); }
          }
        }
      }
    }
  }

  // -------------------------------------------------------------------------- job loop

  lemma {:induction false} BoundStep(f: Frame, ev: Event, kind: Kind)
    requires (f.stage.JobInit? && kind.JobBound?) || (f.stage.JobReloading? && kind.JobReload?)
    ensures !Ends(ev.kind) && Step(f, ev).Some? <==> Plain(ev, kind, 1) && ev.fields[0] <= 0xFFFF_FFFF
    ensures Plain(ev, kind, 1) && ev.fields[0] <= 0xFFFF_FFFF ==>
              Step(f, ev) == Some(f.(stage := if f.job.next < Signed(ev.fields[0]) then JobReady else WaitReady,
                                     job := f.job.(observed := true, bound := ev.fields[0])))
  {
    PlainIsPayload(ev, ev.kind);
    if Step(f, ev).Some? && !Ends(ev.kind) { NextOf(f, ev); }
    hide Plain, Payload, Signed;
  }

  lemma {:induction false} JobCallStep(f: Frame, ev: Event)
    requires f.stage.JobReady?
    ensures !Ends(ev.kind) && Step(f, ev).Some? <==>
            CallAt(ev, JobCall, 9, 0x8258866C) && ev.fields[1] == f.job.next && ev.fields[8] <= 0xFFFF_FFFF
    ensures !Ends(ev.kind) && Step(f, ev).Some? ==>
              Step(f, ev).value == f.(stage := JobActive, job := f.job.(calls := f.job.calls + 1))
  {
    PlainIsPayload(ev, ev.kind);
    if Step(f, ev).Some? && !Ends(ev.kind) { NextOf(f, ev); }
    hide Plain, Payload;
  }

  lemma {:induction false} JobReturnStep(f: Frame, ev: Event)
    requires f.stage.JobActive?
    ensures !Ends(ev.kind) && Step(f, ev).Some? && !Step(f, ev).value.stage.Thrown? <==> Plain(ev, JobReturn, 1)
    ensures Plain(ev, JobReturn, 1) ==>
              Step(f, ev) == Some(f.(stage := JobReloading, job := f.job.(returned := ev.fields[0], next := f.job.next + 1)))
  {
    PlainIsPayload(ev, ev.kind);
    if Step(f, ev).Some? && !Ends(ev.kind) { NextOf(f, ev); }
    hide Plain, Payload;
  }

  lemma {:induction false} WaitCallStep(f: Frame, ev: Event)
    requires f.stage.WaitReady?
    ensures !Ends(ev.kind) && Step(f, ev).Some? <==>
            CallAt(ev, WaitCall, 4, 0x82588694) && ev.fields[1] == f.job.bound && ev.fields[3] == 1
    ensures !Ends(ev.kind) && Step(f, ev).Some? ==> Step(f, ev).value.stage.WaitActive?
  {
    PlainIsPayload(ev, ev.kind);
    if Step(f, ev).Some? && !Ends(ev.kind) { NextOf(f, ev); }
    hide Plain, Payload;
  }

  lemma {:induction false} WaitReturnStep(f: Frame, ev: Event)
    requires f.stage.WaitActive?
    ensures !Ends(ev.kind) && Step(f, ev).Some? && !Step(f, ev).value.stage.Thrown? <==> Plain(ev, WaitReturn, 0)
    ensures Plain(ev, WaitReturn, 0) ==> Step(f, ev).Some? && Step(f, ev).value.stage.Done?
  {
    PlainIsPayload(ev, ev.kind);
    if Step(f, ev).Some? && !Ends(ev.kind) { NextOf(f, ev); }
    hide Plain, Payload;
  }

  lemma {:induction false} WaitExactly(f: Frame, t: seq<Event>, next: nat, bound: nat)
    requires f.stage.WaitReady? && f.job.bound == bound && !(next < Signed(bound))
    ensures Finishes(f, t) <==> JobText(t, next, bound)
  {
    hide Step, Plain, Finishes, Signed;
    FinishesNext(f, t);
    if t != [] {
      WaitCallStep(f, t[0]);
      if !Ends(t[0].kind) && Step(f, t[0]).Some? {
        var g := Step(f, t[0]).value;
        FinishesNext(g, t[1..]);
        if |t| >= 2 {
          WaitReturnStep(g, t[1]);
          assert t[1..][1..] == t[2..];
          if Plain(t[1], WaitReturn, 0) { DoneText(Step(g, t[1]).value, t[2..]); }
        }
      }
    }
  }

  lemma {:induction false} JobExactly(f: Frame, t: seq<Event>, next: nat, bound: nat)
    requires f.job.next == next && f.job.bound == bound
    requires f.stage == if next < Signed(bound) then JobReady else WaitReady
    ensures Finishes(f, t) <==> JobText(t, next, bound)
    decreases |t|
  {
    hide Step, Plain, Finishes, Signed;
    if next < Signed(bound) {
      FinishesNext(f, t);
      if t != [] {
        JobCallStep(f, t[0]);
        if !Ends(t[0].kind) && Step(f, t[0]).Some? {
          var g := Step(f, t[0]).value;
          FinishesNext(g, t[1..]);
          if |t| >= 2 {
            JobReturnStep(g, t[1]);
            assert t[1..][1..] == t[2..];
            if Plain(t[1], JobReturn, 1) { ReloadExactly(Step(g, t[1]).value, t, next + 1); }
          }
        }
      }
    } else {
      WaitExactly(f, t, next, bound);
    }
  }

  /** After a job returned: a reload decides whether another follows. */
  lemma {:induction false} ReloadExactly(f: Frame, t: seq<Event>, next: nat)
    requires |t| >= 2 && f.stage.JobReloading? && f.job.next == next
    ensures Finishes(f, t[2..]) <==>
            |t| >= 3 && Plain(t[2], JobReload, 1) && t[2].fields[0] <= 0xFFFF_FFFF && JobText(t[3..], next, t[2].fields[0])
    decreases |t|, 0
  {
    hide Step, Plain, Finishes, Signed;
    FinishesNext(f, t[2..]);
    if |t| >= 3 {
      BoundStep(f, t[2], JobReload);
      assert t[2..][1..] == t[3..];
      if Plain(t[2], JobReload, 1) && t[2].fields[0] <= 0xFFFF_FFFF {
        JobExactly(Step(f, t[2]).value, t[3..], next, t[2].fields[0]);
      }
    }
  }

  // --------------------------------------------------------------- mode gate and scalars

  lemma {:induction false} ModeStep(f: Frame, ev: Event)
    requires f.stage.ScalarReady?
    ensures !Ends(ev.kind) && !ev.kind.ScalarCall? && Step(f, ev).Some? <==> Plain(ev, ModeGate, 1) && ev.fields[0] <= 255
    ensures Plain(ev, ModeGate, 1) && ev.fields[0] <= 255 ==>
              var next := Step(f, ev);
              next.Some? && next.value.stage == (if ev.fields[0] != 0 then VectorInit else JobInit) &&
              next.value.job == f.job && next.value.vector == f.vector
  {
    PlainIsPayload(ev, ev.kind);
    if Step(f, ev).Some? && !Ends(ev.kind) { NextOf(f, ev); }
    hide Plain, Payload;
  }

  lemma {:induction false} VectorCountStep(f: Frame, ev: Event)
    requires f.stage.VectorInit?
    ensures !Ends(ev.kind) && Step(f, ev).Some? <==> Plain(ev, VectorCount, 1) && ev.fields[0] <= 65535
    ensures Plain(ev, VectorCount, 1) && ev.fields[0] <= 65535 ==>
              var next := Step(f, ev);
              next.Some? && next.value.stage == (if ev.fields[0] != 0 then VectorReady else Done) &&
              next.value.vector.next == Previous(ev.fields[0])
  {
    PlainIsPayload(ev, ev.kind);
    if Step(f, ev).Some? && !Ends(ev.kind) { NextOf(f, ev); }
    hide Plain, Payload;
  }

  lemma {:induction false} ModeExactly(f: Frame, t: seq<Event>)
    requires f.stage.ScalarReady? && f.job.next == 0 && t != [] && !t[0].kind.ScalarCall?
    ensures Finishes(f, t) <==> ModeText(t)
  {
    hide Step, Plain, Finishes, Signed;
    FinishesNext(f, t);
    ModeStep(f, t[0]);
    if Plain(t[0], ModeGate, 1) && t[0].fields[0] <= 255 {
      var g := Step(f, t[0]).value;
      FinishesNext(g, t[1..]);
      if |t| >= 2 {
        assert t[1..][1..] == t[2..];
        if t[0].fields[0] != 0 {
          VectorCountStep(g, t[1]);
          if Plain(t[1], VectorCount, 1) && t[1].fields[0] <= 65535 {
            VectorExactly(Step(g, t[1]).value, t[2..], t[1].fields[0]);
          }
        } else {
          BoundStep(g, t[1], JobBound);
          if Plain(t[1], JobBound, 1) && t[1].fields[0] <= 0xFFFF_FFFF {
            JobExactly(Step(g, t[1]).value, t[2..], 0, t[1].fields[0]);
          }
        }
      }
    }
  }

  lemma {:induction false} ScalarCallStep(f: Frame, ev: Event)
    requires f.stage.ScalarReady? && ev.kind.ScalarCall?
    ensures Step(f, ev).Some? <==> CallAt(ev, ScalarCall, 6, 0x825885AC) && ev.fields[1] < f.scalar.upper
    ensures Step(f, ev).Some? ==>
              Step(f, ev).value.stage.ScalarActive? && Step(f, ev).value.scalar.upper == ev.fields[1] &&
              Step(f, ev).value.job == f.job
  {
    PlainIsPayload(ev, ScalarCall);
    hide Plain, Payload;
  }

  lemma {:induction false} ScalarReturnStep(f: Frame, ev: Event)
    requires f.stage.ScalarActive?
    ensures !Ends(ev.kind) && Step(f, ev).Some? && !Step(f, ev).value.stage.Thrown? <==> Plain(ev, ScalarReturn, 1)
    ensures Plain(ev, ScalarReturn, 1) ==>
              var next := Step(f, ev);
              next.Some? && next.value.stage == (if ev.fields[0] % 256 == 0 then CleanupReady else ScalarReady) &&
              next.value.scalar.upper == f.scalar.upper && next.value.job == f.job
  {
    PlainIsPayload(ev, ev.kind);
    if Step(f, ev).Some? && !Ends(ev.kind) { NextOf(f, ev); }
    hide Plain, Payload;
  }

  lemma {:induction false} CleanupCallStep(f: Frame, ev: Event)
    requires f.stage.CleanupReady?
    ensures !Ends(ev.kind) && Step(f, ev).Some? <==> CallAt(ev, CleanupCall, 3, 0x825885CC)
    ensures !Ends(ev.kind) && Step(f, ev).Some? ==>
              Step(f, ev).value.stage.CleanupActive? && Step(f, ev).value.scalar.upper == f.scalar.upper &&
              Step(f, ev).value.job == f.job
  {
    PlainIsPayload(ev, ev.kind);
    if Step(f, ev).Some? && !Ends(ev.kind) { NextOf(f, ev); }
    hide Plain, Payload;
  }

  lemma {:induction false} CleanupReturnStep(f: Frame, ev: Event)
    requires f.stage.CleanupActive?
    ensures !Ends(ev.kind) && Step(f, ev).Some? && !Step(f, ev).value.stage.Thrown? <==> Plain(ev, CleanupReturn, 0)
    ensures Plain(ev, CleanupReturn, 0) ==> Step(f, ev) == Some(f.(stage := ScalarReady))
  {
    PlainIsPayload(ev, ev.kind);
    if Step(f, ev).Some? && !Ends(ev.kind) { NextOf(f, ev); }
    hide Plain, Payload;
  }

  /** A zero low byte: the cleanup call and its return come next. */
  lemma {:induction false} CleanupExactly(f: Frame, t: seq<Event>)
    requires |t| >= 2 && f.stage.CleanupReady? && f.job.next == 0
    ensures Finishes(f, t[2..]) <==>
            |t| >= 4 && CallAt(t[2], CleanupCall, 3, 0x825885CC) && Plain(t[3], CleanupReturn, 0) &&
            ScalarText(t[4..], f.scalar.upper)
    decreases |t|, 0
  {
    hide Step, Plain, Finishes, Signed, CallAt, ModeText;
    FinishesNext(f, t[2..]);
    if |t| >= 3 {
      CleanupCallStep(f, t[2]);
      if !Ends(t[2].kind) && Step(f, t[2]).Some? {
        var g := Step(f, t[2]).value;
        assert t[2..][1..] == t[3..];
        FinishesNext(g, t[3..]);
        if |t| >= 4 {
          CleanupReturnStep(g, t[3]);
          assert t[3..][1..] == t[4..];
          if Plain(t[3], CleanupReturn, 0) { ScalarExactly(Step(g, t[3]).value, t[4..]); }
        }
      }
    }
  }

  lemma {:induction false} ScalarExactly(f: Frame, t: seq<Event>)
    requires f.stage.ScalarReady? && f.job.next == 0
    ensures Finishes(f, t) <==> ScalarText(t, f.scalar.upper)
    decreases |t|, 1
  {
    hide Step, Plain, Finishes, Signed, CallAt, ModeText;
    if t == [] {
      FinishesNext(f, t);
      assert !ModeText(t) by { NoModeText(t); }
    } else if !t[0].kind.ScalarCall? {
      ModeExactly(f, t);
    } else {
      FinishesNext(f, t);
      NotModeText(t);
      ScalarCallStep(f, t[0]);
      if Step(f, t[0]).Some? {
        var g := Step(f, t[0]).value;
        FinishesNext(g, t[1..]);
        if |t| >= 2 {
          ScalarReturnStep(g, t[1]);
          assert t[1..][1..] == t[2..];
          if Plain(t[1], ScalarReturn, 1) {
            var h := Step(g, t[1]).value;
            if t[1].fields[0] % 256 == 0 { CleanupExactly(h, t); } else { ScalarExactly(h, t[2..]); }
          }
        }
      }
    }
  }

  lemma {:induction false} NoModeText(t: seq<Event>)
    ensures |t| < 2 ==> !ModeText(t)
  {
  }

  lemma {:induction false} NotModeText(t: seq<Event>)
    requires t != [] && t[0].kind.ScalarCall?
    ensures !ModeText(t)
  {
  }

  lemma {:induction false} BeginSteps(f: Frame, ev: Event)
    ensures f.stage.Begun? ==>
              (!Ends(ev.kind) && Step(f, ev).Some? <==> Plain(ev, MainGate, 1) && ev.fields[0] <= 255) &&
              (Plain(ev, MainGate, 1) && ev.fields[0] <= 255 ==>
                 var next := Step(f, ev);
                 next.Some? && next.value.stage == (if ev.fields[0] != 0 then MainSet else Done) && next.value.job == f.job)
    ensures f.stage.MainSet? ==>
              (!Ends(ev.kind) && Step(f, ev).Some? <==> Plain(ev, ScalarCount, 1) && ev.fields[0] <= 65535) &&
              (Plain(ev, ScalarCount, 1) && ev.fields[0] <= 65535 ==>
                 var next := Step(f, ev);
                 next.Some? && next.value.stage.ScalarReady? && next.value.scalar.upper == ev.fields[0] &&
                 next.value.job == f.job)
  {
    PlainIsPayload(ev, ev.kind);
    if Step(f, ev).Some? && !Ends(ev.kind) { NextOf(f, ev); }
    hide Plain, Payload;
  }

  /** LANGUAGE. From a new frame the decoder takes a list and returns normally at its end exactly when
      the list is the text of a body. */
  lemma {:induction false} BodyExactly(index: nat, parent: Id, t: seq<Event>)
    ensures Finishes(NewFrame(index, parent), t) <==> BodyText(t)
  {
    var f := NewFrame(index, parent);
    hide Step, Plain, Finishes, Signed, ScalarText;
    FinishesNext(f, t);
    if t != [] {
      BeginSteps(f, t[0]);
      if Plain(t[0], MainGate, 1) && t[0].fields[0] <= 255 {
        var g := Step(f, t[0]).value;
        if t[0].fields[0] == 0 {
          DoneText(g, t[1..]);
        } else {
          FinishesNext(g, t[1..]);
          if |t| >= 2 {
            BeginSteps(g, t[1]);
            assert t[1..][1..] == t[2..];
            if Plain(t[1], ScalarCount, 1) && t[1].fields[0] <= 65535 { ScalarExactly(Step(g, t[1]).value, t[2..]); }
          }
        }
      }
    }
  }

  // ------------------------------------------------------ unfinished and thrown histories

  /** The frame after a list of events, if the decoder takes them all. */
  function Feed(f: Frame, t: seq<Event>): Option<Frame> {
    if t == [] then Some(f)
    else
      var before := Feed(f, t[..|t|-1]);
      if before.None? then None else Step(before.value, t[|t|-1])
  }

  predicate NoEnd(t: seq<Event>) { forall i :: 0 <= i < |t| ==> !Ends(t[i].kind) }

  lemma {:induction false} FeedFirst(f: Frame, t: seq<Event>)
    requires t != []
    ensures Feed(f, t) == if Step(f, t[0]).None? then None else Feed(Step(f, t[0]).value, t[1..])
  {
    hide Step;
    if |t| > 1 {
      FeedFirst(f, t[..|t|-1]);
      assert t[..|t|-1][1..] == t[1..][..|t|-2];
    } else {
      assert t[..0] == [] && t[1..] == [];
      assert Feed(f, []) == Some(f);
      if Step(f, t[0]).Some? { assert Feed(Step(f, t[0]).value, []) == Step(f, t[0]); }
    }
  }

  /** A list with no closing event leads to wherever it leads, and may finish from there. */
  lemma {:induction false} FinishesAfter(f: Frame, t: seq<Event>, u: seq<Event>)
    requires NoEnd(t)
    ensures Finishes(f, t + u) <==> Feed(f, t).Some? && Finishes(Feed(f, t).value, u)
    decreases |t|
  {
    hide Step;
    if t == [] {
      assert t + u == u;
    } else {
      FeedFirst(f, t);
      assert (t + u)[0] == t[0] && (t + u)[1..] == t[1..] + u;
      if Step(f, t[0]).Some? { FinishesAfter(Step(f, t[0]).value, t[1..], u); }
    }
  }

  const ZERO_FIELDS: seq<nat> := [0, 0, 0, 0, 0, 0, 0, 0, 0, 0]

  function Made(kind: Kind, fields: Fields): Event {
    Event(0, NO_ID, kind, fields, [0, 0, 0, 0], true, 0, false, false)
  }

  /** An event every unfinished, unthrown body could have next. */
  function Onward(f: Frame): Event
    requires !f.stage.Thrown?
  {
    match f.stage
    case Begun => Made(MainGate, ZERO_FIELDS)
    case MainSet => Made(ScalarCount, ZERO_FIELDS)
    case ScalarReady => Made(ModeGate, ZERO_FIELDS)
    case ScalarActive => Made(ScalarReturn, [1, 0, 0, 0, 0, 0, 0, 0, 0, 0])
    case CleanupReady => Made(CleanupCall, [0x825885CC, 0, 0, 0, 0, 0, 0, 0, 0, 0])
    case CleanupActive => Made(CleanupReturn, ZERO_FIELDS)
    case JobInit => Made(JobBound, ZERO_FIELDS)
    case JobReady => Made(JobCall, [0x8258866C, f.job.next, 0, 0, 0, 0, 0, 0, 0, 0])
    case JobActive => Made(JobReturn, ZERO_FIELDS)
    case JobReloading => Made(JobReload, ZERO_FIELDS)
    case WaitReady => Made(WaitCall, [0x82588694, f.job.bound, 0, 1, 0, 0, 0, 0, 0, 0])
    case WaitActive => Made(WaitReturn, ZERO_FIELDS)
    case VectorInit => Made(VectorCount, ZERO_FIELDS)
    case VectorReady => Made(VectorCall, [0x825886F4, f.vector.next, 0, 0, 0, 0, 0, 0, 0, 0])
    case VectorActive => Made(VectorReturn, ZERO_FIELDS)
    case Done => Made(BodyReturn, ZERO_FIELDS)
  }

  lemma {:induction false} OnwardTaken(f: Frame)
    requires !f.stage.Thrown?
    ensures Step(f, Onward(f)).Some? && !Step(f, Onward(f)).value.stage.Thrown?
    ensures !Onward(f).kind.BodyThrow? && (Onward(f).kind.BodyReturn? <==> f.stage.Done?)
  {
    OnwardPays(f);
    hide Payload, Rebound, Signed, Step, Onward;
    if Early(f.stage) {
      OnwardEarly(f);
    } else if JobStage(f.stage) {
      OnwardJob(f);
    } else {
      OnwardVector(f);
    }
  }

  lemma {:induction false} OnwardEarly(f: Frame)
    requires Early(f.stage) && Payload(Onward(f))
    ensures Step(f, Onward(f)).Some? && !Step(f, Onward(f)).value.stage.Thrown?
    ensures !Onward(f).kind.BodyThrow? && !Onward(f).kind.BodyReturn? && !f.stage.Done?
  {
    hide Payload, JobStep, VectorStep;
  }

  lemma {:induction false} OnwardJob(f: Frame)
    requires JobStage(f.stage) && Payload(Onward(f))
    ensures Step(f, Onward(f)).Some? && !Step(f, Onward(f)).value.stage.Thrown?
    ensures !Onward(f).kind.BodyThrow? && !Onward(f).kind.BodyReturn? && !f.stage.Done?
  {
    hide Payload, GateStep, ScalarStep, VectorStep, Signed;
  }

  lemma {:induction false} OnwardVector(f: Frame)
    requires !Early(f.stage) && !JobStage(f.stage) && !f.stage.Thrown? && Payload(Onward(f))
    ensures Step(f, Onward(f)).Some? && !Step(f, Onward(f)).value.stage.Thrown?
    ensures !Onward(f).kind.BodyThrow? && (Onward(f).kind.BodyReturn? <==> f.stage.Done?)
  {
    hide Payload, GateStep, ScalarStep, JobStep;
  }

  lemma {:induction false} OnwardPays(f: Frame)
    requires !f.stage.Thrown?
    ensures Payload(Onward(f))
  {
    var ev := Onward(f);
    forall i | Used(ev.kind) <= i < 10 ensures ev.fields[i] == 0 {
    }
  }

  /** NO DEAD END. Every unfinished body that has not thrown can still return normally. */
  lemma {:induction false} CanFinish(f: Frame) returns (u: seq<Event>)
    requires Bounded(f) && !f.stage.Thrown?
    ensures Finishes(f, u)
    decreases Measure(f)
  {
    var ev := Onward(f);
    OnwardTaken(f);
    hide Step, Onward, Measure, Bounded;
    if f.stage.Done? {
      u := [ev];
    } else {
      MeasureFalls(f, ev);
      var rest := CanFinish(Step(f, ev).value);
      u := [ev] + rest;
      assert u[1..] == rest;
    }
  }

  lemma {:induction false} FeedBounded(f: Frame, t: seq<Event>)
    requires Bounded(f) && Feed(f, t).Some?
    ensures Bounded(Feed(f, t).value)
  {
    hide Step, Bounded, Measure;
    if t != [] {
      FeedBounded(f, t[..|t|-1]);
      MeasureFalls(Feed(f, t[..|t|-1]).value, t[|t|-1]);
    }
  }

  /** Some continuation makes this the text of a body. */
  ghost predicate Begins(t: seq<Event>) { exists u :: BodyText(t + u) }

  /** PREFIXES. A list without a closing event leaves a running, unthrown body exactly when it is a
      beginning of the text of some body. */
  lemma {:induction false} RunningExactly(index: nat, parent: Id, t: seq<Event>)
    requires NoEnd(t)
    ensures var g := Feed(NewFrame(index, parent), t); g.Some? && !g.value.stage.Thrown? <==> Begins(t)
  {
    var f := NewFrame(index, parent);
    var g := Feed(f, t);
    assert Bounded(f);
    hide Step, Bounded, BodyText, Finishes, Feed;
    if g.Some? && !g.value.stage.Thrown? {
      FeedBounded(f, t);
      var u := CanFinish(g.value);
      FinishesAfter(f, t, u);
      BodyExactly(index, parent, t + u);
    }
    forall u | BodyText(t + u) ensures g.Some? && !g.value.stage.Thrown? {
      BodyExactly(index, parent, t + u);
      FinishesAfter(f, t, u);
      if g.value.stage.Thrown? { ThrownNeverFinishes(g.value, u); }
    }
  }

  /** The throw that may end a call instead of its return. */
  function ThrowOf(kind: Kind): Option<Kind> {
    match kind
    case ScalarCall => Some(ScalarThrow)
    case CleanupCall => Some(CleanupThrow)
    case JobCall => Some(JobThrow)
    case WaitCall => Some(WaitThrow)
    case VectorCall => Some(VectorThrow)
    case _ => None
  }

  /** The call a body is inside of at this stage. */
  function CallOf(stage: Stage): Option<Kind> {
    match stage
    case ScalarActive => Some(ScalarCall)
    case CleanupActive => Some(CleanupCall)
    case JobActive => Some(JobCall)
    case WaitActive => Some(WaitCall)
    case VectorActive => Some(VectorCall)
    case _ => None
  }

  /** After an accepted event the body is inside a call exactly when that event made the call. */
  lemma {:induction false} InsideAfterCall(f: Frame, ev: Event)
    requires Step(f, ev).Some? && !Ends(ev.kind)
    ensures CallOf(Step(f, ev).value.stage) == if ThrowOf(ev.kind).Some? then Some(ev.kind) else None
  {
    NextOf(f, ev);
    hide Payload;
  }

  /** A throw is taken exactly inside the call it ends. */
  lemma {:induction false} ThrowTaken(f: Frame, ev: Event)
    requires !Ends(ev.kind)
    ensures Step(f, ev).Some? && Step(f, ev).value.stage.Thrown? <==>
            CallOf(f.stage).Some? && ThrowOf(CallOf(f.stage).value) == Some(ev.kind) && Plain(ev, ev.kind, 0)
  {
    PlainIsPayload(ev, ev.kind);
    if Step(f, ev).Some? { NextOf(f, ev); }
    hide Plain, Payload, Rebound;
  }

  /** A beginning of a body's text whose last call threw. */
  ghost predicate Threw(t: seq<Event>) {
    |t| >= 2 && Begins(t[..|t|-1]) && ThrowOf(t[|t|-2].kind) == Some(t[|t|-1].kind) && Plain(t[|t|-1], t[|t|-1].kind, 0)
  }

  lemma {:induction false} FeedInside(index: nat, parent: Id, t: seq<Event>)
    requires NoEnd(t) && Feed(NewFrame(index, parent), t).Some?
    ensures CallOf(Feed(NewFrame(index, parent), t).value.stage) ==
            if t != [] && ThrowOf(t[|t|-1].kind).Some? then Some(t[|t|-1].kind) else None
  {
    if t != [] { InsideAfterCall(Feed(NewFrame(index, parent), t[..|t|-1]).value, t[|t|-1]); }
    hide Step;
  }

  /** HISTORIES. The decoder takes a list without a closing event exactly when it begins the text of a
      body, or is such a beginning ended by the throw of the call it had just made. */
  lemma {:induction false} HistoryExactly(index: nat, parent: Id, t: seq<Event>)
    requires NoEnd(t)
    ensures Feed(NewFrame(index, parent), t).Some? <==> Begins(t) || Threw(t)
  {
    var f := NewFrame(index, parent);
    hide Step, Plain, Begins, Ends;
    RunningExactly(index, parent, t);
    if t == [] {
      assert Feed(f, t) == Some(f);
    } else {
      var front, x := t[..|t|-1], t[|t|-1];
      RunningExactly(index, parent, front);
      var before := Feed(f, front);
      if before.Some? {
        FeedInside(index, parent, front);
        ThrowTaken(before.value, x);
        if Step(before.value, x).Some? && before.value.stage.Thrown? { NextOf(before.value, x); }
      }
    }
  }

  // ----------------------------------------------------------------------- in a lane

  /** The frame of an invocation is what its own events after the admission lead to. */
  ghost predicate Fed(f: Frame, seen: seq<Event>) {
    seen != [] && NoEnd(seen[..|seen|-1]) && Feed(NewFrame(f.index, f.parent), seen[1..]) == Some(f)
  }

  lemma {:induction false} FedNext(f: Frame, seen: seq<Event>, ev: Event)
    requires Fed(f, seen) && !Ends(seen[|seen|-1].kind) && Step(f, ev).Some?
    ensures Fed(Step(f, ev).value, seen + [ev])
  {
    var all := seen + [ev];
    assert all[1..] == seen[1..] + [ev] && all[1..][..|all|-2] == seen[1..];
    assert all[..|all|-1] == seen;
    StepKeepsName(f, ev);
    hide Step, Ends;
  }

  lemma {:induction false} StepKeepsName(f: Frame, ev: Event)
    requires Step(f, ev).Some?
    ensures Step(f, ev).value.index == f.index && Step(f, ev).value.parent == f.parent
  {
    hide GateStep, ScalarStep, JobStep, VectorStep, Payload;
  }

  lemma {:induction false} FedInductive(lane: R.Lane, d: R.Window)
    ensures N.Inductive(R.Decoder(lane, d), Fed)
  {
    var m := R.Decoder(lane, d);
    hide Step;
    forall l, f, ev: Event | m.phase(ev).Opens? && N.OpensTo(m, l, ev, f) ensures Fed(f, [ev]) {
      var top :| m.open(l, top, ev) == Some(f);
      assert [ev][1..] == [];
    }
    hide Fed;
    forall f: Frame, seen: seq<Event>, ev: Event |
      Fed(f, seen) && N.Running(m, seen) && !m.phase(ev).Opens? && m.step(f, ev).Some?
      ensures Fed(m.step(f, ev).value, seen + [ev])
    {
      FedNext(f, seen, ev);
    }
  }

  /** The next own event an invocation with this history may have. */
  ghost predicate Continues(h: seq<Event>, ev: Event) {
    if ev.kind.BodyReturn? then BodyText(h + [ev])
    else if ev.kind.BodyThrow? then Plain(ev, BodyThrow, 0)
    else Begins(h + [ev]) || Threw(h + [ev])
  }

  lemma {:induction false} ContinuesExactly(f: Frame, seen: seq<Event>, ev: Event)
    requires Fed(f, seen) && !Ends(seen[|seen|-1].kind)
    ensures Step(f, ev).Some? <==> Continues(seen[1..], ev)
  {
    var start, h := NewFrame(f.index, f.parent), seen[1..];
    assert NoEnd(h);
    assert (h + [ev])[..|h|] == h;
    PlainIsPayload(ev, ev.kind);
    hide Plain, BodyText, Begins, Threw, Ends;
    if ev.kind.BodyReturn? {
      FinishesAfter(start, h, [ev]);
      BodyExactly(f.index, f.parent, h + [ev]);
    } else if ev.kind.BodyThrow? {
      assert Step(f, ev).Some? <==> Payload(ev);
    } else {
      assert NoEnd(h + [ev]) by { hide Step; NoEndSnoc(h, ev); }
      HistoryExactly(f.index, f.parent, h + [ev]);
    }
    hide Step, Payload;
  }

  lemma {:induction false} NoEndSnoc(h: seq<Event>, ev: Event)
    requires NoEnd(h) && !Ends(ev.kind)
    ensures NoEnd(h + [ev])
  {
  }

  lemma {:induction false} StepTakes(lane: R.Lane, d: R.Window, n: nat, t: N.Trace<R.LaneState, Frame, Event>,
      ev: Event)
    requires !ev.kind.Admission?
    ensures N.Step(R.Decoder(lane, d), n, t, ev).Some? <==>
            R.LaneCheck(lane, d, t.lane, ev).Some? && t.stack != [] && t.stack[|t.stack|-1].id == ev.index + 1 &&
            Step(t.stack[|t.stack|-1].frame, ev).Some?
  {
    hide R.LaneCheck, Step, R.Open;
  }

  lemma {:induction false} RunningMeans(lane: R.Lane, d: R.Window, seen: seq<Event>)
    ensures N.Running(R.Decoder(lane, d), seen) <==> seen != [] && !Ends(seen[|seen|-1].kind)
  {
  }

  /** NEXT EVENT. A replayed lane takes one more event of an open body exactly when the lane's own
      checks pass, the body is the innermost one, and its own events with this one are the text of a
      body, begin one, or end it by a throw. */
  lemma {:induction false} NextAccepted(lane: R.Lane, d: R.Window, claimed: R.Claimed, events: seq<Event>, ev: Event)
    requires N.Run(R.Decoder(lane, d), R.Start(claimed), events).Some? && !ev.kind.Admission?
    ensures var t := N.Run(R.Decoder(lane, d), R.Start(claimed), events).value;
            N.Run(R.Decoder(lane, d), R.Start(claimed), events + [ev]).Some? <==>
            R.LaneCheck(lane, d, t.lane, ev).Some? && t.stack != [] && t.stack[|t.stack|-1].id == ev.index + 1 &&
            t.stack[|t.stack|-1].events != [] && Continues(t.stack[|t.stack|-1].events[1..], ev)
  {
    var m, start := R.Decoder(lane, d), R.Start(claimed);
    var t := N.Run(m, start, events).value;
    FedInductive(lane, d);
    hide N.Run, N.Step, R.Decoder, R.LaneCheck, Continues, Fed, Step, N.Inductive, N.Running, Ends;
    N.HoldsEverywhere(m, start, events, Fed);
    StepTakes(lane, d, |events|, t, ev);
    RunSnocIs(m, start, events, ev);
    if t.stack != [] {
      var k := |t.stack| - 1;
      assert N.Running(m, t.stack[k].events) && Fed(t.stack[k].frame, t.stack[k].events);
      RunningMeans(lane, d, t.stack[k].events);
      ContinuesExactly(t.stack[k].frame, t.stack[k].events, ev);
    }
  }

  lemma {:induction false} RunSnocIs(m: N.Machine<R.LaneState, Frame, Event>, start: R.LaneState, events: seq<Event>,
      ev: Event)
    requires N.Run(m, start, events).Some?
    ensures N.Run(m, start, events + [ev]) == N.Step(m, |events|, N.Run(m, start, events).value, ev)
  {
    assert (events + [ev])[..|events|] == events;
  }

  /** TEXTS. Every normally returned body of a replayed lane had, after its admission, exactly the text
      of a body. */
  lemma {:induction false} NormalRowIsText(lane: R.Lane, d: R.Window, claimed: R.Claimed, i: nat)
    requires R.Replayed(lane, d, claimed).Some? && i < |R.Replayed(lane, d, claimed).value.completed|
    requires R.Replayed(lane, d, claimed).value.completed[i].normal
    ensures var row := R.Replayed(lane, d, claimed).value.completed[i];
            row.events != [] && row.events[0].kind.Admission? && BodyText(row.events[1..])
  {
    var m, start := R.Decoder(lane, d), R.Start(claimed);
    var row := R.Replayed(lane, d, claimed).value.completed[i];
    FedInductive(lane, d);
    N.HoldsEverywhere(m, start, lane.events, Fed);
    N.NestsLifo(m, start, lane.events);
    OpensFirst(lane, d);
    N.HoldsEverywhere(m, start, lane.events, FromAdmission);
    hide N.Run, R.LaneCheck, Step, N.Inductive;
    assert Fed(row.frame, row.events) && N.Bracketed(m, lane.events, row) && FromAdmission(row.frame, row.events);
    FedReturns(row.frame, row.events);
  }

  ghost predicate FromAdmission(f: Frame, seen: seq<Event>) { seen != [] && seen[0].kind.Admission? }

  lemma {:induction false} OpensFirst(lane: R.Lane, d: R.Window)
    ensures N.Inductive(R.Decoder(lane, d), FromAdmission)
  {
    hide Step, R.LaneCheck, R.Open;
  }

  lemma {:induction false} FedReturns(f: Frame, seen: seq<Event>)
    requires Fed(f, seen) && seen[|seen|-1].kind.BodyReturn? && seen[0].kind.Admission?
    ensures BodyText(seen[1..])
  {
    var start, h, ev := NewFrame(f.index, f.parent), seen[1..|seen|-1], seen[|seen|-1];
    assert seen[1..] == h + [ev] && seen[1..][..|seen|-2] == h;
    assert NoEnd(h);
    hide Step, BodyText;
    FinishesAfter(start, h, [ev]);
    BodyExactly(f.index, f.parent, h + [ev]);
  }

  // ------------------------------------------------------------------------ cleanups

  predicate ZeroReturn(ev: Event) { ev.kind.ScalarReturn? && ev.fields[0] % 256 == 0 }

  function Cleanups(h: seq<Event>): nat {
    if h == [] then 0 else Cleanups(h[..|h|-1]) + if h[|h|-1].kind.CleanupCall? then 1 else 0
  }

  function ZeroReturns(h: seq<Event>): nat {
    if h == [] then 0 else ZeroReturns(h[..|h|-1]) + if ZeroReturn(h[|h|-1]) then 1 else 0
  }

  lemma {:induction false} CleanupStage(f: Frame, ev: Event)
    requires Step(f, ev).Some?
    ensures !Ends(ev.kind) ==> (Step(f, ev).value.stage.CleanupReady? <==> ZeroReturn(ev))
    ensures ev.kind.CleanupCall? ==> f.stage.CleanupReady?
    ensures f.stage.CleanupReady? ==> ev.kind.CleanupCall? || ev.kind.BodyThrow?
  {
    if Ends(ev.kind) {
      if ev.kind.BodyReturn? { ReturnOnlyDone(f, ev); }
    } else {
      NextOf(f, ev);
    }
    hide Payload, Rebound, Plain;
  }

  /** In an accepted history a cleanup call is exactly what follows a zero low byte. */
  ghost predicate CleanupsPlaced(h: seq<Event>) {
    && (forall i :: 0 <= i < |h| && h[i].kind.CleanupCall? ==> i > 0 && ZeroReturn(h[i-1]))
    && (forall i :: 0 < i < |h| && ZeroReturn(h[i-1]) ==> h[i].kind.CleanupCall? || h[i].kind.BodyThrow?)
  }

  /** The zero returns are the cleanup calls, but for one that was not cleaned up yet or never will be. */
  ghost predicate CleanupsCounted(h: seq<Event>) {
    ZeroReturns(h) == Cleanups(h) + if h != [] && ZeroReturn(h[|h|-1]) then 1
                                    else if |h| > 1 && ZeroReturn(h[|h|-2]) && h[|h|-1].kind.BodyThrow? then 1 else 0
  }

  lemma {:induction false} CleanupsNext(front: seq<Event>, f: Frame, ev: Event)
    requires CleanupsPlaced(front) && CleanupsCounted(front) && NoEnd(front)
    requires f.stage.CleanupReady? <==> front != [] && ZeroReturn(front[|front|-1])
    requires Step(f, ev).Some?
    ensures CleanupsPlaced(front + [ev]) && CleanupsCounted(front + [ev])
  {
    CleanupStage(f, ev);
    var h := front + [ev];
    assert h[..|front|] == front;
    assert front != [] ==> Ends(front[|front|-1].kind) == false;
    hide Step, ZeroReturn;
  }

  lemma {:induction false} CleanupsFollow(index: nat, parent: Id, h: seq<Event>)
    requires Feed(NewFrame(index, parent), h).Some? && (h != [] ==> NoEnd(h[..|h|-1]))
    ensures CleanupsPlaced(h) && CleanupsCounted(h)
    ensures NoEnd(h) ==> (Feed(NewFrame(index, parent), h).value.stage.CleanupReady? <==> h != [] && ZeroReturn(h[|h|-1]))
  {
    if h != [] {
      var front, ev := h[..|h|-1], h[|h|-1];
      assert NoEnd(front) && (front != [] ==> NoEnd(front[..|front|-1]));
      CleanupsFollow(index, parent, front);
      var f := Feed(NewFrame(index, parent), front).value;
      CleanupStage(f, ev);
      assert h == front + [ev];
      hide Step, ZeroReturn, CleanupsPlaced, CleanupsCounted;
      CleanupsNext(front, f, ev);
    }
  }

  /** CLEANUPS. In every body of a replayed lane, ended or pending, each cleanup call comes right after a
      scalar return with a zero low byte, and right after such a return comes a cleanup call, the
      throw of the body, or nothing yet; a normal body has as many cleanup calls as such returns. */
  lemma {:induction false} CleanupsExactly(lane: R.Lane, d: R.Window, claimed: R.Claimed)
    requires R.Replayed(lane, d, claimed).Some?
    ensures var t := R.Replayed(lane, d, claimed).value;
            && (forall live :: live in t.stack ==> CleanupsPlaced(live.events))
            && (forall row :: row in t.completed ==> CleanupsPlaced(row.events))
            && (forall row :: row in t.completed && row.normal ==> Cleanups(row.events) == ZeroReturns(row.events))
  {
    var m, start := R.Decoder(lane, d), R.Start(claimed);
    FedInductive(lane, d);
    N.HoldsEverywhere(m, start, lane.events, Fed);
    N.NestsLifo(m, start, lane.events);
    OpensFirst(lane, d);
    N.HoldsEverywhere(m, start, lane.events, FromAdmission);
    hide N.Run, R.LaneCheck, Step, N.Inductive, Fed, CleanupsPlaced, Cleanups, ZeroReturns;
    var t := R.Replayed(lane, d, claimed).value;
    forall i | 0 <= i < |t.stack| ensures CleanupsPlaced(t.stack[i].events) {
      FedCleanups(t.stack[i].frame, t.stack[i].events);
    }
    forall i | 0 <= i < |t.completed|
      ensures CleanupsPlaced(t.completed[i].events)
      ensures t.completed[i].normal ==> Cleanups(t.completed[i].events) == ZeroReturns(t.completed[i].events)
    {
      assert N.Bracketed(m, lane.events, t.completed[i]);
      FedCleanups(t.completed[i].frame, t.completed[i].events);
    }
  }

  lemma {:induction false} PlacedShift(seen: seq<Event>)
    requires seen != [] && seen[0].kind.Admission? && CleanupsPlaced(seen[1..])
    ensures CleanupsPlaced(seen)
  {
    hide ZeroReturn;
    var h := seen[1..];
    assert forall i :: 1 <= i < |seen| ==> seen[i] == h[i-1];
    assert !ZeroReturn(seen[0]) by { NoReturn(seen[0]); }
  }

  lemma {:induction false} NoReturn(ev: Event)
    ensures ev.kind.Admission? || ev.kind.BodyReturn? ==> !ZeroReturn(ev)
  {
  }

  lemma {:induction false} FedFacts(f: Frame, seen: seq<Event>)
    requires Fed(f, seen)
    ensures seen != [] && Feed(NewFrame(f.index, f.parent), seen[1..]) == Some(f)
    ensures seen[1..] != [] ==> NoEnd(seen[1..][..|seen|-2])
  {
    hide Feed;
    if |seen| > 1 {
      var front := seen[1..][..|seen|-2];
      assert front == seen[..|seen|-1][1..];
    }
  }

  lemma {:induction false} FedCleanups(f: Frame, seen: seq<Event>)
    requires Fed(f, seen) && FromAdmission(f, seen)
    ensures CleanupsPlaced(seen)
    ensures seen[|seen|-1].kind.BodyReturn? ==> Cleanups(seen) == ZeroReturns(seen)
  {
    var h := seen[1..];
    FedFacts(f, seen);
    hide Fed, Feed, Cleanups, ZeroReturns, NoEnd, ZeroReturn, CleanupsPlaced;
    CleanupsFollow(f.index, f.parent, h);
    PlacedShift(seen);
    CountsShift(seen);
    NoReturn(seen[|seen|-1]);
    assert |seen| > 1 ==> h[|h|-1] == seen[|seen|-1];
  }

  lemma {:induction false} CountsShift(seen: seq<Event>)
    requires seen != [] && seen[0].kind.Admission?
    ensures Cleanups(seen) == Cleanups(seen[1..]) && ZeroReturns(seen) == ZeroReturns(seen[1..])
  {
    if |seen| > 1 {
      CountsShift(seen[..|seen|-1]);
      assert seen[..|seen|-1][1..] == seen[1..][..|seen|-2];
    }
  }
}
