/** What the accepted events of one work body mean: its scalar, job and vector loops. */
module WorkMeaning {
  import opened Options
  import opened WorkEmission

  /** The ordinals (field 1) of a body's calls of one kind, in order. */
  function Calls(seen: seq<Event>, kind: Kind): seq<nat> {
    if seen == [] then []
    else
      var rest := Calls(seen[..|seen|-1], kind);
      if seen[|seen|-1].kind == kind then rest + [seen[|seen|-1].fields[1]] else rest
  }

  /** The raw job bounds a body loaded: the first one and every reload. */
  function Bounds(seen: seq<Event>): seq<nat> {
    if seen == [] then []
    else
      var rest := Bounds(seen[..|seen|-1]);
      if seen[|seen|-1].kind.JobBound? || seen[|seen|-1].kind.JobReload?
      then rest + [seen[|seen|-1].fields[0]] else rest
  }

  lemma {:induction false} CallsSnoc(seen: seq<Event>, ev: Event, kind: Kind)
    ensures Calls(seen + [ev], kind) == Calls(seen, kind) + if ev.kind == kind then [ev.fields[1]] else []
  {
    assert (seen + [ev])[..|seen|] == seen;
  }

  lemma {:induction false} BoundsSnoc(seen: seq<Event>, ev: Event)
    ensures Bounds(seen + [ev]) ==
            Bounds(seen) + if ev.kind.JobBound? || ev.kind.JobReload? then [ev.fields[0]] else []
  {
    assert (seen + [ev])[..|seen|] == seen;
  }

  // ------------------------------------------------------------------ which branch

  predicate Early(stage: Stage) {
    match stage
    case Begun | MainSet | ScalarReady | ScalarActive | CleanupReady | CleanupActive => true
    case _ => false
  }

  predicate JobStage(stage: Stage) {
    match stage
    case JobInit | JobReady | JobActive | JobReloading | WaitReady | WaitActive => true
    case _ => false
  }

  predicate VectorStage(stage: Stage) { stage.VectorInit? || stage.VectorReady? || stage.VectorActive? }

  predicate JobMode(g: Gates) { g.modeObserved && g.modeRaw == 0 }

  predicate VectorMode(g: Gates) { g.modeObserved && g.modeRaw != 0 }

  /** The mode gate decides between the job and the vector loop; a zero main gate skips both. */
  predicate Mode(stage: Stage, g: Gates) {
    && (Early(stage) ==> !g.modeObserved && (g.mainObserved <==> !stage.Begun?) && (g.mainObserved ==> g.mainRaw != 0))
    && (JobStage(stage) ==> JobMode(g))
    && (VectorStage(stage) ==> VectorMode(g))
    && (g.modeObserved ==> g.mainObserved && g.mainRaw != 0)
    && (stage.Done? ==> g.mainObserved && (g.mainRaw != 0 ==> g.modeObserved))
  }

  lemma {:induction false} GateStages(stage: Stage, g: Gates, ev: Event)
    requires Mode(stage, g) && GateStep(stage, g, ev).Some?
    ensures var next := GateStep(stage, g, ev).value;
            Early(stage) && Mode(next.0, next.1) &&
            (Early(next.0) ==> next.0.MainSet? && stage.Begun?) &&
            (next.0.Done? ==> !next.1.modeObserved) && !next.0.Thrown? &&
            (JobStage(next.0) ==> next.0.JobInit?) && (VectorStage(next.0) ==> next.0.VectorInit?)
  {
  }

  lemma {:induction false} ScalarStages(stage: Stage, s: ScalarLoop, ev: Event)
    requires ScalarStep(stage, s, ev).Some?
    ensures Early(stage) && !stage.Begun? && !ScalarStep(stage, s, ev).value.0.Begun?
    ensures Early(ScalarStep(stage, s, ev).value.0) || ScalarStep(stage, s, ev).value.0.Thrown?
  {
  }

  lemma {:induction false} JobStages(stage: Stage, j: JobLoop, ev: Event)
    requires JobStep(stage, j, ev).Some?
    ensures var next := JobStep(stage, j, ev).value.0;
            JobStage(stage) && (JobStage(next) || next.Done? || next.Thrown?)
  {
  }

  lemma {:induction false} VectorStages(stage: Stage, v: VectorLoop, ev: Event)
    requires VectorStep(stage, v, ev).Some?
    ensures var next := VectorStep(stage, v, ev).value.0;
            VectorStage(stage) && (VectorStage(next) || next.Done? || next.Thrown?)
  {
  }

  lemma {:induction false} ModeKept(f: Frame, ev: Event)
    requires Mode(f.stage, f.gates) && Step(f, ev).Some?
    ensures Mode(Step(f, ev).value.stage, Step(f, ev).value.gates)
  {
    hide GateStep, ScalarStep, JobStep, VectorStep, Payload;
    match PartOf(ev.kind)
    case ToGates => GateStages(f.stage, f.gates, ev);
    case ToScalars => ScalarStages(f.stage, f.scalar, ev);
    case ToJobs => JobStages(f.stage, f.job, ev);
    case ToVectors => VectorStages(f.stage, f.vector, ev);
    case _ =>
  }

  // ------------------------------------------------------------------ scalar loop

  ghost predicate Falling(s: seq<nat>, low: nat, high: nat) {
    && low <= high
    && (forall i, k :: 0 <= i < k < |s| ==> s[i] > s[k])
    && (forall i :: 0 <= i < |s| ==> low <= s[i] < high)
  }

  /** Scalar indices fall strictly from below the loaded count to the last one called. */
  ghost predicate ScalarProgress(stage: Stage, l: ScalarLoop, s: seq<nat>) {
    && |s| == l.calls && Falling(s, l.upper, l.count)
    && l.upper == (if s == [] then l.count else s[|s|-1])
    && (stage.Begun? || stage.MainSet? ==> s == [])
  }

  lemma {:induction false} FallingNext(s: seq<nat>, low: nat, high: nat, x: nat)
    requires Falling(s, low, high) && x < low
    ensures Falling(s + [x], x, high)
  {
  }

  lemma {:induction false} AppendNothing(s: seq<nat>)
    ensures s + [] == s
  {
  }

  lemma {:induction false} ScalarStepKept(stage: Stage, l: ScalarLoop, s: seq<nat>, ev: Event)
    requires ScalarProgress(stage, l, s) && ScalarStep(stage, l, ev).Some?
    ensures var next := ScalarStep(stage, l, ev).value;
            ScalarProgress(next.0, next.1, s + if ev.kind.ScalarCall? then [ev.fields[1]] else [])
  {
    if ev.kind.ScalarCall? {
      FallingNext(s, l.upper, l.count, ev.fields[1]);
      hide Falling;
    } else {
      AppendNothing(s);
      hide Falling;
    }
  }

  lemma {:induction false} ScalarKept(f: Frame, seen: seq<Event>, ev: Event)
    requires Mode(f.stage, f.gates) && ScalarProgress(f.stage, f.scalar, Calls(seen, ScalarCall)) && Step(f, ev).Some?
    ensures ScalarProgress(Step(f, ev).value.stage, Step(f, ev).value.scalar, Calls(seen + [ev], ScalarCall))
  {
    CallsSnoc(seen, ev, ScalarCall);
    var s := Calls(seen, ScalarCall);
    hide Calls, GateStep, ScalarStep, JobStep, VectorStep, Payload, Mode, Falling;
    match PartOf(ev.kind)
    case ToScalars => ScalarStepKept(f.stage, f.scalar, s, ev);
    case ToGates => GateStages(f.stage, f.gates, ev); assert s + [] == s;
    case ToJobs => JobStages(f.stage, f.job, ev); assert s + [] == s;
    case ToVectors => VectorStages(f.stage, f.vector, ev); assert s + [] == s;
    case _ => assert s + [] == s;
  }

  // --------------------------------------------------------------------- job loop

  /** Job c[i] has ordinal i and was allowed by the i-th loaded bound. */
  ghost predicate Admitted(c: seq<nat>, b: seq<nat>) {
    |c| <= |b| && forall i :: 0 <= i < |c| ==> c[i] == i && Signed(b[i]) > i
  }

  /** The loop ended at the first ordinal that a freshly loaded bound did not exceed. */
  ghost predicate Ended(c: seq<nat>, b: seq<nat>) {
    |b| == |c| + 1 && Signed(b[|c|]) <= |c|
  }

  ghost predicate Idle(c: seq<nat>, b: seq<nat>, w: seq<nat>) { c == [] && b == [] && w == [] }

  ghost predicate JobProgress(stage: Stage, jobMode: bool, j: JobLoop, c: seq<nat>, b: seq<nat>, w: seq<nat>) {
    && |c| == j.calls && |w| == j.waits && Admitted(c, b)
    && match stage
       case JobReady => |b| == |c| + 1 && Signed(b[|c|]) > |c| && w == [] && j.next == |c|
       case JobActive => |b| == |c| == j.next + 1 && w == []
       case JobReloading => |b| == |c| == j.next && w == []
       case WaitReady => Ended(c, b) && w == [] && j.bound == b[|c|]
       case WaitActive => Ended(c, b) && w == [b[|c|]]
       case Done => if jobMode then Ended(c, b) && w == [b[|c|]] else Idle(c, b, w)
       case Thrown => true
       case _ => Idle(c, b, w) && j.next == 0
  }

  lemma {:induction false} AdmittedBound(c: seq<nat>, b: seq<nat>, raw: nat)
    requires Admitted(c, b)
    ensures Admitted(c, b + [raw])
  {
    assert forall i :: 0 <= i < |c| ==> (b + [raw])[i] == b[i];
  }

  lemma {:induction false} AdmittedCall(c: seq<nat>, b: seq<nat>, w: seq<nat>, j: JobLoop)
    requires JobProgress(JobReady, true, j, c, b, w)
    ensures Admitted(c + [j.next], b)
  {
    hide Signed;
  }

  lemma {:induction false} JobRebound(j: JobLoop, raw: nat, c: seq<nat>, b: seq<nat>)
    requires Admitted(c, b) && |b| == |c| == j.next == j.calls && j.waits == 0
    ensures JobProgress(Rebound(j, raw).0, true, Rebound(j, raw).1, c, b + [raw], [])
  {
    AdmittedBound(c, b, raw);
    assert (b + [raw])[|c|] == raw;
  }

  lemma {:induction false} BoundKept(stage: Stage, j: JobLoop, c: seq<nat>, b: seq<nat>, w: seq<nat>, ev: Event)
    requires JobProgress(stage, true, j, c, b, w) && JobStep(stage, j, ev).Some?
    requires ev.kind.JobBound? || ev.kind.JobReload?
    ensures var next := JobStep(stage, j, ev).value; JobProgress(next.0, true, next.1, c, b + [ev.fields[0]], w)
  {
    hide Signed, Rebound;
    assert w == [];
    JobRebound(j, ev.fields[0], c, b);
    hide JobProgress, Admitted;
  }

  lemma {:induction false} CallKept(stage: Stage, j: JobLoop, c: seq<nat>, b: seq<nat>, w: seq<nat>, ev: Event)
    requires JobProgress(stage, true, j, c, b, w) && JobStep(stage, j, ev).Some? && ev.kind.JobCall?
    ensures var next := JobStep(stage, j, ev).value; JobProgress(next.0, true, next.1, c + [ev.fields[1]], b, w)
  {
    hide Signed, Rebound;
    AdmittedCall(c, b, w, j);
    hide Admitted, Ended, Idle;
  }

  lemma {:induction false} OthersKept(stage: Stage, j: JobLoop, c: seq<nat>, b: seq<nat>, w: seq<nat>, ev: Event)
    requires JobProgress(stage, true, j, c, b, w) && JobStep(stage, j, ev).Some?
    requires !ev.kind.JobBound? && !ev.kind.JobReload? && !ev.kind.JobCall?
    ensures var next := JobStep(stage, j, ev).value;
            JobProgress(next.0, true, next.1, c, b, if ev.kind.WaitCall? then w + [ev.fields[1]] else w)
  {
    hide Signed, Rebound, Admitted, Idle;
    assert ev.kind.WaitCall? ==> w + [ev.fields[1]] == [j.bound];
  }

  lemma {:induction false} JobStepKept(stage: Stage, j: JobLoop, c: seq<nat>, b: seq<nat>, w: seq<nat>, ev: Event)
    requires JobProgress(stage, true, j, c, b, w) && JobStep(stage, j, ev).Some?
    ensures var next := JobStep(stage, j, ev).value;
            JobProgress(next.0, true, next.1,
                        c + if ev.kind.JobCall? then [ev.fields[1]] else [],
                        b + if ev.kind.JobBound? || ev.kind.JobReload? then [ev.fields[0]] else [],
                        w + if ev.kind.WaitCall? then [ev.fields[1]] else [])
  {
    hide *;
    AppendNothing(c);
    AppendNothing(b);
    AppendNothing(w);
    if ev.kind.JobBound? || ev.kind.JobReload? {
      BoundKept(stage, j, c, b, w, ev);
    } else if ev.kind.JobCall? {
      CallKept(stage, j, c, b, w, ev);
    } else {
      OthersKept(stage, j, c, b, w, ev);
    }
  }

  lemma {:induction false} JobKept(f: Frame, seen: seq<Event>, ev: Event)
    requires Mode(f.stage, f.gates) && Step(f, ev).Some?
    requires JobProgress(f.stage, JobMode(f.gates), f.job, Calls(seen, JobCall), Bounds(seen), Calls(seen, WaitCall))
    ensures var g, all := Step(f, ev).value, seen + [ev];
            JobProgress(g.stage, JobMode(g.gates), g.job, Calls(all, JobCall), Bounds(all), Calls(all, WaitCall))
  {
    CallsSnoc(seen, ev, JobCall);
    CallsSnoc(seen, ev, WaitCall);
    BoundsSnoc(seen, ev);
    var c, b, w := Calls(seen, JobCall), Bounds(seen), Calls(seen, WaitCall);
    hide Calls, Bounds, Admitted, GateStep, ScalarStep, JobStep, VectorStep, Payload, Ended, Signed;
    assert !PartOf(ev.kind).ToJobs? ==> c + [] == c && w + [] == w && b + [] == b;
    match PartOf(ev.kind)
    case ToJobs =>
      JobStages(f.stage, f.job, ev);
      JobStepKept(f.stage, f.job, c, b, w, ev);
      hide JobProgress;
    case ToGates => GateStages(f.stage, f.gates, ev);
    case ToScalars => ScalarStages(f.stage, f.scalar, ev);
    case ToVectors => VectorStages(f.stage, f.vector, ev);
    case _ =>
  }

  // ------------------------------------------------------------------ vector loop

  ghost predicate CountsDown(v: seq<nat>, count: nat) {
    |v| <= count && forall i :: 0 <= i < |v| ==> v[i] == count - 1 - i
  }

  ghost predicate VectorProgress(stage: Stage, vectorMode: bool, l: VectorLoop, v: seq<nat>) {
    && |v| == l.calls && CountsDown(v, l.count)
    && match stage
       case VectorReady => |v| + 1 + l.next == l.count
       case VectorActive => v != [] && |v| + l.next == l.count
       case Done => |v| == l.count && (!vectorMode ==> v == [])
       case Thrown => true
       case _ => v == [] && l.count == 0
  }

  lemma {:induction false} CountsDownNext(v: seq<nat>, count: nat, x: nat)
    requires CountsDown(v, count) && |v| + 1 + x == count
    ensures CountsDown(v + [x], count)
  {
  }

  lemma {:induction false} VectorStepKept(stage: Stage, l: VectorLoop, v: seq<nat>, ev: Event)
    requires VectorProgress(stage, true, l, v) && VectorStep(stage, l, ev).Some?
    ensures var next := VectorStep(stage, l, ev).value;
            VectorProgress(next.0, true, next.1, v + if ev.kind.VectorCall? then [ev.fields[1]] else [])
  {
    if ev.kind.VectorCall? {
      CountsDownNext(v, l.count, l.next);
      hide CountsDown;
    } else {
      assert v + [] == v;
    }
  }

  lemma {:induction false} VectorKept(f: Frame, seen: seq<Event>, ev: Event)
    requires Mode(f.stage, f.gates) && Step(f, ev).Some?
    requires VectorProgress(f.stage, VectorMode(f.gates), f.vector, Calls(seen, VectorCall))
    ensures var g := Step(f, ev).value;
            VectorProgress(g.stage, VectorMode(g.gates), g.vector, Calls(seen + [ev], VectorCall))
  {
    CallsSnoc(seen, ev, VectorCall);
    var v := Calls(seen, VectorCall);
    hide Calls, CountsDown, GateStep, ScalarStep, JobStep, VectorStep, Payload;
    assert !PartOf(ev.kind).ToVectors? ==> v + [] == v;
    match PartOf(ev.kind)
    case ToVectors =>
      VectorStages(f.stage, f.vector, ev);
      VectorStepKept(f.stage, f.vector, v, ev);
      hide VectorProgress;
    case ToGates => GateStages(f.stage, f.gates, ev);
    case ToScalars => ScalarStages(f.stage, f.scalar, ev);
    case ToJobs => JobStages(f.stage, f.job, ev);
    case _ =>
  }

  // ------------------------------------------------------------ the meaning of a body

  /** Everything a body's frame records about the events it has had. */
  ghost predicate Meaning(f: Frame, seen: seq<Event>) {
    && Mode(f.stage, f.gates)
    && ScalarProgress(f.stage, f.scalar, Calls(seen, ScalarCall))
    && JobProgress(f.stage, JobMode(f.gates), f.job, Calls(seen, JobCall), Bounds(seen), Calls(seen, WaitCall))
    && VectorProgress(f.stage, VectorMode(f.gates), f.vector, Calls(seen, VectorCall))
    && (seen != [] && seen[|seen|-1].kind.BodyReturn? ==> f.stage.Done?)
  }

  lemma {:induction false} NoCalls(ev: Event)
    requires ev.kind.Admission?
    ensures Bounds([ev]) == [] && forall kind: Kind :: !kind.Admission? ==> Calls([ev], kind) == []
  {
    forall kind: Kind | !kind.Admission? ensures Calls([ev], kind) == [] {
      assert [ev][..0] == [];
      assert Calls([], kind) == [];
    }
    assert [ev][..0] == [];
    assert Bounds([]) == [];
  }

  lemma {:induction false} MeaningBegins(index: nat, parent: Id, ev: Event)
    requires ev.kind.Admission?
    ensures Meaning(NewFrame(index, parent), [ev])
  {
    NoCalls(ev);
    hide Calls, Bounds;
  }

  lemma {:induction false} ReturnsDone(f: Frame, ev: Event)
    requires Step(f, ev).Some? && ev.kind.BodyReturn?
    ensures Step(f, ev).value.stage.Done?
  {
  }

  lemma {:induction false} MeaningKept(f: Frame, seen: seq<Event>, ev: Event)
    requires Meaning(f, seen) && Step(f, ev).Some?
    ensures Meaning(Step(f, ev).value, seen + [ev])
  {
    hide Mode, ScalarProgress, JobProgress, VectorProgress, Step, Calls, Bounds;
    ModeKept(f, ev);
    ScalarKept(f, seen, ev);
    JobKept(f, seen, ev);
    VectorKept(f, seen, ev);
    if ev.kind.BodyReturn? { ReturnsDone(f, ev); }
  }

  // ------------------------------------------------------------- every body is finite

  predicate Within(stage: Stage, upper: nat, job: nat, vector: nat) {
    upper <= 65535 && job <= TWO31 && vector <= 65534 && (stage.JobReady? || stage.JobActive? ==> job < TWO31)
  }

  predicate Bounded(f: Frame) { Within(f.stage, f.scalar.upper, f.job.next, f.vector.next) }

  const AFTER_SCALARS: nat := 3 * TWO31 + 5
  const LONGEST: nat := AFTER_SCALARS + 4 * 65536 + 3

  /** What is left: scalar indices, then jobs below the largest signed bound, or vector indices. */
  function Left(stage: Stage, upper: nat, job: nat, vector: nat): nat
    requires Within(stage, upper, job, vector)
  {
    match stage
    case Begun => LONGEST
    case MainSet => LONGEST - 1
    case ScalarActive => AFTER_SCALARS + 4 * upper + 4
    case CleanupReady => AFTER_SCALARS + 4 * upper + 3
    case CleanupActive => AFTER_SCALARS + 4 * upper + 2
    case ScalarReady => AFTER_SCALARS + 4 * upper + 1
    case JobInit => 3 * (TWO31 - job) + 5
    case JobReloading => 3 * (TWO31 - job) + 4
    case JobReady => 3 * (TWO31 - job) + 3
    case JobActive => 3 * (TWO31 - job) + 2
    case WaitReady => 3
    case WaitActive => 2
    case VectorInit => 2 * 65536 + 4
    case VectorReady => 2 * vector + 3
    case VectorActive => 2 * vector + 2
    case Done => 1
    case Thrown => 1
  }

  function Measure(f: Frame): nat
    requires Bounded(f)
  {
    Left(f.stage, f.scalar.upper, f.job.next, f.vector.next)
  }

  lemma {:induction false} GateFalls(stage: Stage, g: Gates, ev: Event, upper: nat, job: nat, vector: nat)
    requires Within(stage, upper, job, vector) && GateStep(stage, g, ev).Some?
    ensures var next := GateStep(stage, g, ev).value.0;
            Within(next, upper, job, vector) && Left(next, upper, job, vector) < Left(stage, upper, job, vector)
  {
  }

  lemma {:induction false} ScalarFalls(stage: Stage, l: ScalarLoop, ev: Event, job: nat, vector: nat)
    requires Within(stage, l.upper, job, vector) && ScalarStep(stage, l, ev).Some?
    ensures var next := ScalarStep(stage, l, ev).value;
            Within(next.0, next.1.upper, job, vector) &&
            Left(next.0, next.1.upper, job, vector) < Left(stage, l.upper, job, vector)
  {
  }

  lemma {:induction false} JobFalls(stage: Stage, j: JobLoop, ev: Event, upper: nat, vector: nat)
    requires Within(stage, upper, j.next, vector) && JobStep(stage, j, ev).Some?
    ensures var next := JobStep(stage, j, ev).value;
            Within(next.0, upper, next.1.next, vector) &&
            Left(next.0, upper, next.1.next, vector) < Left(stage, upper, j.next, vector)
  {
  }

  lemma {:induction false} VectorFalls(stage: Stage, l: VectorLoop, ev: Event, upper: nat, job: nat)
    requires Within(stage, upper, job, l.next) && VectorStep(stage, l, ev).Some?
    ensures var next := VectorStep(stage, l, ev).value;
            Within(next.0, upper, job, next.1.next) &&
            Left(next.0, upper, job, next.1.next) < Left(stage, upper, job, l.next)
  {
  }

  /** Every accepted event but the closing one makes strict progress. */
  lemma {:induction false} MeasureFalls(f: Frame, ev: Event)
    requires Bounded(f) && Step(f, ev).Some?
    ensures Bounded(Step(f, ev).value)
    ensures ev.kind.BodyReturn? || ev.kind.BodyThrow? || Measure(Step(f, ev).value) < Measure(f)
  {
    hide Payload, GateStep, ScalarStep, JobStep, VectorStep, Within, Left;
    match PartOf(ev.kind)
    case ToGates => GateFalls(f.stage, f.gates, ev, f.scalar.upper, f.job.next, f.vector.next);
    case ToScalars => ScalarFalls(f.stage, f.scalar, ev, f.job.next, f.vector.next);
    case ToJobs => JobFalls(f.stage, f.job, ev, f.scalar.upper, f.vector.next);
    case ToVectors => VectorFalls(f.stage, f.vector, ev, f.scalar.upper, f.job.next);
    case _ =>
  }

  predicate Closed(seen: seq<Event>) {
    seen != [] && (seen[|seen|-1].kind.BodyReturn? || seen[|seen|-1].kind.BodyThrow?)
  }

  /** How many events a body has had, against the measure it has left. */
  ghost predicate Finite(f: Frame, seen: seq<Event>) {
    Bounded(f) && if Closed(seen) then |seen| <= LONGEST + 1 else |seen| + Measure(f) <= LONGEST + 1
  }

  lemma {:induction false} FiniteBegins(index: nat, parent: Id, ev: Event)
    requires ev.kind.Admission?
    ensures Finite(NewFrame(index, parent), [ev])
  {
  }

  lemma {:induction false} MeasurePositive(f: Frame)
    requires Bounded(f)
    ensures Measure(f) >= 1
  {
  }

  lemma {:induction false} FiniteKept(f: Frame, seen: seq<Event>, ev: Event)
    requires Finite(f, seen) && !Closed(seen) && Step(f, ev).Some?
    ensures Finite(Step(f, ev).value, seen + [ev])
  {
    MeasureFalls(f, ev);
    MeasurePositive(f);
    hide Measure, Bounded, Step;
  }
}
