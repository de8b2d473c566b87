/** One selected work body: its compact frame, updated in place by one event at a time. */
module WorkEmission {
  import opened Options

  const U32: nat := 0xFFFF_FFFF
  const TWO31: nat := 0x8000_0000

  datatype Id = Id(epoch: nat, serial: nat)
  const NO_ID := Id(0, 0)

  datatype Kind =
    | Admission
    | MainGate | ScalarCount | ScalarCall | ScalarReturn | ScalarThrow
    | CleanupCall | CleanupReturn | CleanupThrow
    | ModeGate | JobBound | JobCall | JobReturn | JobThrow | JobReload
    | WaitCall | WaitReturn | WaitThrow
    | VectorCount | VectorCall | VectorReturn | VectorThrow
    | BodyReturn | BodyThrow

  datatype Stage =
    | Begun | MainSet | ScalarReady | ScalarActive | CleanupReady | CleanupActive
    | JobInit | JobReady | JobActive | JobReloading | WaitReady | WaitActive
    | VectorInit | VectorReady | VectorActive | Done | Thrown

  type Fields = s: seq<nat> | |s| == 10 witness [0, 0, 0, 0, 0, 0, 0, 0, 0, 0]
  type Lanes = s: seq<nat> | |s| == 4 witness [0, 0, 0, 0]

  datatype Event = Event(index: nat, invocation: Id, kind: Kind, fields: Fields, vector: Lanes,
                         clockValid: bool, qpc: nat, tailFresh: bool, parentAdmitted: bool)

  datatype Gates = Gates(mainObserved: bool, mainRaw: nat, modeObserved: bool, modeRaw: nat)
  datatype ScalarLoop = ScalarLoop(observed: bool, count: nat, upper: nat, index: nat, returned: nat,
                                   calls: nat, cleanups: nat)
  datatype JobLoop = JobLoop(observed: bool, bound: nat, next: nat, returned: nat, calls: nat, waits: nat)
  datatype VectorLoop = VectorLoop(observed: bool, count: nat, next: nat, calls: nat)

  /** The compact frame of a body, grouped by what each loop reads and writes. */
  datatype Frame = Frame(index: nat, parent: Id, stage: Stage, gates: Gates,
                         scalar: ScalarLoop, job: JobLoop, vector: VectorLoop)

  function NewFrame(index: nat, parent: Id): Frame {
    Frame(index, parent, Begun, Gates(false, 0, false, 0), ScalarLoop(false, 0, 0, 0, 0, 0, 0),
          JobLoop(false, 0, 0, 0, 0, 0), VectorLoop(false, 0, 0, 0))
  }

  /** How many payload fields a kind may use; the rest are zero. */
  function Used(kind: Kind): nat {
    match kind
    case MainGate => 1 case ScalarCount => 1 case ScalarCall => 6 case ScalarReturn => 1
    case CleanupCall => 3 case ModeGate => 1 case JobBound => 1 case JobCall => 9
    case JobReturn => 1 case JobReload => 1 case WaitCall => 4 case VectorCount => 1 case VectorCall => 5
    case _ => 0
  }

  function Site(kind: Kind): Option<nat> {
    match kind
    case ScalarCall => Some(0x825885AC)
    case CleanupCall => Some(0x825885CC)
    case JobCall => Some(0x8258866C)
    case WaitCall => Some(0x82588694)
    case VectorCall => Some(0x825886F4)
    case _ => None
  }

  predicate Payload(ev: Event) {
    && (forall i :: Used(ev.kind) <= i < 10 ==> ev.fields[i] == 0)
    && (ev.kind.VectorCall? || ev.vector == [0, 0, 0, 0])
    && (Site(ev.kind).Some? ==> ev.fields[0] == Site(ev.kind).value)
  }

  /** A raw u32 read as the signed bound it is compared as. */
  function Signed(raw: nat): int { if raw >= TWO31 then raw - 2 * TWO31 else raw }

  function Previous(n: nat): nat { if n == 0 then 0 else n - 1 }

  function GateStep(stage: Stage, g: Gates, ev: Event): Option<(Stage, Gates)> {
    var raw := ev.fields[0];
    match ev.kind
    case MainGate =>
      if stage.Begun? && raw <= 255
      then Some((if raw != 0 then MainSet else Done, Gates(true, raw, g.modeObserved, g.modeRaw))) else None
    case ModeGate =>
      if stage.ScalarReady? && raw <= 255
      then Some((if raw != 0 then VectorInit else JobInit, Gates(g.mainObserved, g.mainRaw, true, raw))) else None
    case _ => None
  }

  function ScalarStep(stage: Stage, s: ScalarLoop, ev: Event): Option<(Stage, ScalarLoop)> {
    var a := ev.fields;
    match ev.kind
    case ScalarCount =>
      if stage.MainSet? && a[0] <= 65535
      then Some((ScalarReady, s.(observed := true, count := a[0], upper := a[0]))) else None
    case ScalarCall =>
      if stage.ScalarReady? && a[1] < s.upper
      then Some((ScalarActive, s.(index := a[1], upper := a[1], calls := s.calls + 1))) else None
    case ScalarReturn =>
      if stage.ScalarActive?
      then Some((if a[0] % 256 == 0 then CleanupReady else ScalarReady, s.(returned := a[0]))) else None
    case ScalarThrow => if stage.ScalarActive? then Some((Thrown, s)) else None
    case CleanupCall =>
      if stage.CleanupReady? then Some((CleanupActive, s.(cleanups := s.cleanups + 1))) else None
    case CleanupReturn => if stage.CleanupActive? then Some((ScalarReady, s)) else None
    case CleanupThrow => if stage.CleanupActive? then Some((Thrown, s)) else None
    case _ => None
  }

  /** A loaded bound admits the next ordinal or ends the loop. */
  function Rebound(j: JobLoop, raw: nat): (Stage, JobLoop) {
    (if Signed(raw) > 0 && j.next < Signed(raw) then JobReady else WaitReady, j.(observed := true, bound := raw))
  }

  function JobStep(stage: Stage, j: JobLoop, ev: Event): Option<(Stage, JobLoop)> {
    var a := ev.fields;
    match ev.kind
    case JobBound => if stage.JobInit? && a[0] <= U32 then Some(Rebound(j, a[0])) else None
    case JobReload => if stage.JobReloading? && a[0] <= U32 then Some(Rebound(j, a[0])) else None
    case JobCall =>
      if stage.JobReady? && a[1] == j.next && a[8] <= U32 then Some((JobActive, j.(calls := j.calls + 1))) else None
    case JobReturn =>
      if stage.JobActive? then Some((JobReloading, j.(returned := a[0], next := j.next + 1))) else None
    case JobThrow => if stage.JobActive? then Some((Thrown, j)) else None
    case WaitCall =>
      if stage.WaitReady? && a[1] == j.bound && a[3] == 1 then Some((WaitActive, j.(waits := j.waits + 1))) else None
    case WaitReturn => if stage.WaitActive? then Some((Done, j)) else None
    case WaitThrow => if stage.WaitActive? then Some((Thrown, j)) else None
    case _ => None
  }

  function VectorStep(stage: Stage, v: VectorLoop, ev: Event): Option<(Stage, VectorLoop)> {
    var a := ev.fields;
    match ev.kind
    case VectorCount =>
      if stage.VectorInit? && a[0] <= 65535
      then Some((if a[0] != 0 then VectorReady else Done, VectorLoop(true, a[0], Previous(a[0]), v.calls))) else None
    case VectorCall =>
      if stage.VectorReady? && a[1] == v.next then Some((VectorActive, v.(calls := v.calls + 1))) else None
    case VectorReturn =>
      if stage.VectorActive?
      then Some((if v.next != 0 then VectorReady else Done, v.(next := Previous(v.next)))) else None
    case VectorThrow => if stage.VectorActive? then Some((Thrown, v)) else None
    case _ => None
  }

  datatype Part = ToGates | ToScalars | ToJobs | ToVectors | Returns | Throws | Enters

  function PartOf(kind: Kind): Part {
    match kind
    case Admission => Enters
    case BodyReturn => Returns
    case BodyThrow => Throws
    case MainGate | ModeGate => ToGates
    case JobBound | JobCall | JobReturn | JobThrow | JobReload | WaitCall | WaitReturn | WaitThrow => ToJobs
    case VectorCount | VectorCall | VectorReturn | VectorThrow => ToVectors
    case _ => ToScalars
  }

  /** One event of an admitted body; unobserved work may throw at any point. */
  function Step(f: Frame, ev: Event): Option<Frame> {
    if !Payload(ev) then None
    else
      match PartOf(ev.kind)
      case Enters => None
      case Returns => if f.stage.Done? then Some(f) else None
      case Throws => Some(f)
      case ToGates =>
        var r := GateStep(f.stage, f.gates, ev);
        if r.None? then None else Some(f.(stage := r.value.0, gates := r.value.1))
      case ToScalars =>
        var r := ScalarStep(f.stage, f.scalar, ev);
        if r.None? then None else Some(f.(stage := r.value.0, scalar := r.value.1))
      case ToJobs =>
        var r := JobStep(f.stage, f.job, ev);
        if r.None? then None else Some(f.(stage := r.value.0, job := r.value.1))
      case ToVectors =>
        var r := VectorStep(f.stage, f.vector, ev);
        if r.None? then None else Some(f.(stage := r.value.0, vector := r.value.1))
  }

  /** The frame as the decoder holds it. A refused event leaves it as it was. */
  class Body {
    const index: nat
    const parent: Id
    var stage: Stage
    var mainObserved: bool
    var mainRaw: nat
    var scalarObserved: bool
    var scalarCount: nat
    var scalarUpper: nat
    var scalarIndex: nat
    var scalarReturn: nat
    var modeObserved: bool
    var modeRaw: nat
    var boundObserved: bool
    var jobBound: nat
    var nextJob: nat
    var jobReturn: nat
    var vectorObserved: bool
    var vectorCount: nat
    var nextVector: nat
    var scalars: nat
    var cleanups: nat
    var jobs: nat
    var waits: nat
    var vectors: nat

    function GateValue(): Gates
      reads this`mainObserved, this`mainRaw, this`modeObserved, this`modeRaw
    {
      Gates(mainObserved, mainRaw, modeObserved, modeRaw)
    }

    function ScalarValue(): ScalarLoop
      reads this`scalarObserved, this`scalarCount, this`scalarUpper, this`scalarIndex, this`scalarReturn, this`scalars,
            this`cleanups
    {
      ScalarLoop(scalarObserved, scalarCount, scalarUpper, scalarIndex, scalarReturn, scalars, cleanups)
    }

    function JobValue(): JobLoop
      reads this`boundObserved, this`jobBound, this`nextJob, this`jobReturn, this`jobs, this`waits
    {
      JobLoop(boundObserved, jobBound, nextJob, jobReturn, jobs, waits)
    }

    function VectorValue(): VectorLoop
      reads this`vectorObserved, this`vectorCount, this`nextVector, this`vectors
    {
      VectorLoop(vectorObserved, vectorCount, nextVector, vectors)
    }

    function Value(): Frame
      reads this
    {
      Frame(index, parent, stage, GateValue(), ScalarValue(), JobValue(), VectorValue())
    }

    constructor (index: nat, parent: Id)
      ensures Value() == NewFrame(index, parent)
    {
      this.index, this.parent, stage := index, parent, Begun;
      mainObserved, mainRaw := false, 0;
      scalarObserved, scalarCount, scalarUpper, scalarIndex, scalarReturn := false, 0, 0, 0, 0;
      modeObserved, modeRaw := false, 0;
      boundObserved, jobBound, nextJob, jobReturn := false, 0, 0, 0;
      vectorObserved, vectorCount, nextVector := false, 0, 0;
      scalars, cleanups, jobs, waits, vectors := 0, 0, 0, 0, 0;
    }

    method GatePart(ev: Event) returns (ok: bool)
      modifies this`stage, this`mainObserved, this`mainRaw, this`modeObserved, this`modeRaw
      ensures ok <==> GateStep(old(stage), old(GateValue()), ev).Some?
      ensures (stage, GateValue()) ==
              if ok then GateStep(old(stage), old(GateValue()), ev).value else (old(stage), old(GateValue()))
    {
      var raw := ev.fields[0];
      ok := true;
      match ev.kind
      case MainGate =>
        if !stage.Begun? || raw > 255 { return false; }
        mainObserved, mainRaw, stage := true, raw, if raw != 0 then MainSet else Done;
      case ModeGate =>
        if !stage.ScalarReady? || raw > 255 { return false; }
        modeObserved, modeRaw, stage := true, raw, if raw != 0 then VectorInit else JobInit;
      case _ =>
        ok := false;
    }

    method ScalarPart(ev: Event) returns (ok: bool)
      modifies this`stage, this`scalarObserved, this`scalarCount, this`scalarUpper, this`scalarIndex,
               this`scalarReturn, this`scalars, this`cleanups
      ensures ok <==> ScalarStep(old(stage), old(ScalarValue()), ev).Some?
      ensures (stage, ScalarValue()) ==
              if ok then ScalarStep(old(stage), old(ScalarValue()), ev).value else (old(stage), old(ScalarValue()))
    {
      var a := ev.fields;
      ok := true;
      match ev.kind
      case ScalarCount =>
        if !stage.MainSet? || a[0] > 65535 { return false; }
        scalarObserved, scalarCount, scalarUpper, stage := true, a[0], a[0], ScalarReady;
      case ScalarCall =>
        if !stage.ScalarReady? || a[1] >= scalarUpper { return false; }
        scalarIndex, scalarUpper, stage := a[1], a[1], ScalarActive;
        scalars := scalars + 1;
      case ScalarReturn =>
        if !stage.ScalarActive? { return false; }
        scalarReturn, stage := a[0], if a[0] % 256 == 0 then CleanupReady else ScalarReady;
      case ScalarThrow =>
        if !stage.ScalarActive? { return false; }
        stage := Thrown;
      case CleanupCall =>
        if !stage.CleanupReady? { return false; }
        cleanups := cleanups + 1;
        stage := CleanupActive;
      case CleanupReturn =>
        if !stage.CleanupActive? { return false; }
        stage := ScalarReady;
      case CleanupThrow =>
        if !stage.CleanupActive? { return false; }
        stage := Thrown;
      case _ =>
        ok := false;
    }

    method JobPart(ev: Event) returns (ok: bool)
      modifies this`stage, this`boundObserved, this`jobBound, this`nextJob, this`jobReturn, this`jobs, this`waits
      ensures ok <==> JobStep(old(stage), old(JobValue()), ev).Some?
      ensures (stage, JobValue()) ==
              if ok then JobStep(old(stage), old(JobValue()), ev).value else (old(stage), old(JobValue()))
    {
      var a := ev.fields;
      ok := true;
      match ev.kind
      case JobBound | JobReload =>
        if stage != (if ev.kind.JobBound? then JobInit else JobReloading) || a[0] > U32 { return false; }
        var bound: int := if a[0] >= TWO31 then a[0] - 2 * TWO31 else a[0];
        boundObserved, jobBound := true, a[0];
        stage := if bound > 0 && nextJob < bound then JobReady else WaitReady;
      case JobCall =>
        if !stage.JobReady? || a[1] != nextJob || a[8] > U32 { return false; }
        jobs := jobs + 1;
        stage := JobActive;
      case JobReturn =>
        if !stage.JobActive? { return false; }
        jobReturn, nextJob, stage := a[0], nextJob + 1, JobReloading;
      case JobThrow =>
        if !stage.JobActive? { return false; }
        stage := Thrown;
      case WaitCall =>
        if !stage.WaitReady? || a[1] != jobBound || a[3] != 1 { return false; }
        waits := waits + 1;
        stage := WaitActive;
      case WaitReturn =>
        if !stage.WaitActive? { return false; }
        stage := Done;
      case WaitThrow =>
        if !stage.WaitActive? { return false; }
        stage := Thrown;
      case _ =>
        ok := false;
    }

    method VectorPart(ev: Event) returns (ok: bool)
      modifies this`stage, this`vectorObserved, this`vectorCount, this`nextVector, this`vectors
      ensures ok <==> VectorStep(old(stage), old(VectorValue()), ev).Some?
      ensures (stage, VectorValue()) ==
              if ok then VectorStep(old(stage), old(VectorValue()), ev).value else (old(stage), old(VectorValue()))
    {
      var a := ev.fields;
      ok := true;
      match ev.kind
      case VectorCount =>
        if !stage.VectorInit? || a[0] > 65535 { return false; }
        vectorObserved, vectorCount, nextVector := true, a[0], Previous(a[0]);
        stage := if a[0] != 0 then VectorReady else Done;
      case VectorCall =>
        if !stage.VectorReady? || a[1] != nextVector { return false; }
        vectors := vectors + 1;
        stage := VectorActive;
      case VectorReturn =>
        if !stage.VectorActive? { return false; }
        stage := if nextVector != 0 then VectorReady else Done;
        nextVector := Previous(nextVector);
      case VectorThrow =>
        if !stage.VectorActive? { return false; }
        stage := Thrown;
      case _ =>
        ok := false;
    }

    method Accept(ev: Event) returns (ok: bool)
      modifies this
      ensures ok <==> Step(old(Value()), ev).Some?
      ensures Value() == if ok then Step(old(Value()), ev).value else old(Value())
    {
      hide GateStep, ScalarStep, JobStep, VectorStep, Payload, GateValue, ScalarValue, JobValue, VectorValue, PartOf;
      if !Payload(ev) { return false; }
      match PartOf(ev.kind)
      case Enters => ok := false;
      case Returns => ok := stage.Done?;
      case Throws => ok := true;
      case ToGates => ok := GatePart(ev);
      case ToScalars => ok := ScalarPart(ev);
      case ToJobs => ok := JobPart(ev);
      case ToVectors => ok := VectorPart(ev);
    }
  }
}
