/**
 A live engine session over a line transport: the object whose methods write requests, validate
 responses and discard the session on a fault (bench-runner, session.rs).
 */
module Session {
  import opened Wrappers
  import opened Protocol
  import opened Wire
  import opened Mock
  import opened FreeRun
  import opened SessionSpec

  /** The transports a session can run over. */
  datatype Transport = Scripted(script: ScriptedTransport) | Mocked(mock: MockEngine)

  ghost function Footprint(t: Transport): set<object> {
    match t
    case Scripted(s) => {s}
    case Mocked(m) => {m}
  }

  ghost function PeerOf(t: Transport): Peer
    reads Footprint(t)
  {
    match t
    case Scripted(s) => s.AsPeer()
    case Mocked(m) => m.AsPeer()
  }

  method WriteLine(t: Transport, req: WorkerRequest) returns (ok: bool)
    modifies Footprint(t)
    ensures (PeerOf(t), ok) == PeerWrite(old(PeerOf(t)), req)
  {
    match t
    case Scripted(s) => ok := s.WriteLine(req);
    case Mocked(m) => ok := m.WriteLine(req);
  }

  method ReadLine(t: Transport) returns (event: Event)
    modifies Footprint(t)
    ensures (PeerOf(t), event) == PeerRead(old(PeerOf(t)))
  {
    match t
    case Scripted(s) => event := s.ReadLine();
    case Mocked(m) => event := m.ReadLine();
  }

  /** Read lines until one looks like a response, and decode it. */
  method ReadResponseLine(t: Transport, deadline: Option<real>) returns (r: Result<WorkerResponse, RunnerError>)
    modifies Footprint(t)
    ensures (PeerOf(t), r) == ReadResponse(old(PeerOf(t)), deadline)
  {
    while true
      invariant ReadResponse(PeerOf(t), deadline) == ReadResponse(old(PeerOf(t)), deadline)
      decreases |PeerOf(t).inbox|
    {
      var event := ReadLine(t);
      match event
      case TimedOut => return Err(RunTimeout(if deadline.Some? then deadline.value else 0.0));
      case Eof => return Err(Protocol(ClosedStream));
      case Broken => return Err(Io);
      case LogLine =>
      case Undecodable => return Err(Protocol(UndecodableLine));
      case Message(resp) => return Ok(resp);
    }
  }

  /** A verb's response as a reply. */
  ghost function Lifted(r: Result<WorkerResponse, RunnerError>): Result<Reply, RunnerError> {
    match r
    case Ok(resp) => Ok(Response(resp))
    case Err(e) => Err(e)
  }

  class EngineSession {
    const transport: Transport
    const nonce: string
    const capabilities: seq<string>
    const specModes: seq<string>
    const maxBatchSize: Option<u32>
    var nextId: int
    var issuedSteps: int
    var runDeadline: Option<real>
    var discarded: bool

    ghost function State(): SessionState
      reads this
    {
      SessionState(nonce, nextId, issuedSteps, capabilities, specModes, maxBatchSize, runDeadline, discarded)
    }

    ghost function AsWorld(): World
      reads this, Footprint(transport)
    {
      World(State(), PeerOf(transport))
    }

    ghost predicate Valid() {
      this !in Footprint(transport)
    }

    constructor (transport: Transport, hello: WorkerResponse, nonce: string)
      ensures this.transport == transport
      ensures State() == SessionState(
                nonce, 1, 0,
                if hello.capabilities.Some? then hello.capabilities.value else [],
                if hello.specModes.Some? then hello.specModes.value else [],
                hello.maxBatchSize, None, false)
    {
      this.transport := transport;
      this.nonce := nonce;
      capabilities := if hello.capabilities.Some? then hello.capabilities.value else [];
      specModes := if hello.specModes.Some? then hello.specModes.value else [];
      maxBatchSize := hello.maxBatchSize;
      nextId := 1;
      issuedSteps := 0;
      runDeadline := None;
      discarded := false;
    }

    method ArmRunDeadline(budget: real)
      requires Valid()
      modifies this
      ensures AsWorld() == Exec(old(AsWorld()), Call.ArmRunDeadline(budget)).0
    {
      runDeadline := Some(budget);
    }

    method DisarmRunDeadline()
      requires Valid()
      modifies this
      ensures AsWorld() == Exec(old(AsWorld()), Call.DisarmRunDeadline).0
    {
      runDeadline := None;
    }

    method BeginPhase()
      requires Valid()
      modifies this
      ensures AsWorld() == Exec(old(AsWorld()), Call.BeginPhase).0
    {
      issuedSteps := 0;
    }

    // ---- one exchange -------------------------------------------------------

    method SendInner(req: WorkerRequest) returns (r: Result<WorkerResponse, RunnerError>)
      requires Valid()
      modifies Footprint(transport)
      ensures (AsWorld(), r) == SessionSpec.SendInner(old(AsWorld()), req)
    {
      var ok := WriteLine(transport, req);
      if !ok {
        return Err(Io);
      }
      r := ReadResponseLine(transport, runDeadline);
      if r.Err? {
        return;
      }
      var resp := r.value;
      if resp.id == -1 && !resp.ok {
        return Err(Engine(req.kind));
      }
      if resp.nonce != Some(nonce) {
        return Err(NonceMismatch(nonce, resp.nonce));
      }
      if resp.id != req.id {
        return Err(Protocol(IdMismatch(resp.id)));
      }
      if !resp.ok {
        return Err(Engine(req.kind));
      }
    }

    method Send(request: WorkerRequest) returns (r: Result<WorkerResponse, RunnerError>)
      requires Valid()
      modifies this, Footprint(transport)
      ensures (AsWorld(), r) == SendStep(old(AsWorld()), request)
    {
      if IsTimedStep(request.kind) {
        issuedSteps := issuedSteps + 1;
      }
      if discarded {
        return Err(SessionDiscarded);
      }
      var id := nextId;
      nextId := nextId + 1;
      r := SendInner(request.(id := id));
      if r.Err? {
        discarded := true;
      }
    }

    // ---- gates and echo checks ------------------------------------------------

    method RequireCapability(capability: string) returns (e: Option<RunnerError>)
      requires Valid()
      modifies this
      ensures e == SessionSpec.RequireCapability(old(State()), capability)
      ensures AsWorld() == if e.Some? then Discard(old(AsWorld())) else old(AsWorld())
    {
      if capability !in capabilities {
        discarded := true;
        return Some(CapabilityNotAdvertised(capability));
      }
      return None;
    }

    method RequireSpecModeRunnable(spec: Option<SpecConfig>) returns (e: Option<RunnerError>)
      requires Valid()
      modifies this
      ensures e == RequireSpecMode(old(State()), spec)
      ensures AsWorld() == if e.Some? then Discard(old(AsWorld())) else old(AsWorld())
    {
      if spec.None? { return None; }
      if spec.value.mode == SPEC_MODE_SERIAL { return None; }
      if spec.value.mode in specModes { return None; }
      discarded := true;
      return Some(SpecModeNotRunnable(spec.value.mode));
    }

    method RequireSpecEcho(spec: Option<SpecConfig>, resp: WorkerResponse) returns (e: Option<RunnerError>)
      requires Valid()
      modifies this
      ensures e == SessionSpec.RequireSpecEcho(spec, resp)
      ensures AsWorld() == if e.Some? then Discard(old(AsWorld())) else old(AsWorld())
    {
      if spec.None? { return None; }
      if resp.effectiveSpec.Some? && SpecEchoHonorsRequest(spec.value, resp.effectiveSpec.value) { return None; }
      discarded := true;
      return Some(SpecEchoDivergence(spec.value, resp.effectiveSpec));
    }

    method RequireBatchEcho(requested: u32, resp: WorkerResponse) returns (e: Option<RunnerError>)
      requires Valid()
      modifies this
      ensures e == SessionSpec.RequireBatchEcho(requested, resp)
      ensures AsWorld() == if e.Some? then Discard(old(AsWorld())) else old(AsWorld())
    {
      if resp.effectiveBatchSize == Some(requested) { return None; }
      discarded := true;
      return Some(BatchEchoDivergence(requested, resp.effectiveBatchSize));
    }

    method RequireTopLogitsK(resp: WorkerResponse) returns (e: Option<RunnerError>)
      requires Valid()
      modifies this
      ensures e == RequireTopLogits(resp)
      ensures AsWorld() == if e.Some? then Discard(old(AsWorld())) else old(AsWorld())
    {
      var n := if resp.topLogits.Some? then |resp.topLogits.value| else 0;
      if n != TOP_LOGITS_K {
        discarded := true;
        return Some(Protocol(TopLogitsCount(n)));
      }
      return None;
    }

    method RequireDrained(diag: WorkerResponse) returns (e: Option<RunnerError>)
      requires Valid()
      modifies this
      ensures e == SessionSpec.RequireDrained(diag)
      ensures AsWorld() == if e.Some? then Discard(old(AsWorld())) else old(AsWorld())
    {
      if diag.cacheMemory.Some? && diag.cacheMemory.value != 0 {
        discarded := true;
        return Some(AllocatorCacheNotDrained(diag.cacheMemory.value));
      }
      return None;
    }

    // ---- the verbs ------------------------------------------------------------

    method Prefill(prompt: seq<int>) returns (r: Result<WorkerResponse, RunnerError>)
      requires Valid()
      modifies this, Footprint(transport)
      ensures (AsWorld(), Lifted(r)) == Exec(old(AsWorld()), Call.Prefill(prompt))
    {
      var req := NewRequest(RequestKind.Prefill).(promptTokens := Some(prompt));
      r := Send(req);
    }

    method DecodeBegin(seed: seq<int>, spec: Option<SpecConfig>) returns (r: Result<WorkerResponse, RunnerError>)
      requires Valid()
      modifies this, Footprint(transport)
      ensures (AsWorld(), Lifted(r)) == Exec(old(AsWorld()), Call.DecodeBegin(seed, spec))
    {
      var e := RequireSpecModeRunnable(spec);
      if e.Some? { return Err(e.value); }
      var req := NewRequest(RequestKind.DecodeBegin).(seedTokens := Some(seed), spec := spec);
      r := Send(req);
      if r.Err? { return; }
      e := RequireSpecEcho(spec, r.value);
      if e.Some? { return Err(e.value); }
    }

    method DecodeStep(token: int) returns (r: Result<WorkerResponse, RunnerError>)
      requires Valid()
      modifies this, Footprint(transport)
      ensures (AsWorld(), Lifted(r)) == Exec(old(AsWorld()), Call.DecodeStep(token))
    {
      var req := NewRequest(RequestKind.DecodeStep).(token := Some(token));
      r := Send(req);
    }

    method FreeDecodeBegin(seed: seq<int>, spec: Option<SpecConfig>) returns (r: Result<WorkerResponse, RunnerError>)
      requires Valid()
      modifies this, Footprint(transport)
      ensures (AsWorld(), Lifted(r)) == Exec(old(AsWorld()), Call.FreeDecodeBegin(seed, spec))
    {
      var e := RequireCapability(CAPABILITY_FREE_RUN_DECODE);
      if e.Some? { return Err(e.value); }
      e := RequireSpecModeRunnable(spec);
      if e.Some? { return Err(e.value); }
      var req := NewRequest(RequestKind.FreeDecodeBegin).(seedTokens := Some(seed), spec := spec);
      r := Send(req);
      if r.Err? { return; }
      e := RequireSpecEcho(spec, r.value);
      if e.Some? { return Err(e.value); }
    }

    method FreeDecodeRun(count: u32) returns (r: Result<WorkerResponse, RunnerError>)
      requires Valid()
      modifies this, Footprint(transport)
      ensures (AsWorld(), Lifted(r)) == Exec(old(AsWorld()), Call.FreeDecodeRun(count))
    {
      var e := RequireCapability(CAPABILITY_FREE_RUN_DECODE);
      if e.Some? { return Err(e.value); }
      var req := NewRequest(RequestKind.FreeDecodeRun).(count := Some(count));
      r := Send(req);
    }

    method FreeDecodeBeginBatched(seeds: seq<seq<int>>, batchSize: u32, spec: Option<SpecConfig>)
      returns (r: Result<WorkerResponse, RunnerError>)
      requires Valid()
      modifies this, Footprint(transport)
      ensures (AsWorld(), Lifted(r)) == Exec(old(AsWorld()), Call.FreeDecodeBeginBatched(seeds, batchSize, spec))
    {
      var e := RequireCapability(CAPABILITY_BATCHED_FREE_RUN_DECODE);
      if e.Some? { return Err(e.value); }
      e := RequireSpecModeRunnable(spec);
      if e.Some? { return Err(e.value); }
      var req := NewRequest(RequestKind.FreeDecodeBegin)
      .(seedTokensByStream := Some(seeds), batchSize := Some(batchSize), spec := spec);
      r := Send(req);
      if r.Err? { return; }
      e := RequireSpecEcho(spec, r.value);
      if e.Some? { return Err(e.value); }
      e := RequireBatchEcho(batchSize, r.value);
      if e.Some? { return Err(e.value); }
    }

    method FreeDecodeRunBatched(count: u32, batchSize: u32) returns (r: Result<WorkerResponse, RunnerError>)
      requires Valid()
      modifies this, Footprint(transport)
      ensures (AsWorld(), Lifted(r)) == Exec(old(AsWorld()), Call.FreeDecodeRunBatched(count, batchSize))
    {
      var e := RequireCapability(CAPABILITY_BATCHED_FREE_RUN_DECODE);
      if e.Some? { return Err(e.value); }
      var req := NewRequest(RequestKind.FreeDecodeRun).(count := Some(count), batchSize := Some(batchSize));
      r := Send(req);
      if r.Err? { return; }
      var echoed := r.value.effectiveBatchSize;
      if echoed.Some? && echoed.value != batchSize {
        discarded := true;
        return Err(BatchEchoDivergence(batchSize, echoed));
      }
    }

    method CohortReferenceReplay(seeds: seq<seq<int>>, committed: seq<seq<int>>)
      returns (r: Result<ReplayReport, RunnerError>)
      requires Valid()
      modifies this, Footprint(transport)
      ensures (AsWorld(), match r case Ok(report) => Ok(Report(report)) case Err(e) => Err(e))
              == Exec(old(AsWorld()), Call.CohortReferenceReplay(seeds, committed))
    {
      var e := RequireCapability(CAPABILITY_COHORT_REFERENCE_REPLAY);
      if e.Some? { return Err(e.value); }
      var req := NewRequest(RequestKind.CohortReferenceReplay)
      .(replaySeedsByStream := Some(seeds), committedByStream := Some(committed),
        replayWidth := Some(REPLAY_WIDTH_COHORT));
      var sent := Send(req);
      if sent.Err? { return Err(sent.error); }
      var report := sent.value.cohortReferenceReplay;
      if report.None? {
        return Err(Protocol(ReplayReportMissing));
      }
      var echoed := report.value.replayWidth;
      if echoed.Some? && echoed.value != REPLAY_WIDTH_COHORT {
        return Err(Protocol(ReplayWidthDivergence(echoed.value)));
      }
      return Ok(report.value);
    }

    method Correctness(prompt: seq<int>, steps: int) returns (r: Result<WorkerResponse, RunnerError>)
      requires Valid()
      modifies this, Footprint(transport)
      ensures (AsWorld(), Lifted(r)) == Exec(old(AsWorld()), Call.Correctness(prompt, steps))
    {
      var req := NewRequest(RequestKind.Correctness).(promptTokens := Some(prompt), steps := Some(steps));
      r := Send(req);
    }

    method CorrectnessBegin(prompt: seq<int>) returns (r: Result<WorkerResponse, RunnerError>)
      requires Valid()
      modifies this, Footprint(transport)
      ensures (AsWorld(), Lifted(r)) == Exec(old(AsWorld()), Call.CorrectnessBegin(prompt))
    {
      var req := NewRequest(RequestKind.CorrectnessBegin).(promptTokens := Some(prompt));
      r := Send(req);
      if r.Err? { return; }
      var e := RequireTopLogitsK(r.value);
      if e.Some? { return Err(e.value); }
    }

    method CorrectnessStep(token: int) returns (r: Result<WorkerResponse, RunnerError>)
      requires Valid()
      modifies this, Footprint(transport)
      ensures (AsWorld(), Lifted(r)) == Exec(old(AsWorld()), Call.CorrectnessStep(token))
    {
      var req := NewRequest(RequestKind.CorrectnessStep).(token := Some(token));
      r := Send(req);
      if r.Err? { return; }
      var e := RequireTopLogitsK(r.value);
      if e.Some? { return Err(e.value); }
    }

    method PhaseDiagnosticsRaw() returns (r: Result<WorkerResponse, RunnerError>)
      requires Valid()
      modifies this, Footprint(transport)
      ensures (AsWorld(), Lifted(r)) == Exec(old(AsWorld()), Call.PhaseDiagnosticsRaw)
      ensures (AsWorld(), r) == SendStep(old(AsWorld()), NewRequest(PhaseDiagnostics))
    {
      r := Send(NewRequest(PhaseDiagnostics));
    }

    // ---- the phase-close barriers ---------------------------------------------

    method ClosePhase() returns (r: Result<WorkerResponse, RunnerError>)
      requires Valid()
      modifies this, Footprint(transport)
      ensures (AsWorld(), Lifted(r)) == Exec(old(AsWorld()), Call.ClosePhase)
    {
      hide SendStep;
      r := PhaseDiagnosticsRaw();
      if r.Err? { return; }
      var e := RequireDrained(r.value);
      if e.Some? { return Err(e.value); }
      if r.value.completedWork == Some(issuedSteps) {
        issuedSteps := 0;
      } else {
        discarded := true;
        return Err(CompletedWorkMismatch(issuedSteps, r.value.completedWork));
      }
    }

    method CloseFreeRunPhase(resp: FreeRunResponse, n: u32)
      returns (r: Result<(FreeRunAudit, WorkerResponse), RunnerError>)
      requires Valid()
      modifies this, Footprint(transport)
      ensures (AsWorld(), match r case Ok(p) => Ok(Audited(p.0, p.1)) case Err(e) => Err(e))
              == Exec(old(AsWorld()), Call.CloseFreeRunPhase(resp, n))
    {
      hide SendStep, Consistent, AuditOf;
      var sent := PhaseDiagnosticsRaw();
      if sent.Err? { return Err(sent.error); }
      var diag := sent.value;
      var e := RequireDrained(diag);
      if e.Some? { return Err(e.value); }
      if diag.completedWork.None? {
        discarded := true;
        return Err(FreeRunConsistency);
      }
      issuedSteps := 0;
      var verdict := VerifyConsistency(resp, n, diag.completedWork.value);
      if verdict.Err? {
        discarded := true;
        return Err(FreeRunConsistency);
      }
      return Ok((verdict.value, diag));
    }

    method CloseBatchedFreeRunPhase(cohort: CohortFreeRunResponse, n: u32)
      returns (r: Result<(CohortFreeRunAudit, WorkerResponse), RunnerError>)
      requires Valid()
      modifies this, Footprint(transport)
      ensures (AsWorld(), match r case Ok(p) => Ok(CohortAudited(p.0, p.1)) case Err(e) => Err(e))
              == Exec(old(AsWorld()), Call.CloseBatchedFreeRunPhase(cohort, n))
    {
      hide SendStep, CohortConsistent, CohortAuditOf;
      var sent := PhaseDiagnosticsRaw();
      if sent.Err? { return Err(sent.error); }
      var diag := sent.value;
      var e := RequireDrained(diag);
      if e.Some? { return Err(e.value); }
      if diag.completedWork.None? {
        discarded := true;
        return Err(FreeRunConsistency);
      }
      issuedSteps := 0;
      var verdict := VerifyCohortConsistency(cohort, n, diag.completedWork.value);
      if verdict.Err? {
        discarded := true;
        return Err(FreeRunConsistency);
      }
      return Ok((verdict.value, diag));
    }
  }

  /** The hello handshake, then a session over the same transport. */
  method ConnectSession(t: Transport) returns (r: Result<EngineSession, RunnerError>)
    modifies Footprint(t)
    ensures PeerOf(t) == Connect(old(PeerOf(t))).0
    ensures r.Ok? <==> Connect(old(PeerOf(t))).1.Ok?
    ensures r.Ok? ==> fresh(r.value) && r.value.Valid() && r.value.transport == t
                      && r.value.State() == Connect(old(PeerOf(t))).1.value
    ensures r.Err? ==> r.error == Connect(old(PeerOf(t))).1.error
  {
    var read := ReadResponseLine(t, None);
    if read.Err? { return Err(read.error); }
    var resp := read.value;
    if resp.id != 0 { return Err(Protocol(HelloId(resp.id))); }
    if !resp.ok { return Err(Protocol(HelloNotOk)); }
    if resp.nonce.None? || resp.nonce.value == "" { return Err(Protocol(HelloNonce)); }
    if resp.protocolVersion != Some(PROTOCOL_VERSION) { return Err(Protocol(HelloVersion(resp.protocolVersion))); }
    var session := new EngineSession(t, resp, resp.nonce.value);
    return Ok(session);
  }
}
