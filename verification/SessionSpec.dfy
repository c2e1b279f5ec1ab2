/**
 The session protocol as a function from states to states, and what it keeps over every run against
 every far end (bench-runner, session.rs).
 */
module SessionSpec {
  import opened Wrappers
  import opened Protocol
  import opened Wire
  import opened Mock
  import opened FreeRun

  datatype SessionState = SessionState(
    nonce: string,
    nextId: int,
    issuedSteps: int,
    capabilities: seq<string>,
    specModes: seq<string>,
    maxBatchSize: Option<u32>,
    runDeadline: Option<real>,
    discarded: bool)

  /** A session together with the far end it talks to. */
  datatype World = World(session: SessionState, peer: Peer)

  /** The operations a caller can perform on a session. */
  datatype Call =
    | Prefill(prompt: seq<int>)
    | DecodeBegin(seed: seq<int>, spec: Option<SpecConfig>)
    | DecodeStep(token: int)
    | FreeDecodeBegin(seed: seq<int>, spec: Option<SpecConfig>)
    | FreeDecodeRun(count: u32)
    | FreeDecodeBeginBatched(seeds: seq<seq<int>>, batchSize: u32, spec: Option<SpecConfig>)
    | FreeDecodeRunBatched(count: u32, batchSize: u32)
    | CohortReferenceReplay(seeds: seq<seq<int>>, committed: seq<seq<int>>)
    | Correctness(prompt: seq<int>, steps: int)
    | CorrectnessBegin(prompt: seq<int>)
    | CorrectnessStep(token: int)
    | PhaseDiagnosticsRaw
    | ClosePhase
    | CloseFreeRunPhase(resp: FreeRunResponse, n: u32)
    | CloseBatchedFreeRunPhase(cohort: CohortFreeRunResponse, n: u32)
    | BeginPhase
    | ArmRunDeadline(budget: real)
    | DisarmRunDeadline

  datatype Reply =
    | Response(resp: WorkerResponse)
    | Report(report: ReplayReport)
    | Audited(audit: FreeRunAudit, diag: WorkerResponse)
    | CohortAudited(cohortAudit: CohortFreeRunAudit, diag: WorkerResponse)
    | Done

  /** Operations that only touch the session object. */
  predicate IsLocal(c: Call) {
    c.BeginPhase? || c.ArmRunDeadline? || c.DisarmRunDeadline?
  }

  // ---- one exchange ---------------------------------------------------------

  /** Skip log lines up to the first response line. */
  function ReadResponse(peer: Peer, deadline: Option<real>): (r: (Peer, Result<WorkerResponse, RunnerError>))
    ensures r.0.wire == peer.wire && r.0.engine == peer.engine
    decreases |peer.inbox|
  {
    var (after, event) := PeerRead(peer);
    match event
    case Message(resp) => (after, Ok(resp))
    case LogLine => ReadResponse(after, deadline)
    case Undecodable => (after, Err(Protocol(UndecodableLine)))
    case Eof => (after, Err(Protocol(ClosedStream)))
    case TimedOut => (after, Err(RunTimeout(if deadline.Some? then deadline.value else 0.0)))
    case Broken => (after, Err(Io))
  }

  /** Nonce, then id, then status; an unparseable-request answer is reported before either. */
  function CheckResponse(nonce: string, id: int, kind: RequestKind, resp: WorkerResponse)
    : Result<WorkerResponse, RunnerError>
  {
    if resp.id == -1 && !resp.ok then Err(Engine(kind))
    else if resp.nonce != Some(nonce) then Err(NonceMismatch(nonce, resp.nonce))
    else if resp.id != id then Err(Protocol(IdMismatch(resp.id)))
    else if !resp.ok then Err(Engine(kind))
    else Ok(resp)
  }

  /** Write the request and wait for a response that passes every check. */
  function SendInner(w: World, req: WorkerRequest): (World, Result<WorkerResponse, RunnerError>) {
    var (written, ok) := PeerWrite(w.peer, req);
    if !ok then (w.(peer := written), Err(Io))
    else
      var (after, read) := ReadResponse(written, w.session.runDeadline);
      match read
      case Err(e) => (w.(peer := after), Err(e))
      case Ok(resp) => (w.(peer := after), CheckResponse(w.session.nonce, req.id, req.kind, resp))
  }

  function Discard(w: World): World {
    w.(session := w.session.(discarded := true))
  }

  function SendStep(w: World, req: WorkerRequest): (World, Result<WorkerResponse, RunnerError>) {
    var s := w.session;
    var counted := if IsTimedStep(req.kind) then s.(issuedSteps := s.issuedSteps + 1) else s;
    if s.discarded then (w.(session := counted), Err(SessionDiscarded))
    else
      var numbered := counted.(nextId := s.nextId + 1);
      var (after, r) := SendInner(w.(session := numbered), req.(id := s.nextId));
      if r.Err? then (Discard(after), r) else (after, r)
  }

  // ---- gates and checks around it ----------------------------------------------

  function RequireCapability(s: SessionState, capability: string): Option<RunnerError> {
    if capability in s.capabilities then None else Some(CapabilityNotAdvertised(capability))
  }

  function RequireSpecMode(s: SessionState, spec: Option<SpecConfig>): Option<RunnerError> {
    if spec.None? || spec.value.mode == SPEC_MODE_SERIAL || spec.value.mode in s.specModes then None
    else Some(SpecModeNotRunnable(spec.value.mode))
  }

  function FirstOf(a: Option<RunnerError>, b: Option<RunnerError>): Option<RunnerError> {
    if a.Some? then a else b
  }

  /** The refusal issued before anything is sent, if any. */
  function Refusal(s: SessionState, c: Call): Option<RunnerError> {
    match c
    case DecodeBegin(_, spec) => RequireSpecMode(s, spec)
    case FreeDecodeBegin(_, spec) => FirstOf(RequireCapability(s, CAPABILITY_FREE_RUN_DECODE), RequireSpecMode(s, spec))
    case FreeDecodeRun(_) => RequireCapability(s, CAPABILITY_FREE_RUN_DECODE)
    case FreeDecodeBeginBatched(_, _, spec) =>
      FirstOf(RequireCapability(s, CAPABILITY_BATCHED_FREE_RUN_DECODE), RequireSpecMode(s, spec))
    case FreeDecodeRunBatched(_, _) => RequireCapability(s, CAPABILITY_BATCHED_FREE_RUN_DECODE)
    case CohortReferenceReplay(_, _) => RequireCapability(s, CAPABILITY_COHORT_REFERENCE_REPLAY)
    case _ => None
  }

  function RequestFor(c: Call): WorkerRequest
    requires !IsLocal(c)
  {
    match c
    case Prefill(prompt) => NewRequest(RequestKind.Prefill).(promptTokens := Some(prompt))
    case DecodeBegin(seed, spec) => NewRequest(RequestKind.DecodeBegin).(seedTokens := Some(seed), spec := spec)
    case DecodeStep(token) => NewRequest(RequestKind.DecodeStep).(token := Some(token))
    case FreeDecodeBegin(seed, spec) => NewRequest(RequestKind.FreeDecodeBegin).(seedTokens := Some(seed), spec := spec)
    case FreeDecodeRun(count) => NewRequest(RequestKind.FreeDecodeRun).(count := Some(count))
    case FreeDecodeBeginBatched(seeds, b, spec) =>
      NewRequest(RequestKind.FreeDecodeBegin).(seedTokensByStream := Some(seeds), batchSize := Some(b), spec := spec)
    case FreeDecodeRunBatched(count, b) =>
      NewRequest(RequestKind.FreeDecodeRun).(count := Some(count), batchSize := Some(b))
    case CohortReferenceReplay(seeds, committed) =>
      NewRequest(RequestKind.CohortReferenceReplay).(
        replaySeedsByStream := Some(seeds), committedByStream := Some(committed),
        replayWidth := Some(REPLAY_WIDTH_COHORT))
    case Correctness(prompt, steps) =>
      NewRequest(RequestKind.Correctness).(promptTokens := Some(prompt), steps := Some(steps))
    case CorrectnessBegin(prompt) => NewRequest(RequestKind.CorrectnessBegin).(promptTokens := Some(prompt))
    case CorrectnessStep(token) => NewRequest(RequestKind.CorrectnessStep).(token := Some(token))
    case PhaseDiagnosticsRaw => NewRequest(PhaseDiagnostics)
    case ClosePhase => NewRequest(PhaseDiagnostics)
    case CloseFreeRunPhase(_, _) => NewRequest(PhaseDiagnostics)
    case CloseBatchedFreeRunPhase(_, _) => NewRequest(PhaseDiagnostics)
  }

  function RequireSpecEcho(spec: Option<SpecConfig>, resp: WorkerResponse): Option<RunnerError> {
    if spec.None? then None
    else if resp.effectiveSpec.Some? && SpecEchoHonorsRequest(spec.value, resp.effectiveSpec.value) then None
    else Some(SpecEchoDivergence(spec.value, resp.effectiveSpec))
  }

  function RequireBatchEcho(requested: u32, resp: WorkerResponse): Option<RunnerError> {
    if resp.effectiveBatchSize == Some(requested) then None
    else Some(BatchEchoDivergence(requested, resp.effectiveBatchSize))
  }

  /** On the run the echo may be absent; a present one must agree. */
  function RequireBatchEchoIfPresent(requested: u32, resp: WorkerResponse): Option<RunnerError> {
    if resp.effectiveBatchSize.None? then None else RequireBatchEcho(requested, resp)
  }

  function RequireTopLogits(resp: WorkerResponse): Option<RunnerError> {
    var n := if resp.topLogits.Some? then |resp.topLogits.value| else 0;
    if n == TOP_LOGITS_K then None else Some(Protocol(TopLogitsCount(n)))
  }

  function RequireDrained(diag: WorkerResponse): Option<RunnerError> {
    if diag.cacheMemory.Some? && diag.cacheMemory.value != 0 then
      Some(AllocatorCacheNotDrained(diag.cacheMemory.value))
    else None
  }

  /** The check on a verb's response, beyond those every response gets. */
  function ResponseFault(c: Call, resp: WorkerResponse): Option<RunnerError> {
    match c
    case DecodeBegin(_, spec) => RequireSpecEcho(spec, resp)
    case FreeDecodeBegin(_, spec) => RequireSpecEcho(spec, resp)
    case FreeDecodeBeginBatched(_, b, spec) => FirstOf(RequireSpecEcho(spec, resp), RequireBatchEcho(b, resp))
    case FreeDecodeRunBatched(_, b) => RequireBatchEchoIfPresent(b, resp)
    case CorrectnessBegin(_) => RequireTopLogits(resp)
    case CorrectnessStep(_) => RequireTopLogits(resp)
    case ClosePhase => RequireDrained(resp)
    case CloseFreeRunPhase(_, _) => RequireDrained(resp)
    case CloseBatchedFreeRunPhase(_, _) => RequireDrained(resp)
    case _ => None
  }

  /** The replay report's own checks, which refuse the report without touching the session. */
  function ReplayOutcome(resp: WorkerResponse): Result<Reply, RunnerError> {
    match resp.cohortReferenceReplay
    case None => Err(Protocol(ReplayReportMissing))
    case Some(report) =>
      if report.replayWidth.None? || report.replayWidth.value == REPLAY_WIDTH_COHORT then Ok(Report(report))
      else Err(Protocol(ReplayWidthDivergence(report.replayWidth.value)))
  }

  /** What a verb makes of a response that passed every shared check. */
  function Settle(w: World, c: Call, resp: WorkerResponse): (World, Result<Reply, RunnerError>) {
    var s := w.session;
    var rested := w.(session := s.(issuedSteps := 0));
    match ResponseFault(c, resp)
    case Some(e) => (Discard(w), Err(e))
    case None =>
      match c
      case CohortReferenceReplay(_, _) => (w, ReplayOutcome(resp))
      case ClosePhase =>
        if resp.completedWork == Some(s.issuedSteps) then (rested, Ok(Response(resp)))
        else (Discard(w), Err(CompletedWorkMismatch(s.issuedSteps, resp.completedWork)))
      case CloseFreeRunPhase(run, n) =>
        if resp.completedWork.None? then (Discard(w), Err(FreeRunConsistency))
        else if Consistent(run, n, resp.completedWork.value) then (rested, Ok(Audited(AuditOf(run, n), resp)))
        else (Discard(rested), Err(FreeRunConsistency))
      case CloseBatchedFreeRunPhase(cohort, n) =>
        if resp.completedWork.None? then (Discard(w), Err(FreeRunConsistency))
        else if CohortConsistent(cohort, n, resp.completedWork.value) then
          (rested, Ok(CohortAudited(CohortAuditOf(cohort, n), resp)))
        else (Discard(rested), Err(FreeRunConsistency))
      case _ => (w, Ok(Response(resp)))
  }

  function LocalStep(s: SessionState, c: Call): SessionState
    requires IsLocal(c)
  {
    match c
    case BeginPhase => s.(issuedSteps := 0)
    case ArmRunDeadline(budget) => s.(runDeadline := Some(budget))
    case DisarmRunDeadline => s.(runDeadline := None)
  }

  /** One operation on a session. */
  function Exec(w: World, c: Call): (World, Result<Reply, RunnerError>) {
    if IsLocal(c) then (w.(session := LocalStep(w.session, c)), Ok(Done))
    else
      match Refusal(w.session, c)
      case Some(e) => (Discard(w), Err(e))
      case None =>
        var (sent, r) := SendStep(w, RequestFor(c));
        match r
        case Err(e) => (sent, Err(e))
        case Ok(resp) => Settle(sent, c, resp)
  }

  /** Any sequence of operations. */
  function Run(w: World, calls: seq<Call>): World
    decreases |calls|
  {
    if calls == [] then w else Run(Exec(w, calls[0]).0, calls[1..])
  }

  /** The hello handshake: id 0, ok, a non-empty nonce and the supported version, in that order. */
  function Connect(peer: Peer): (Peer, Result<SessionState, RunnerError>) {
    var (after, read) := ReadResponse(peer, None);
    match read
    case Err(e) => (after, Err(e))
    case Ok(resp) =>
      if resp.id != 0 then (after, Err(Protocol(HelloId(resp.id))))
      else if !resp.ok then (after, Err(Protocol(HelloNotOk)))
      else if resp.nonce.None? || resp.nonce.value == "" then (after, Err(Protocol(HelloNonce)))
      else if resp.protocolVersion != Some(PROTOCOL_VERSION) then (after, Err(Protocol(HelloVersion(resp.protocolVersion))))
      else
        (after, Ok(SessionState(
          resp.nonce.value, 1, 0,
          if resp.capabilities.Some? then resp.capabilities.value else [],
          if resp.specModes.Some? then resp.specModes.value else [],
          resp.maxBatchSize, None, false)))
  }

  // ---- what every run keeps ---------------------------------------------------

  /** A line the session may put on the wire, given what the hello advertised. */
  predicate LineAllowed(capabilities: seq<string>, specModes: seq<string>, req: WorkerRequest) {
    && (req.kind.FreeDecodeBegin? || req.kind.FreeDecodeRun? ==>
          (if req.batchSize.Some? then CAPABILITY_BATCHED_FREE_RUN_DECODE else CAPABILITY_FREE_RUN_DECODE)
          in capabilities)
    && (req.kind.CohortReferenceReplay? ==>
          CAPABILITY_COHORT_REFERENCE_REPLAY in capabilities && req.replayWidth == Some(REPLAY_WIDTH_COHORT))
    && (req.spec.Some? ==> req.spec.value.mode == SPEC_MODE_SERIAL || req.spec.value.mode in specModes)
  }

  /** Ids 1, 2, 3, ..., every line permitted, and the next id follows the last line while live. */
  predicate WireSafe(w: World) {
    && (forall i :: 0 <= i < |w.peer.wire| ==> w.peer.wire[i].id == i + 1)
    && (forall i :: 0 <= i < |w.peer.wire| ==>
                      LineAllowed(w.session.capabilities, w.session.specModes, w.peer.wire[i]))
    && (!w.session.discarded ==> w.session.nextId == |w.peer.wire| + 1)
  }

  /** What the hello fixed for the whole session. */
  predicate SameHello(a: SessionState, b: SessionState) {
    && a.nonce == b.nonce && a.capabilities == b.capabilities
    && a.specModes == b.specModes && a.maxBatchSize == b.maxBatchSize
  }

  /** Exactly what one exchange does: at most one line goes out, carrying the next id, and only from
      a live session. */
  lemma SendEffect(w: World, req: WorkerRequest)
    ensures var (after, r) := SendStep(w, req);
            && SameHello(after.session, w.session)
            && (w.session.discarded ==> after.session.discarded && r == Err(SessionDiscarded) && after.peer == w.peer)
            && (!w.session.discarded ==>
                  && after.session.nextId == w.session.nextId + 1
                  && after.session.discarded == r.Err?
                  && (after.peer.wire == w.peer.wire + [req.(id := w.session.nextId)]
                      || (after.peer.wire == w.peer.wire && r == Err(Io))))
            && (r.Ok? ==> r.value.nonce == Some(w.session.nonce) && r.value.id == w.session.nextId && r.value.ok
                          && after.peer.wire == w.peer.wire + [req.(id := w.session.nextId)])
  {
  }

  /** Settling changes neither the far end nor anything the hello fixed. */
  lemma SettleEffect(w: World, c: Call, resp: WorkerResponse)
    ensures var (after, r) := Settle(w, c, resp);
            && after.peer == w.peer && SameHello(after.session, w.session)
            && after.session.nextId == w.session.nextId
            && (w.session.discarded ==> after.session.discarded)
            && (r.Err? ==> after.session.discarded || (c.CohortReferenceReplay? && r == ReplayOutcome(resp)))
            && (r.Ok? ==> after.session.discarded == w.session.discarded)
  {
  }

  /** A request that no gate refused is one the hello permits. */
  lemma GatePermits(s: SessionState, c: Call, id: int)
    requires !IsLocal(c) && Refusal(s, c).None?
    ensures LineAllowed(s.capabilities, s.specModes, RequestFor(c).(id := id))
  {
  }

  /** One operation: what it may write, and that a discarded session writes nothing and stays
      discarded. */
  lemma ExecEffect(w: World, c: Call)
    ensures var after := Exec(w, c).0;
            && SameHello(after.session, w.session)
            && (w.session.discarded ==> after.session.discarded && after.peer == w.peer)
            && (after.peer.wire == w.peer.wire
                || (&& !w.session.discarded && !IsLocal(c) && Refusal(w.session, c).None?
                    && after.peer.wire == w.peer.wire + [RequestFor(c).(id := w.session.nextId)]))
            && (!after.session.discarded ==>
                  after.session.nextId == w.session.nextId + |after.peer.wire| - |w.peer.wire|)
  {
    if !IsLocal(c) && Refusal(w.session, c).None? {
      var (sent, r) := SendStep(w, RequestFor(c));
      SendEffect(w, RequestFor(c));
      if r.Ok? {
        SettleEffect(sent, c, r.value);
      }
    }
  }

  lemma ExecKeepsWireSafe(w: World, c: Call)
    requires WireSafe(w)
    ensures WireSafe(Exec(w, c).0)
  {
    ExecEffect(w, c);
    if !IsLocal(c) && Refusal(w.session, c).None? {
      GatePermits(w.session, c, w.session.nextId);
    }
  }

  /** Over every sequence of operations against every far end: ids on the wire are 1, 2, 3, ..., and
      every line is one the hello permits. */
  lemma {:induction false} RunKeepsWireSafe(w: World, calls: seq<Call>)
    requires WireSafe(w)
    ensures WireSafe(Run(w, calls)) && SameHello(Run(w, calls).session, w.session)
    decreases |calls|
  {
    if calls != [] {
      ExecKeepsWireSafe(w, calls[0]);
      ExecEffect(w, calls[0]);
      RunKeepsWireSafe(Exec(w, calls[0]).0, calls[1..]);
    }
  }

  /** A connected session starts wire-safe, whatever the far end sent. */
  lemma ConnectedWireSafe(peer: Peer)
    requires peer.wire == [] && Connect(peer).1.Ok?
    ensures WireSafe(World(Connect(peer).1.value, Connect(peer).0))
  {
  }

  /** Once discarded, always discarded, and neither written to nor read from again. */
  lemma {:induction false} DiscardIsForever(w: World, calls: seq<Call>)
    requires w.session.discarded
    ensures Run(w, calls).session.discarded && Run(w, calls).peer == w.peer
    decreases |calls|
  {
    if calls != [] {
      ExecEffect(w, calls[0]);
      DiscardIsForever(Exec(w, calls[0]).0, calls[1..]);
    }
  }

  /** The lines written only ever grow, by whole lines. */
  lemma {:induction false} WireGrows(w: World, calls: seq<Call>)
    ensures w.peer.wire <= Run(w, calls).peer.wire
    ensures |Run(w, calls).peer.wire| <= |w.peer.wire| + |calls|
    decreases |calls|
  {
    if calls != [] {
      ExecEffect(w, calls[0]);
      WireGrows(Exec(w, calls[0]).0, calls[1..]);
    }
  }

  /** The response a reply was made from. */
  predicate RepliesWith(reply: Reply, resp: WorkerResponse) {
    match reply
    case Response(r) => r == resp
    case Report(report) => resp.cohortReferenceReplay == Some(report)
    case Audited(_, diag) => diag == resp
    case CohortAudited(_, diag) => diag == resp
    case Done => false
  }

  /** An operation that succeeds was answered by a response echoing the session's nonce and its own
      id, with ok set, to the line it wrote last. */
  lemma OkMeansEchoed(w: World, c: Call) returns (resp: WorkerResponse)
    requires !IsLocal(c) && Exec(w, c).1.Ok?
    ensures RepliesWith(Exec(w, c).1.value, resp)
    ensures resp.nonce == Some(w.session.nonce) && resp.id == w.session.nextId && resp.ok
    ensures !w.session.discarded
    ensures Exec(w, c).0.peer.wire == w.peer.wire + [RequestFor(c).(id := resp.id)]
    ensures ResponseFault(c, resp).None?
  {
    SendEffect(w, RequestFor(c));
    resp := SendStep(w, RequestFor(c)).1.value;
    SettleEffect(SendStep(w, RequestFor(c)).0, c, resp);
  }

  /** The one way an operation can fail and leave the session usable: a reference-replay response that
      passed every shared check but carries no report, or one replayed at another width. */
  predicate RefusesReportOnly(w: World, c: Call) {
    && c.CohortReferenceReplay?
    && !w.session.discarded
    && CAPABILITY_COHORT_REFERENCE_REPLAY in w.session.capabilities
    && var r := SendStep(w, RequestFor(c)).1;
    && r.Ok?
    && (r.value.cohortReferenceReplay.None?
        || (r.value.cohortReferenceReplay.value.replayWidth.Some?
            && r.value.cohortReferenceReplay.value.replayWidth.value != REPLAY_WIDTH_COHORT))
  }

  /** Every failed operation discards the session, except exactly the refused replay reports. */
  lemma FailureDiscardsExactly(w: World, c: Call)
    requires Exec(w, c).1.Err?
    ensures Exec(w, c).0.session.discarded <==> !RefusesReportOnly(w, c)
  {
    if Refusal(w.session, c).None? {
      var (sent, r) := SendStep(w, RequestFor(c));
      SendEffect(w, RequestFor(c));
      if r.Ok? {
        SettleEffect(sent, c, r.value);
      }
    }
  }

  /** A trusted oracle that answers without a report leaves its session live. */
  lemma ReplayWithoutReportStaysLive() returns (w: World, c: Call)
    ensures Exec(w, c).1 == Err(Protocol(ReplayReportMissing)) && !Exec(w, c).0.session.discarded
  {
    var resp := BareResponse(1, Some("n"), true);
    var session := SessionState("n", 1, 0, [CAPABILITY_COHORT_REFERENCE_REPLAY], [], None, None, false);
    w := World(session, Peer([Message(resp)], [], None, []));
    c := Call.CohortReferenceReplay([], []);
    assert ReadResponse(w.peer, None).1 == Ok(resp);
  }

  /** The timed-step counter counts issued timed steps even on a discarded session, so it is only
      meaningful on a live one. */
  lemma DiscardedSessionStillCounts(w: World, token: int)
    requires w.session.discarded
    ensures Exec(w, Call.DecodeStep(token)).0.session.issuedSteps == w.session.issuedSteps + 1
    ensures Exec(w, Call.DecodeStep(token)).0.peer == w.peer
  {
  }

  function WithMaxBatch(w: World, m: Option<u32>): World {
    w.(session := w.session.(maxBatchSize := m))
  }

  lemma SendIgnoresMaxBatch(w: World, req: WorkerRequest, m: Option<u32>)
    ensures SendStep(WithMaxBatch(w, m), req) == (WithMaxBatch(SendStep(w, req).0, m), SendStep(w, req).1)
  {
  }

  lemma SettleIgnoresMaxBatch(w: World, c: Call, resp: WorkerResponse, m: Option<u32>)
    ensures Settle(WithMaxBatch(w, m), c, resp) == (WithMaxBatch(Settle(w, c, resp).0, m), Settle(w, c, resp).1)
  {
  }

  /** The advertised maximum width plays no part in any operation: an over-wide cohort request is
      treated exactly like any other. */
  lemma MaxBatchNeverConsulted(w: World, c: Call, m: Option<u32>)
    ensures Exec(WithMaxBatch(w, m), c) == (WithMaxBatch(Exec(w, c).0, m), Exec(w, c).1)
  {
    if !IsLocal(c) {
      assert Refusal(WithMaxBatch(w, m).session, c) == Refusal(w.session, c);
      var (sent, r) := SendStep(w, RequestFor(c));
      SendIgnoresMaxBatch(w, RequestFor(c), m);
      if r.Ok? {
        SettleIgnoresMaxBatch(sent, c, r.value, m);
      }
    }
  }
}
