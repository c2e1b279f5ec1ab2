/**
 The session against the conformant engine: two independently kept counters that the phase-close
 barrier compares (bench-runner, session.rs and mock.rs).
 */
module Coupling {
  import opened Wrappers
  import opened Sums
  import opened Protocol
  import opened Wire
  import opened Mock
  import opened FreeRun
  import opened SessionSpec

  /** A live session whose far end is the engine it said hello to, with nothing left unread. */
  predicate Linked(w: World) {
    && w.peer.engine.Some? && w.peer.inbox == []
    && !w.session.discarded
    && w.session.nonce == Config(w).nonce
    && w.session.capabilities == Config(w).capabilities
    && w.session.specModes == Config(w).specModes
  }

  function Config(w: World): MockConfig
    requires w.peer.engine.Some?
  {
    w.peer.engine.value.config
  }

  function EngineWork(w: World): int
    requires w.peer.engine.Some?
  {
    w.peer.engine.value.completedWork
  }

  /** Linked, and the two counters agree. */
  predicate Coupled(w: World) {
    Linked(w) && w.session.issuedSteps == EngineWork(w)
  }

  /** An engine that reports its own counter and a drained cache. */
  predicate Conformant(config: MockConfig) {
    && config.completedWorkDelta == 0
    && (config.cacheMemory.Some? ==> config.cacheMemory.value == 0)
  }

  /** The handshake with the engine couples the two sides. */
  lemma HelloCouples(config: MockConfig)
    requires config.nonce != ""
    ensures var peer := Peer([Message(Hello(config))], [], Some(MockState(config, 0)), []);
            Connect(peer).1.Ok? && Coupled(World(Connect(peer).1.value, Connect(peer).0))
            && Config(World(Connect(peer).1.value, Connect(peer).0)) == config
  {
  }

  /** What one exchange with the engine does to both sides. */
  function AfterExchange(w: World, req: WorkerRequest): World
    requires Linked(w)
  {
    var s, id := w.session, w.session.nextId;
    var work := EngineWork(w) + WorkOf(Config(w), req);
    World(
      s.(nextId := id + 1, issuedSteps := s.issuedSteps + if IsTimedStep(req.kind) then 1 else 0),
      Peer([], w.peer.wire + [req.(id := id)],
           Some(MockState(Config(w), if req.kind.PhaseDiagnostics? then 0 else work)), w.peer.writes))
  }

  function EngineAnswer(w: World, req: WorkerRequest): WorkerResponse
    requires Linked(w)
  {
    BuildResponse(Config(w), EngineWork(w) + WorkOf(Config(w), req), req.(id := w.session.nextId))
  }

  lemma AnswerEchoes(config: MockConfig, work: int, req: WorkerRequest)
    ensures var resp := BuildResponse(config, work, req);
            resp.id == req.id && resp.ok && resp.nonce == Some(config.nonce)
  {
  }

  /** The engine answers every request, and the answer passes every shared check. */
  lemma ExchangeSucceeds(w: World, req: WorkerRequest)
    requires Linked(w)
    ensures SendStep(w, req) == (AfterExchange(w, req), Ok(EngineAnswer(w, req)))
    ensures Linked(AfterExchange(w, req))
  {
    var numbered := req.(id := w.session.nextId);
    var resp := EngineAnswer(w, req);
    AnswerEchoes(Config(w), EngineWork(w) + WorkOf(Config(w), req), numbered);
    var written := PeerWrite(w.peer, numbered).0;
    assert WorkOf(Config(w), numbered) == WorkOf(Config(w), req);
    assert written.inbox == [Message(resp)] && written.inbox[1..] == [];
    assert PeerRead(written) == (written.(inbox := []), Message(resp));
    assert ReadResponse(written, w.session.runDeadline) == (written.(inbox := []), Ok(resp));
  }

  // ---- the teacher-forced verbs --------------------------------------------

  /** A spec the engine will run and echo acceptably: an advertised mode, and every depth stated. */
  predicate Runnable(w: World, spec: Option<SpecConfig>) {
    spec.Some? ==>
      && Resolved(spec.value)
      && (spec.value.mode == SPEC_MODE_SERIAL || spec.value.mode in w.session.specModes)
  }

  /** The v1 verbs other than the close, with a runnable spec or none. */
  predicate V1Step(w: World, c: Call) {
    || c.Prefill? || c.DecodeStep? || c.Correctness? || c.CorrectnessBegin? || c.CorrectnessStep?
    || (c.DecodeBegin? && Runnable(w, c.spec))
    || c.ArmRunDeadline? || c.DisarmRunDeadline?
  }

  /** The v1 verbs with the phase calls: begin_phase only at a phase boundary. */
  predicate V1Call(w: World, c: Call) {
    || V1Step(w, c)
    || c.ClosePhase?
    || (c.BeginPhase? && w.session.issuedSteps == 0)
  }

  lemma SpecGateAndEcho(w: World, spec: Option<SpecConfig>, resp: WorkerResponse)
    requires resp.effectiveSpec == spec
    ensures RequireSpecMode(w.session, spec).None? && RequireSpecEcho(spec, resp).None? <==> Runnable(w, spec)
  {
    if spec.Some? {
      SelfEchoIffResolved(spec.value);
    }
  }

  /** Every v1 verb succeeds against the engine and keeps the counters equal. */
  lemma StepKeepsCoupled(w: World, c: Call)
    requires Coupled(w) && V1Step(w, c)
    ensures Exec(w, c).1.Ok? && Coupled(Exec(w, c).0) && Config(Exec(w, c).0) == Config(w)
  {
    if !IsLocal(c) {
      var req := RequestFor(c);
      ExchangeSucceeds(w, req);
      if c.DecodeBegin? {
        SpecGateAndEcho(w, c.spec, EngineAnswer(w, req));
      }
    }
  }

  /** Closing a phase against a conformant engine succeeds, reports the issued count and zeroes both
      counters. */
  lemma CloseKeepsCoupled(w: World)
    requires Coupled(w) && Conformant(Config(w))
    ensures var (after, r) := Exec(w, ClosePhase);
            && r.Ok? && r.value.Response? && r.value.resp.completedWork == Some(w.session.issuedSteps)
            && Coupled(after) && Config(after) == Config(w)
            && after.session.issuedSteps == 0 && EngineWork(after) == 0
  {
    ExchangeSucceeds(w, RequestFor(ClosePhase));
  }

  /** Every call of the run is a v1 call where it happens. */
  predicate V1Run(w: World, calls: seq<Call>)
    decreases |calls|
  {
    calls != [] ==> V1Call(w, calls[0]) && V1Run(Exec(w, calls[0]).0, calls[1..])
  }

  /** Every call of the run succeeded. */
  predicate AllSucceed(w: World, calls: seq<Call>)
    decreases |calls|
  {
    calls != [] ==> Exec(w, calls[0]).1.Ok? && AllSucceed(Exec(w, calls[0]).0, calls[1..])
  }

  /** Over every v1 run against a conformant engine, no call fails and the two counters agree after
      every exchange. */
  lemma {:induction false} RunStaysCoupled(w: World, calls: seq<Call>)
    requires Coupled(w) && Conformant(Config(w)) && V1Run(w, calls)
    ensures AllSucceed(w, calls) && Coupled(Run(w, calls)) && Config(Run(w, calls)) == Config(w)
    decreases |calls|
  {
    if calls != [] {
      var c := calls[0];
      if c.ClosePhase? {
        CloseKeepsCoupled(w);
      } else if !c.BeginPhase? {
        StepKeepsCoupled(w, c);
      }
      RunStaysCoupled(Exec(w, c).0, calls[1..]);
    }
  }

  /** Every prefix of such a run is one too, so the counters agree throughout, not just at the end. */
  lemma {:induction false} PrefixStaysCoupled(w: World, calls: seq<Call>, k: nat)
    requires Coupled(w) && Conformant(Config(w)) && V1Run(w, calls) && k <= |calls|
    ensures Coupled(Run(w, calls[..k]))
    decreases k
  {
    if k > 0 {
      RunStaysCoupled(w, calls);
      var c := calls[0];
      if c.ClosePhase? {
        CloseKeepsCoupled(w);
      } else if !c.BeginPhase? {
        StepKeepsCoupled(w, c);
      }
      assert calls[..k][1..] == calls[1..][..k - 1];
      PrefixStaysCoupled(Exec(w, c).0, calls[1..], k - 1);
    }
  }

  // ---- what breaks the coupling, exactly ----------------------------------

  /** begin_phase resets only the session's counter: it keeps the two equal exactly at a phase
      boundary. */
  lemma BeginPhaseCouplesIffBoundary(w: World)
    requires Coupled(w)
    ensures Coupled(Exec(w, BeginPhase).0) <==> w.session.issuedSteps == 0
  {
  }

  /** A raw diagnostics call resets only the engine's counter: again equal exactly at a boundary. */
  lemma RawDiagnosticsCouplesIffBoundary(w: World)
    requires Coupled(w)
    ensures Exec(w, PhaseDiagnosticsRaw).1.Ok?
    ensures Coupled(Exec(w, PhaseDiagnosticsRaw).0) <==> w.session.issuedSteps == 0
  {
    ExchangeSucceeds(w, RequestFor(PhaseDiagnosticsRaw));
  }

  /** A spec'd begin succeeds exactly when its mode is advertised (or serial) and every depth is
      stated; anything else discards the session. */
  lemma SpecdBeginSucceedsExactly(w: World, seed: seq<int>, spec: Option<SpecConfig>)
    requires Linked(w)
    ensures var (after, r) := Exec(w, Call.DecodeBegin(seed, spec));
            (r.Ok? <==> Runnable(w, spec)) && (r.Err? <==> after.session.discarded)
  {
    var c := Call.DecodeBegin(seed, spec);
    ExchangeSucceeds(w, RequestFor(c));
    SpecGateAndEcho(w, spec, EngineAnswer(w, RequestFor(c)));
  }

  /** In particular the engine-decides request `{"mode":"mtp","mtp":{}}` is refused: the engine's
      verbatim echo states no depth. */
  lemma EngineDecidesRefused(w: World, seed: seq<int>)
    requires Linked(w) && SPEC_MODE_MTP in w.session.specModes
    ensures var spec := SpecConfig(SPEC_MODE_MTP, Some(MtpSpec(None)), None, None);
            Exec(w, Call.DecodeBegin(seed, Some(spec))).1 == Err(SpecEchoDivergence(spec, Some(spec)))
  {
    var spec := SpecConfig(SPEC_MODE_MTP, Some(MtpSpec(None)), None, None);
    ExchangeSucceeds(w, RequestFor(Call.DecodeBegin(seed, Some(spec))));
    SelfEchoIffResolved(spec);
  }

  /** Every call of the run is a v1 verb other than the phase calls. */
  predicate V1Steps(w: World, calls: seq<Call>)
    decreases |calls|
  {
    calls != [] ==> V1Step(w, calls[0]) && V1Steps(Exec(w, calls[0]).0, calls[1..])
  }

  lemma {:induction false} StepsStayCoupled(w: World, calls: seq<Call>)
    requires Coupled(w) && V1Steps(w, calls)
    ensures Coupled(Run(w, calls)) && Config(Run(w, calls)) == Config(w)
    decreases |calls|
  {
    if calls != [] {
      StepKeepsCoupled(w, calls[0]);
      StepsStayCoupled(Exec(w, calls[0]).0, calls[1..]);
    }
  }

  /** After any run of v1 verbs, the next close succeeds exactly when the engine reports its own
      counter and a drained cache; otherwise it is refused and the session discarded. */
  lemma SkewCaughtAtNextClose(w: World, calls: seq<Call>)
    requires Coupled(w) && V1Steps(w, calls)
    ensures var (after, r) := Exec(Run(w, calls), ClosePhase);
            && (r.Ok? <==> Conformant(Config(w)))
            && (r.Err? <==> after.session.discarded)
            && (r.Err? && (Config(w).cacheMemory.Some? ==> Config(w).cacheMemory.value == 0) ==>
                  r == Err(CompletedWorkMismatch(Run(w, calls).session.issuedSteps,
                                                 Some(Run(w, calls).session.issuedSteps + Config(w).completedWorkDelta))))
  {
    StepsStayCoupled(w, calls);
    ExchangeSucceeds(Run(w, calls), RequestFor(ClosePhase));
  }

  // ---- the free-run phase ---------------------------------------------------

  /** The counts the driver takes from a single-stream run's response. */
  function FreeRunCounts(resp: WorkerResponse): FreeRunResponse
    requires resp.tokens.Some? && resp.acceptanceLengths.Some? && resp.draftedTotal.Some?
    requires resp.acceptedTotal.Some? && resp.committedTotal.Some?
  {
    FreeRunResponse(|resp.tokens.value|, resp.acceptanceLengths.value, resp.draftedTotal.value,
                    resp.acceptedTotal.value, resp.committedTotal.value)
  }

  lemma RunAnswerCounts(config: MockConfig, work: int, req: WorkerRequest)
    requires req.kind.FreeDecodeRun? && req.batchSize.None?
    ensures var resp := BuildResponse(config, work, req);
            var n, accept := CountOf(req), AcceptanceFor(config, CountOf(req));
            && resp.tokens.Some? && |resp.tokens.value| == n
            && resp.acceptanceLengths == Some(accept)
            && resp.draftedTotal == Some(n) && resp.committedTotal == Some(n)
            && resp.acceptedTotal == Some(Monus(n, |accept|))
  {
  }

  /** One begin and one run of n tokens leave the engine's counter at R+1, unseen by the session's. */
  lemma FreeRunWork(w: World, seed: seq<int>, spec: Option<SpecConfig>, n: u32)
    requires Coupled(w) && w.session.issuedSteps == 0
    requires CAPABILITY_FREE_RUN_DECODE in w.session.capabilities && Runnable(w, spec)
    ensures var begun := Exec(w, Call.FreeDecodeBegin(seed, spec));
            var ran := Exec(begun.0, Call.FreeDecodeRun(n));
            && begun.1.Ok? && ran.1.Ok? && ran.1.value.Response?
            && Linked(ran.0) && Config(ran.0) == Config(w)
            && ran.0.session.issuedSteps == 0
            && EngineWork(ran.0) == |AcceptanceFor(Config(w), n)| + 1
            && ran.1.value.resp.tokens.Some? && |ran.1.value.resp.tokens.value| == n
            && ran.1.value.resp.acceptanceLengths == Some(AcceptanceFor(Config(w), n))
            && ran.1.value.resp.draftedTotal == Some(n) && ran.1.value.resp.committedTotal == Some(n)
            && ran.1.value.resp.acceptedTotal == Some(Monus(n, |AcceptanceFor(Config(w), n)|))
  {
    hide SendStep;
    var begin := RequestFor(Call.FreeDecodeBegin(seed, spec));
    ExchangeSucceeds(w, begin);
    SpecGateAndEcho(w, spec, EngineAnswer(w, begin));
    var begun := Exec(w, Call.FreeDecodeBegin(seed, spec)).0;
    assert begun == AfterExchange(w, begin);
    var run := RequestFor(Call.FreeDecodeRun(n));
    ExchangeSucceeds(begun, run);
    RunAnswerCounts(Config(w), EngineWork(begun) + WorkOf(Config(w), run), run.(id := begun.session.nextId));
  }

  /** Closing a free-run phase: accepted exactly when the counts agree with the engine's own counter. */
  lemma FreeRunCloseOutcome(w: World, run: FreeRunResponse, n: u32)
    requires Linked(w) && Conformant(Config(w))
    ensures var closed := Exec(w, CloseFreeRunPhase(run, n));
            && (closed.1.Ok? <==> Consistent(run, n, EngineWork(w)))
            && (closed.1.Ok? ==> Coupled(closed.0) && closed.0.session.issuedSteps == 0
                                 && closed.1.value.Audited? && closed.1.value.audit == AuditOf(run, n)
                                 && closed.1.value.diag.completedWork == Some(EngineWork(w)))
            && (closed.1.Err? ==> closed.0.session.discarded)
  {
    hide Consistent, AuditOf, SendStep;
    ExchangeSucceeds(w, RequestFor(CloseFreeRunPhase(run, n)));
  }

  /** A free-run phase of one begin and one run of n tokens closes, with the engine reporting exactly
      R+1 forwards, exactly when the reported widths sum to n; the close returns both sides to a
      coupled phase boundary. */
  lemma FreeRunPhaseCloses(w: World, seed: seq<int>, spec: Option<SpecConfig>, n: u32)
    requires Coupled(w) && w.session.issuedSteps == 0 && Conformant(Config(w))
    requires CAPABILITY_FREE_RUN_DECODE in w.session.capabilities && Runnable(w, spec)
    ensures var ran := Exec(Exec(w, Call.FreeDecodeBegin(seed, spec)).0, Call.FreeDecodeRun(n));
            var accept := AcceptanceFor(Config(w), n);
            && ran.1.Ok? && ran.1.value.Response?
            && ran.1.value.resp.tokens.Some? && ran.1.value.resp.acceptanceLengths.Some?
            && ran.1.value.resp.draftedTotal.Some? && ran.1.value.resp.acceptedTotal.Some?
            && ran.1.value.resp.committedTotal.Some?
            && var closed := Exec(ran.0, CloseFreeRunPhase(FreeRunCounts(ran.1.value.resp), n));
            && (closed.1.Ok? <==> Sum(accept) == n)
            && (closed.1.Ok? ==> Coupled(closed.0) && closed.0.session.issuedSteps == 0
                                 && closed.1.value.Audited?
                                 && closed.1.value.diag.completedWork == Some(|accept| + 1)
                                 && closed.1.value.audit.acceptanceLengths == accept)
            && (closed.1.Err? ==> closed.0.session.discarded)
  {
    hide Exec, BuildResponse;
    FreeRunWork(w, seed, spec, n);
    var ran := Exec(Exec(w, Call.FreeDecodeBegin(seed, spec)).0, Call.FreeDecodeRun(n));
    FreeRunCloseOutcome(ran.0, FreeRunCounts(ran.1.value.resp), n);
  }

  /** The engine's default is one token a round, so its phase always closes, with R == n. */
  lemma DefaultFreeRunPhaseCloses(w: World, seed: seq<int>, n: u32)
    requires Coupled(w) && w.session.issuedSteps == 0 && Conformant(Config(w))
    requires CAPABILITY_FREE_RUN_DECODE in w.session.capabilities && Config(w).acceptanceLengths.None?
    ensures var ran := Exec(Exec(w, Call.FreeDecodeBegin(seed, None)).0, Call.FreeDecodeRun(n));
            && ran.1.Ok? && ran.1.value.Response?
            && ran.1.value.resp.tokens.Some? && ran.1.value.resp.acceptanceLengths.Some?
            && ran.1.value.resp.draftedTotal.Some? && ran.1.value.resp.acceptedTotal.Some?
            && ran.1.value.resp.committedTotal.Some?
            && var closed := Exec(ran.0, CloseFreeRunPhase(FreeRunCounts(ran.1.value.resp), n));
            closed.1.Ok? && closed.1.value.Audited? && closed.1.value.diag.completedWork == Some(n + 1)
  {
    hide Exec, BuildResponse, FreeRunCounts;
    FreeRunPhaseCloses(w, seed, None, n);
    SumOfConstant(AcceptanceFor(Config(w), n), 1);
  }

  // ---- the cohort phase -------------------------------------------------------

  function CohortCounts(b: u32, resp: WorkerResponse): CohortFreeRunResponse
    requires HasCohortCounts(resp)
  {
    CohortFreeRunResponse(
      b, seq(|resp.tokensByStream.value|, slot requires 0 <= slot < |resp.tokensByStream.value| =>
        |resp.tokensByStream.value[slot]|),
      resp.acceptanceLengths.value, resp.naturalAcceptedByStream.value, resp.activeStreamsByRound.value,
      resp.rounds.value, resp.draftedTotal.value, resp.acceptedTotal.value, resp.committedTotal.value, map[])
  }

  predicate HasCohortCounts(resp: WorkerResponse) {
    && resp.tokensByStream.Some? && resp.acceptanceLengths.Some? && resp.naturalAcceptedByStream.Some?
    && resp.activeStreamsByRound.Some? && resp.rounds.Some? && resp.draftedTotal.Some?
    && resp.acceptedTotal.Some? && resp.committedTotal.Some?
  }

  /** The counts of a cohort answer, field by field. */
  predicate AnswersCohort(cohort: CohortFreeRunResponse, b: u32, n: u32, accept: seq<u32>) {
    && cohort.batchSize == b
    && |cohort.tokensLenByStream| == b && (forall slot :: 0 <= slot < b ==> cohort.tokensLenByStream[slot] == n)
    && cohort.acceptanceLengths == accept
    && |cohort.naturalAcceptedByStream| == b
    && (forall slot :: 0 <= slot < b ==> cohort.naturalAcceptedByStream[slot] == accept)
    && |cohort.activeStreamsByRound| == |accept|
    && (forall round :: 0 <= round < |accept| ==> cohort.activeStreamsByRound[round] == b)
    && cohort.rounds == |accept| % 0x1_0000_0000
    && cohort.draftedTotal == cohort.committedTotal == b * n
    && cohort.acceptedTotal <= cohort.draftedTotal
  }

  lemma CohortAnswerCounts(base: WorkerResponse, b: u32, n: u32, accept: seq<u32>)
    ensures var resp := CohortRunResponse(base, b, n, accept);
            && HasCohortCounts(resp) && resp.effectiveBatchSize == Some(b)
            && AnswersCohort(CohortCounts(b, resp), b, n, accept)
  {
    ScaleUp(Monus(n, |accept|), n, b);
  }

  /** The engine's cohort answer is consistent exactly when its widths sum to n, the round count fits
      its field, and an empty cohort ran no round. */
  lemma CohortAnswerConsistent(cohort: CohortFreeRunResponse, b: u32, n: u32, accept: seq<u32>)
    requires AnswersCohort(cohort, b, n, accept)
    ensures CohortConsistent(cohort, n, |accept| + 1)
            <==> Sum(accept) == n && |accept| < 0x1_0000_0000 && (accept == [] || 0 < b)
  {
    assert cohort.rounds == |accept| <==> |accept| < 0x1_0000_0000;
    assert NaturalRectangle(cohort) by {
      forall slot | 0 <= slot < b ensures NaturalRowOk(cohort, slot) {}
    }
    assert ActiveTail(cohort) <==> (accept == [] || 0 < b) by {
      if accept != [] {
        assert cohort.activeStreamsByRound[0] == b;
      }
    }
  }

  lemma CohortAnswerShape(config: MockConfig, work: int, req: WorkerRequest)
    requires req.kind.FreeDecodeRun? && req.batchSize.Some?
    ensures BuildResponse(config, work, req)
            == CohortRunResponse(BareResponse(req.id, Some(config.nonce), true), req.batchSize.value, CountOf(req),
                                 AcceptanceFor(config, CountOf(req)))
  {
  }

  lemma CohortWork(w: World, seeds: seq<seq<int>>, b: u32, spec: Option<SpecConfig>, n: u32)
    requires Coupled(w) && w.session.issuedSteps == 0
    requires CAPABILITY_BATCHED_FREE_RUN_DECODE in w.session.capabilities && Runnable(w, spec)
    ensures var begun := Exec(w, Call.FreeDecodeBeginBatched(seeds, b, spec));
            var ran := Exec(begun.0, Call.FreeDecodeRunBatched(n, b));
            && begun.1.Ok? && ran.1.Ok? && ran.1.value.Response?
            && Linked(ran.0) && Config(ran.0) == Config(w)
            && ran.0.session.issuedSteps == 0
            && EngineWork(ran.0) == |AcceptanceFor(Config(w), n)| + 1
            && exists base :: ran.1.value.resp == CohortRunResponse(base, b, n, AcceptanceFor(Config(w), n))
  {
    hide SendStep, CohortCounts;
    var begin := RequestFor(Call.FreeDecodeBeginBatched(seeds, b, spec));
    ExchangeSucceeds(w, begin);
    SpecGateAndEcho(w, spec, EngineAnswer(w, begin));
    var begun := Exec(w, Call.FreeDecodeBeginBatched(seeds, b, spec)).0;
    assert begun == AfterExchange(w, begin);
    var run := RequestFor(Call.FreeDecodeRunBatched(n, b));
    ExchangeSucceeds(begun, run);
    var numbered := run.(id := begun.session.nextId);
    CohortAnswerShape(Config(w), EngineWork(begun) + WorkOf(Config(w), run), numbered);
    CohortAnswerCounts(BareResponse(numbered.id, Some(Config(w).nonce), true), b, n, AcceptanceFor(Config(w), n));
  }

  /** Closing a cohort phase: accepted exactly when the counts are consistent with the engine's own
      counter, and back at a coupled boundary when it is. */
  lemma CohortCloseOutcome(w: World, cohort: CohortFreeRunResponse, n: u32)
    requires Linked(w) && Conformant(Config(w))
    ensures var closed := Exec(w, CloseBatchedFreeRunPhase(cohort, n));
            && (closed.1.Ok? <==> CohortConsistent(cohort, n, EngineWork(w)))
            && (closed.1.Ok? ==> Coupled(closed.0) && closed.0.session.issuedSteps == 0
                                 && closed.1.value.CohortAudited?
                                 && closed.1.value.diag.completedWork == Some(EngineWork(w)))
            && (closed.1.Err? ==> closed.0.session.discarded)
  {
    hide CohortConsistent, CohortAuditOf, SendStep;
    ExchangeSucceeds(w, RequestFor(CloseBatchedFreeRunPhase(cohort, n)));
  }

  /** A cohort phase of width b closes with the scalar R+1 counter, whatever b is, exactly when the
      widths sum to n and the cohort is not an empty one that ran rounds. */
  lemma CohortPhaseCloses(w: World, seeds: seq<seq<int>>, b: u32, spec: Option<SpecConfig>, n: u32)
    requires Coupled(w) && w.session.issuedSteps == 0 && Conformant(Config(w))
    requires CAPABILITY_BATCHED_FREE_RUN_DECODE in w.session.capabilities && Runnable(w, spec)
    ensures var ran := Exec(Exec(w, Call.FreeDecodeBeginBatched(seeds, b, spec)).0, Call.FreeDecodeRunBatched(n, b));
            var accept := AcceptanceFor(Config(w), n);
            && ran.1.Ok? && ran.1.value.Response? && HasCohortCounts(ran.1.value.resp)
            && var closed := Exec(ran.0, CloseBatchedFreeRunPhase(CohortCounts(b, ran.1.value.resp), n));
            && (closed.1.Ok? <==> Sum(accept) == n && |accept| < 0x1_0000_0000 && (accept == [] || 0 < b))
            && (closed.1.Ok? ==> Coupled(closed.0) && closed.0.session.issuedSteps == 0
                                 && closed.1.value.CohortAudited?
                                 && closed.1.value.diag.completedWork == Some(|accept| + 1))
            && (closed.1.Err? ==> closed.0.session.discarded)
  {
    hide Exec, CohortConsistent, BuildResponse;
    CohortWork(w, seeds, b, spec, n);
    var ran := Exec(Exec(w, Call.FreeDecodeBeginBatched(seeds, b, spec)).0, Call.FreeDecodeRunBatched(n, b));
    var accept := AcceptanceFor(Config(w), n);
    var base :| ran.1.value.resp == CohortRunResponse(base, b, n, accept);
    CohortAnswerCounts(base, b, n, accept);
    var cohort := CohortCounts(b, ran.1.value.resp);
    CohortAnswerConsistent(cohort, b, n, accept);
    CohortCloseOutcome(ran.0, cohort, n);
  }
}
