/**
 What a far end can make of a session: the calls it reads off the wire, and what each verb asks of the answer
 (bench-runner, session.rs).
 */
module Verbs {
  import opened Wrappers
  import opened Protocol
  import opened Wire
  import opened Mock
  import opened FreeRun
  import opened SessionSpec

  // ---- a far end's reader ------------------------------------------------------------

  datatype Field =
    | PromptTokens | Token | SeedTokens | Steps | Count | SeedsByStream | BatchSize | ReplaySeeds | Committed | Width

  predicate Has(req: WorkerRequest, f: Field) {
    match f
    case PromptTokens => req.promptTokens.Some?
    case Token => req.token.Some?
    case SeedTokens => req.seedTokens.Some?
    case Steps => req.steps.Some?
    case Count => req.count.Some?
    case SeedsByStream => req.seedTokensByStream.Some?
    case BatchSize => req.batchSize.Some?
    case ReplaySeeds => req.replaySeedsByStream.Some?
    case Committed => req.committedByStream.Some?
    case Width => req.replayWidth.Some?
  }

  /** The line carries these fields and no others; a spec may come with them where the kind takes one. */
  ghost predicate Carries(req: WorkerRequest, fields: set<Field>, takesSpec: bool) {
    (forall f :: Has(req, f) <==> f in fields) && (req.spec.Some? ==> takesSpec)
  }

  /** The call a line asks for; none where a field is missing, or is there without being asked for. */
  ghost function CallOf(req: WorkerRequest): Option<Call> {
    match req.kind
    case Prefill =>
      if Carries(req, {PromptTokens}, false) then Some(Call.Prefill(req.promptTokens.value)) else None
    case DecodeBegin =>
      if Carries(req, {SeedTokens}, true) then Some(Call.DecodeBegin(req.seedTokens.value, req.spec)) else None
    case DecodeStep => if Carries(req, {Token}, false) then Some(Call.DecodeStep(req.token.value)) else None
    case FreeDecodeBegin =>
      if Carries(req, {SeedTokens}, true) then Some(Call.FreeDecodeBegin(req.seedTokens.value, req.spec))
      else if Carries(req, {SeedsByStream, BatchSize}, true) then
        Some(Call.FreeDecodeBeginBatched(req.seedTokensByStream.value, req.batchSize.value, req.spec))
      else None
    case FreeDecodeRun =>
      if Carries(req, {Count}, false) then Some(Call.FreeDecodeRun(req.count.value))
      else if Carries(req, {Count, BatchSize}, false) then
        Some(Call.FreeDecodeRunBatched(req.count.value, req.batchSize.value))
      else None
    case CohortReferenceReplay =>
      if Carries(req, {ReplaySeeds, Committed, Width}, false) && req.replayWidth == Some("cohort") then
        Some(Call.CohortReferenceReplay(req.replaySeedsByStream.value, req.committedByStream.value))
      else None
    case Correctness =>
      if Carries(req, {PromptTokens, Steps}, false) then Some(Call.Correctness(req.promptTokens.value, req.steps.value))
      else None
    case CorrectnessBegin =>
      if Carries(req, {PromptTokens}, false) then Some(Call.CorrectnessBegin(req.promptTokens.value)) else None
    case CorrectnessStep => if Carries(req, {Token}, false) then Some(Call.CorrectnessStep(req.token.value)) else None
    case PhaseDiagnostics => if Carries(req, {}, false) then Some(PhaseDiagnosticsRaw) else None
  }

  /** What the far end can tell of a call: a close asks for the diagnostics, and says nothing of the audit behind it. */
  function Heard(c: Call): Call {
    if c.ClosePhase? || c.CloseFreeRunPhase? || c.CloseBatchedFreeRunPhase? then PhaseDiagnosticsRaw else c
  }

  /** The line of a verb reads back as that verb, with every argument in its place. */
  lemma LineReadsBack(c: Call, id: int)
    requires !IsLocal(c)
    ensures CallOf(RequestFor(c).(id := id)) == Some(Heard(c))
  {
    var req := RequestFor(c).(id := id);
    if c.FreeDecodeBeginBatched? {
      assert Has(req, BatchSize);
    } else if c.FreeDecodeRunBatched? {
      assert Has(req, BatchSize);
    }
  }

  // ---- every line of every run -------------------------------------------------------

  /** Will the far end take the next line? */
  predicate TakesLine(peer: Peer) {
    peer.engine.Some? || peer.writes == [] || peer.writes[0]
  }

  /** The literal names of what the hello must have advertised for a call to be made at all. */
  predicate Permitted(s: SessionState, c: Call) {
    match c
    case DecodeBegin(_, spec) => ModeListed(s, spec)
    case FreeDecodeBegin(_, spec) => "free_run_decode" in s.capabilities && ModeListed(s, spec)
    case FreeDecodeRun(_) => "free_run_decode" in s.capabilities
    case FreeDecodeBeginBatched(_, _, spec) => "batched_free_run_decode" in s.capabilities && ModeListed(s, spec)
    case FreeDecodeRunBatched(_, _) => "batched_free_run_decode" in s.capabilities
    case CohortReferenceReplay(_, _) => "cohort_reference_replay" in s.capabilities
    case _ => true
  }

  predicate ModeListed(s: SessionState, spec: Option<SpecConfig>) {
    spec.None? || spec.value.mode == "serial" || spec.value.mode in s.specModes
  }

  /** A call puts a line on the wire exactly when these four hold. */
  predicate Speaks(w: World, c: Call) {
    !IsLocal(c) && !w.session.discarded && Permitted(w.session, c) && TakesLine(w.peer)
  }

  /** The calls of a run that put a line on the wire, in order, as the far end hears them. */
  function Spoken(w: World, calls: seq<Call>): seq<Call>
    decreases |calls|
  {
    if calls == [] then []
    else (if Speaks(w, calls[0]) then [Heard(calls[0])] else []) + Spoken(Exec(w, calls[0]).0, calls[1..])
  }

  lemma RefusedExactly(s: SessionState, c: Call)
    ensures Refusal(s, c).None? <==> Permitted(s, c)
  {
  }

  lemma WriteTakesLine(w: World, c: Call)
    requires !IsLocal(c) && !w.session.discarded && Refusal(w.session, c).None?
    ensures SendStep(w, RequestFor(c)).0.peer.wire
            == w.peer.wire + if TakesLine(w.peer) then [RequestFor(c).(id := w.session.nextId)] else []
  {
  }

  /** One call extends the wire exactly when it speaks, by one line that reads back as the call. */
  lemma CallOnTheWire(w: World, c: Call)
    ensures var after := Exec(w, c).0.peer.wire;
            if Speaks(w, c) then
              |after| == |w.peer.wire| + 1 && w.peer.wire <= after
              && CallOf(after[|w.peer.wire|]) == Some(Heard(c)) && after[|w.peer.wire|].id == w.session.nextId
            else after == w.peer.wire
    ensures var live := Exec(w, c).0.session;
            !live.discarded ==>
              !w.session.discarded && live.nextId == if Speaks(w, c) then w.session.nextId + 1 else w.session.nextId
  {
    hide RequestFor, CallOf, SendStep, Refusal, Permitted;
    ExecEffect(w, c);
    RefusedExactly(w.session, c);
    if !IsLocal(c) && !w.session.discarded && Refusal(w.session, c).None? {
      WriteTakesLine(w, c);
      LineReadsBack(c, w.session.nextId);
      SettleKeepsPeer(w, c);
    }
  }

  lemma SettleKeepsPeer(w: World, c: Call)
    requires !IsLocal(c) && Refusal(w.session, c).None?
    ensures Exec(w, c).0.peer == SendStep(w, RequestFor(c)).0.peer
  {
    hide RequestFor, SendStep, Refusal, Settle;
    var (sent, r) := SendStep(w, RequestFor(c));
    if r.Ok? {
      SettleEffect(sent, c, r.value);
    }
  }

  lemma {:induction false} DiscardedSaysNothing(w: World, calls: seq<Call>)
    requires w.session.discarded
    ensures Spoken(w, calls) == []
    decreases |calls|
  {
    hide Exec, Heard;
    if calls != [] {
      ExecEffect(w, calls[0]);
      DiscardedSaysNothing(Exec(w, calls[0]).0, calls[1..]);
    }
  }

  /** From `start` on, the lines are numbered in a row and read back as these calls, and there are no others. */
  ghost predicate Tells(wire: seq<WorkerRequest>, start: nat, id: int, calls: seq<Call>) {
    |wire| == start + |calls|
    && forall i :: 0 <= i < |calls| ==> CallOf(wire[start + i]) == Some(calls[i]) && wire[start + i].id == id + i
  }

  lemma TellsOneMore(wire: seq<WorkerRequest>, start: nat, id: int, c: Call, later: seq<Call>)
    requires Tells(wire, start + 1, id + 1, later) && CallOf(wire[start]) == Some(c) && wire[start].id == id
    ensures Tells(wire, start, id, [c] + later)
  {
    hide CallOf;
    var all := [c] + later;
    forall i | 0 <= i < |all| ensures CallOf(wire[start + i]) == Some(all[i]) && wire[start + i].id == id + i {
      if i != 0 {
        var k := i - 1;
        assert CallOf(wire[start + 1 + k]) == Some(later[k]) && wire[start + 1 + k].id == id + 1 + k;
        assert all[i] == later[k] && start + 1 + k == start + i;
      }
    }
  }

  /**
   Over every sequence of calls against every far end: reading the new lines back gives exactly the calls that spoke,
   in order and numbered in a row, each with its own arguments and none besides.
   */
  lemma {:induction false} WireTellsCalls(w: World, calls: seq<Call>)
    ensures var wire := Run(w, calls).peer.wire;
            w.peer.wire <= wire && Tells(wire, |w.peer.wire|, w.session.nextId, Spoken(w, calls))
    decreases |calls|
  {
    hide Exec, CallOf, Speaks, Heard, Tells;
    if calls == [] {
      NothingTold(w);
    } else {
      var after, wire := Exec(w, calls[0]).0, Run(w, calls).peer.wire;
      CallOnTheWire(w, calls[0]);
      WireTellsCalls(after, calls[1..]);
      if after.session.discarded {
        DiscardedSaysNothing(after, calls[1..]);
        NothingToldAnyhow(wire, |after.peer.wire|, after.session.nextId, w.session.nextId);
        NothingToldAnyhow(wire, |after.peer.wire|, after.session.nextId, w.session.nextId + 1);
      }
      if Speaks(w, calls[0]) {
        assert wire[|w.peer.wire|] == after.peer.wire[|w.peer.wire|];
        TellsOneMore(wire, |w.peer.wire|, w.session.nextId, Heard(calls[0]), Spoken(after, calls[1..]));
      } else {
        assert Spoken(w, calls) == Spoken(after, calls[1..]);
      }
    }
  }

  lemma NothingTold(w: World)
    ensures Tells(w.peer.wire, |w.peer.wire|, w.session.nextId, Spoken(w, []))
  {
  }

  lemma NothingToldAnyhow(wire: seq<WorkerRequest>, start: nat, id: int, other: int)
    requires Tells(wire, start, id, [])
    ensures Tells(wire, start, other, [])
  {
  }

  // ---- what is read back --------------------------------------------------------------

  function LogLines(n: nat): seq<Event> {
    seq(n, i => LogLine)
  }

  /** How a read ends, by the first event that is no log line. */
  function Reads(event: Event, deadline: Option<real>): Result<WorkerResponse, RunnerError>
    requires !event.LogLine?
  {
    match event
    case Message(resp) => Ok(resp)
    case Undecodable => Err(Protocol(UndecodableLine))
    case Eof => Err(Protocol(ClosedStream))
    case TimedOut => Err(RunTimeout(if deadline.Some? then deadline.value else 0.0))
    case Broken => Err(Io)
  }

  /** Any number of log lines is skipped, the first other event decides, and nothing behind it is touched. */
  lemma {:induction false} ReadSkipsLogs(peer: Peer, n: nat, event: Event, rest: seq<Event>, deadline: Option<real>)
    requires peer.inbox == LogLines(n) + [event] + rest && !event.LogLine?
    ensures ReadResponse(peer, deadline) == (peer.(inbox := rest), Reads(event, deadline))
    decreases n
  {
    if n == 0 {
      assert peer.inbox == [event] + rest && peer.inbox[1..] == rest;
    } else {
      assert peer.inbox[0] == LogLine;
      assert peer.inbox[1..] == LogLines(n - 1) + [event] + rest;
      ReadSkipsLogs(peer.(inbox := peer.inbox[1..]), n - 1, event, rest, deadline);
    }
  }

  /** A far end that falls silent after its log lines has closed the stream. */
  lemma {:induction false} SilenceIsTheEnd(peer: Peer, n: nat, deadline: Option<real>)
    requires peer.inbox == LogLines(n)
    ensures ReadResponse(peer, deadline) == (peer.(inbox := []), Err(Protocol(ClosedStream)))
    decreases n
  {
    if n != 0 {
      assert peer.inbox[0] == LogLine && peer.inbox[1..] == LogLines(n - 1);
      SilenceIsTheEnd(peer.(inbox := peer.inbox[1..]), n - 1, deadline);
    }
  }

  /** The answer of a live session's exchange passes for one reason, and each refusal has its own. */
  lemma AnswerVerdict(w: World, req: WorkerRequest, n: nat, resp: WorkerResponse, rest: seq<Event>)
    requires !w.session.discarded && w.peer.engine.None? && TakesLine(w.peer)
    requires w.peer.inbox == LogLines(n) + [Message(resp)] + rest
    ensures var (after, r) := SendStep(w, req); var nonce, id := w.session.nonce, w.session.nextId;
            var unparsed := resp.id == -1 && !resp.ok;
            && after.peer.inbox == rest
            && (r.Ok? <==> resp.nonce == Some(nonce) && resp.id == id && resp.ok)
            && (r.Ok? ==> r.value == resp)
            && (r == Err(NonceMismatch(nonce, resp.nonce)) <==> resp.nonce != Some(nonce) && !unparsed)
            && (r == Err(Protocol(IdMismatch(resp.id))) <==> resp.nonce == Some(nonce) && resp.id != id && !unparsed)
            && (r == Err(Engine(req.kind)) <==> unparsed || (resp.nonce == Some(nonce) && resp.id == id && !resp.ok))
  {
    var numbered := req.(id := w.session.nextId);
    var written := PeerWrite(w.peer, numbered).0;
    ReadSkipsLogs(written, n, Message(resp), rest, w.session.runDeadline);
  }

  /** A passed deadline is reported with the budget last armed, and with zero once disarmed. */
  lemma DeadlineIsReported(w: World, budget: real, token: int, n: nat, rest: seq<Event>)
    requires !w.session.discarded && w.peer.engine.None? && TakesLine(w.peer)
    requires w.peer.inbox == LogLines(n) + [TimedOut] + rest
    ensures var armed := Exec(w, ArmRunDeadline(budget)).0; var disarmed := Exec(armed, DisarmRunDeadline).0;
            && Exec(armed, Call.DecodeStep(token)).1 == Err(RunTimeout(budget))
            && Exec(disarmed, Call.DecodeStep(token)).1 == Err(RunTimeout(0.0))
  {
    var numbered := RequestFor(Call.DecodeStep(token)).(id := w.session.nextId);
    var written := PeerWrite(w.peer, numbered).0;
    ReadSkipsLogs(written, n, TimedOut, rest, Some(budget));
    ReadSkipsLogs(written, n, TimedOut, rest, None);
  }

  // ---- what each verb asks of the answer ----------------------------------------------

  /** A verb accepts an answer that passed the shared checks in exactly these cases. */
  lemma VerbAccepts(w: World, c: Call, resp: WorkerResponse)
    requires !IsLocal(c)
    ensures var accepted := Settle(w, c, resp).1.Ok?;
            match c
            case DecodeBegin(_, spec) => accepted <==> EchoesSpec(spec, resp)
            case FreeDecodeBegin(_, spec) => accepted <==> EchoesSpec(spec, resp)
            case FreeDecodeBeginBatched(_, b, spec) =>
              accepted <==> EchoesSpec(spec, resp) && resp.effectiveBatchSize == Some(b)
            case FreeDecodeRunBatched(_, b) => accepted <==> resp.effectiveBatchSize in {None, Some(b)}
            case CorrectnessBegin(_) => accepted <==> resp.topLogits.Some? && |resp.topLogits.value| == 8
            case CorrectnessStep(_) => accepted <==> resp.topLogits.Some? && |resp.topLogits.value| == 8
            case ClosePhase => accepted <==> IsDrained(resp) && resp.completedWork == Some(w.session.issuedSteps)
            case CloseFreeRunPhase(run, n) =>
              accepted <==> IsDrained(resp) && resp.completedWork.Some? && Consistent(run, n, resp.completedWork.value)
            case CloseBatchedFreeRunPhase(cohort, n) =>
              accepted <==> IsDrained(resp) && resp.completedWork.Some?
                            && CohortConsistent(cohort, n, resp.completedWork.value)
            case CohortReferenceReplay(_, _) =>
              accepted <==> resp.cohortReferenceReplay.Some?
                            && resp.cohortReferenceReplay.value.replayWidth in {None, Some("cohort")}
            case _ => accepted
  {
    hide Consistent, CohortConsistent, AuditOf, CohortAuditOf, SpecEchoHonorsRequest;
  }

  predicate EchoesSpec(spec: Option<SpecConfig>, resp: WorkerResponse) {
    spec.Some? ==> resp.effectiveSpec.Some? && SpecEchoHonorsRequest(spec.value, resp.effectiveSpec.value)
  }

  predicate IsDrained(resp: WorkerResponse) {
    resp.cacheMemory.Some? ==> resp.cacheMemory.value == 0
  }

  /** A refused answer is refused for what it says. */
  lemma VerbRefuses(w: World, c: Call, resp: WorkerResponse)
    requires !IsLocal(c) && Settle(w, c, resp).1.Err?
    ensures var e := Settle(w, c, resp).1.error;
            match e
            case Protocol(TopLogitsCount(k)) =>
              (c.CorrectnessBegin? || c.CorrectnessStep?) && k != 8
              && k == (if resp.topLogits.Some? then |resp.topLogits.value| else 0)
            case SpecEchoDivergence(asked, echoed) =>
              (c.DecodeBegin? || c.FreeDecodeBegin? || c.FreeDecodeBeginBatched?)
              && c.spec == Some(asked) && resp.effectiveSpec == echoed && !EchoesSpec(c.spec, resp)
            case BatchEchoDivergence(asked, echoed) =>
              (c.FreeDecodeBeginBatched? || c.FreeDecodeRunBatched?)
              && c.batchSize == asked && resp.effectiveBatchSize == echoed && echoed != Some(asked)
            case AllocatorCacheNotDrained(k) => Heard(c) != c && resp.cacheMemory == Some(k) && k != 0
            case CompletedWorkMismatch(issued, work) =>
              c.ClosePhase? && IsDrained(resp) && issued == w.session.issuedSteps && work == resp.completedWork
              && work != Some(issued)
            case FreeRunConsistency => (c.CloseFreeRunPhase? || c.CloseBatchedFreeRunPhase?) && IsDrained(resp)
            case Protocol(ReplayReportMissing) => c.CohortReferenceReplay? && resp.cohortReferenceReplay.None?
            case Protocol(ReplayWidthDivergence(echoed)) =>
              c.CohortReferenceReplay? && resp.cohortReferenceReplay.Some?
              && resp.cohortReferenceReplay.value.replayWidth == Some(echoed) && echoed != "cohort"
            case _ => false
  {
    hide Consistent, CohortConsistent, AuditOf, CohortAuditOf, SpecEchoHonorsRequest;
  }

  /** What an accepted answer becomes: a close opens a new phase, and reports the engine's diagnostics beside an audit of
      what the caller handed in; any other verb hands the answer on and leaves the session as it was. */
  lemma AcceptedBecomes(w: World, c: Call, resp: WorkerResponse)
    requires !IsLocal(c) && Settle(w, c, resp).1.Ok?
    ensures var (after, r) := Settle(w, c, resp);
            && after.peer == w.peer
            && after.session == (if Heard(c) != c then w.session.(issuedSteps := 0) else w.session)
            && match c
               case CloseFreeRunPhase(run, n) =>
                 && r.value.Audited? && r.value.diag == resp && VerifyConsistency(run, n, resp.completedWork.value).Ok?
                 && r.value.audit == VerifyConsistency(run, n, resp.completedWork.value).value
                 && r.value.audit.draftedTotal == run.draftedTotal && r.value.audit.acceptedTotal == run.acceptedTotal
                 && r.value.audit.acceptanceLengths == run.acceptanceLengths
                 && r.value.audit.verifiedTokenCount == run.tokensLen
               case CloseBatchedFreeRunPhase(cohort, n) =>
                 && r.value.CohortAudited? && r.value.diag == resp
                 && r.value.cohortAudit.base.draftedTotal == cohort.draftedTotal
                 && r.value.cohortAudit.base.acceptedTotal == cohort.acceptedTotal
                 && r.value.cohortAudit.base.acceptanceLengths == cohort.acceptanceLengths
                 && r.value.cohortAudit.batchSize == cohort.batchSize == |cohort.tokensLenByStream|
                 && r.value.cohortAudit.cohortCommittedTotal == cohort.committedTotal
                 && r.value.cohortAudit.naturalAcceptedByStream == cohort.naturalAcceptedByStream
                 && r.value.cohortAudit.activeStreamsByRound == cohort.activeStreamsByRound
               case CohortReferenceReplay(_, _) => r.value.Report? && resp.cohortReferenceReplay == Some(r.value.report)
               case _ => r.value == Response(resp)
  {
    hide SpecEchoHonorsRequest;
  }

  /** An operation that succeeds put one line on the wire, which reads back as the call, and was answered under the
      session's nonce and that line's own id, with ok set. */
  lemma OkMeansHeard(w: World, c: Call) returns (resp: WorkerResponse)
    requires !IsLocal(c) && Exec(w, c).1.Ok?
    ensures var after := Exec(w, c).0.peer.wire;
            && |after| == |w.peer.wire| + 1 && w.peer.wire <= after
            && CallOf(after[|w.peer.wire|]) == Some(Heard(c))
            && resp.ok && resp.nonce == Some(w.session.nonce) && resp.id == after[|w.peer.wire|].id
    ensures RepliesWith(Exec(w, c).1.value, resp)
    ensures !w.session.discarded && Permitted(w.session, c)
    ensures c.DecodeBegin? || c.FreeDecodeBegin? || c.FreeDecodeBeginBatched? ==> EchoesSpec(c.spec, resp)
    ensures c.FreeDecodeBeginBatched? ==> resp.effectiveBatchSize == Some(c.batchSize)
    ensures c.CorrectnessBegin? || c.CorrectnessStep? ==> resp.topLogits.Some? && |resp.topLogits.value| == 8
    ensures Heard(c) != c ==> IsDrained(resp)
  {
    hide RequestFor, CallOf, SendStep, ReadResponse, SpecEchoHonorsRequest;
    resp := OkMeansEchoed(w, c);
    LineReadsBack(c, resp.id);
    RefusedExactly(w.session, c);
  }

  // ---- the hello -----------------------------------------------------------------------

  /** A hello is accepted in exactly one shape; the state it opens is read off it. */
  lemma HelloVerdict(peer: Peer, n: nat, resp: WorkerResponse, rest: seq<Event>)
    requires peer.inbox == LogLines(n) + [Message(resp)] + rest
    ensures var (after, r) := Connect(peer);
            && after == peer.(inbox := rest)
            && (r.Ok? <==> resp.id == 0 && resp.ok && resp.nonce.Some? && resp.nonce.value != ""
                           && resp.protocolVersion == Some(1))
            && (r.Ok? ==> r.value.nonce == resp.nonce.value && r.value.nextId == 1 && r.value.issuedSteps == 0
                          && (forall x ::
                                x in r.value.capabilities <==> resp.capabilities.Some? && x in resp.capabilities.value)
                          && (forall x :: x in r.value.specModes <==> resp.specModes.Some? && x in resp.specModes.value)
                          && r.value.maxBatchSize == resp.maxBatchSize && r.value.runDeadline.None? && !r.value.discarded)
            && (r.Err? ==> match r.error
                           case Protocol(HelloId(k)) => k == resp.id && k != 0
                           case Protocol(HelloNotOk) => resp.id == 0 && !resp.ok
                           case Protocol(HelloNonce) => resp.id == 0 && resp.ok && resp.nonce in {None, Some("")}
                           case Protocol(HelloVersion(v)) =>
                             v == resp.protocolVersion && v != Some(1) && resp.nonce !in {None, Some("")}
                           case _ => false)
  {
    ReadSkipsLogs(peer, n, Message(resp), rest, None);
  }
}
