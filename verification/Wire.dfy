/** Messages, transport events and the state of the far end of a session. */
module Wire {
  import opened Wrappers
  import opened Floats
  import opened Protocol

  datatype WorkerRequest = WorkerRequest(
    id: int,
    kind: RequestKind,
    promptTokens: Option<seq<int>>,
    token: Option<int>,
    seedTokens: Option<seq<int>>,
    steps: Option<int>,
    count: Option<u32>,
    spec: Option<SpecConfig>,
    seedTokensByStream: Option<seq<seq<int>>>,
    batchSize: Option<u32>,
    replaySeedsByStream: Option<seq<seq<int>>>,
    committedByStream: Option<seq<seq<int>>>,
    replayWidth: Option<string>)

  function NewRequest(kind: RequestKind): WorkerRequest {
    WorkerRequest(0, kind, None, None, None, None, None, None, None, None, None, None, None)
  }

  datatype TopLogit = TopLogit(token: int, logit: Float)

  datatype ReplayReport = ReplayReport(replayWidth: Option<string>, streams: seq<seq<int>>)

  datatype WorkerResponse = WorkerResponse(
    id: int,
    nonce: Option<string>,
    ok: bool,
    token: Option<int>,
    topLogits: Option<seq<TopLogit>>,
    seedToken: Option<int>,
    tokens: Option<seq<int>>,
    protocolVersion: Option<u32>,
    completedWork: Option<int>,
    cacheMemory: Option<int>,
    capabilities: Option<seq<string>>,
    specModes: Option<seq<string>>,
    maxBatchSize: Option<u32>,
    acceptanceLengths: Option<seq<u32>>,
    draftedTotal: Option<u64>,
    acceptedTotal: Option<u64>,
    committedTotal: Option<u64>,
    effectiveSpec: Option<SpecConfig>,
    seedTokenByStream: Option<seq<int>>,
    effectiveBatchSize: Option<u32>,
    tokensByStream: Option<seq<seq<int>>>,
    naturalAcceptedByStream: Option<seq<seq<u32>>>,
    rounds: Option<u32>,
    activeStreamsByRound: Option<seq<u32>>,
    cohortReferenceReplay: Option<ReplayReport>)

  /** A response carrying an id, a nonce and a status, and nothing else. */
  function BareResponse(id: int, nonce: Option<string>, ok: bool): WorkerResponse {
    WorkerResponse(id, nonce, ok, None, None, None, None, None, None, None, None, None, None, None, None, None, None,
                   None, None, None, None, None, None, None, None)
  }

  /** What one read of the transport can yield: a decoded response, a log line, a line that looks like
      a response but does not decode, the end of the stream, a passed deadline, or an I/O failure. */
  datatype Event =
    | Message(resp: WorkerResponse)
    | LogLine
    | Undecodable
    | Eof
    | TimedOut
    | Broken

  /** How a conformant engine is configured; only the work counter can be skewed. */
  datatype MockConfig = MockConfig(
    nonce: string,
    capabilities: seq<string>,
    specModes: seq<string>,
    maxBatchSize: Option<u32>,
    completedWorkDelta: int,
    cacheMemory: Option<int>,
    acceptanceLengths: Option<seq<u32>>)

  datatype MockState = MockState(config: MockConfig, completedWork: int)

  /** The far end: the events still to be read, the lines written so far, the engine producing responses
      if there is one, and how the coming writes end. Without an engine the events and the fates of the
      writes are whatever an adversary chose; a write past the last chosen one goes through. */
  datatype Peer = Peer(inbox: seq<Event>, wire: seq<WorkerRequest>, engine: Option<MockState>, writes: seq<bool>)

  datatype ProtocolFault =
    | HelloId(got: int)
    | HelloNotOk
    | HelloNonce
    | HelloVersion(version: Option<u32>)
    | ClosedStream
    | UndecodableLine
    | IdMismatch(response: int)
    | TopLogitsCount(count: nat)
    | ReplayReportMissing
    | ReplayWidthDivergence(echoed: string)

  datatype RunnerError =
    | Io
    | Protocol(fault: ProtocolFault)
    | NonceMismatch(expected: string, nonce: Option<string>)
    | Engine(kind: RequestKind)
    | CompletedWorkMismatch(issued: int, work: Option<int>)
    | AllocatorCacheNotDrained(reported: int)
    | SessionDiscarded
    | CapabilityNotAdvertised(capability: string)
    | FreeRunConsistency
    | RunTimeout(budget: real)
    | SpecModeNotRunnable(mode: string)
    | SpecEchoDivergence(requestedSpec: SpecConfig, effectiveSpec: Option<SpecConfig>)
    | BatchEchoDivergence(requestedBatch: u32, effectiveBatch: Option<u32>)
}
