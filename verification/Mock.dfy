/** The in-process conformant engine, as a state and as an object (bench-runner, mock.rs). */
module Mock {
  import opened Wrappers
  import Floats
  import opened Protocol
  import opened Sums
  import opened Wire

  /** The per-round widths reported for n committed tokens: the configured ones, or n ones. */
  function AcceptanceFor(config: MockConfig, n: u32): seq<u32> {
    match config.acceptanceLengths
    case Some(lengths) => lengths
    case None => seq(n, i => 1)
  }

  /** How many forwards a request costs. */
  function WorkOf(config: MockConfig, req: WorkerRequest): nat {
    if IsTimedStep(req.kind) || req.kind.FreeDecodeBegin? then 1
    else if req.kind.FreeDecodeRun? then |AcceptanceFor(config, CountOf(req))|
    else 0
  }

  function CountOf(req: WorkerRequest): u32 {
    if req.count.Some? then req.count.value else 0
  }

  function TopLogits(seed: int): seq<TopLogit> {
    seq(TOP_LOGITS_K, i => TopLogit(5000 + seed + i, Floats.Finite(10.0 - i as real)))
  }

  /** The rectangle, histogram and audit vectors of a cohort run of width b. */
  function CohortRunResponse(base: WorkerResponse, b: u32, n: u32, accept: seq<u32>): WorkerResponse {
    ProductFits(b, n);
    ScaleUp(Monus(n, |accept|), n, b);
    base.(tokensByStream := Some(seq(b, slot => seq(n, i => 3000 + slot * 10000 + i))),
          effectiveBatchSize := Some(b),
          naturalAcceptedByStream := Some(seq(b, slot => accept)),
          activeStreamsByRound := Some(seq(|accept|, round => b)),
          rounds := Some(|accept| % 0x1_0000_0000),
          acceptanceLengths := Some(accept),
          draftedTotal := Some(b * n),
          acceptedTotal := Some(Monus(n, |accept|) * b),
          committedTotal := Some(b * n))
  }

  function RunResponse(base: WorkerResponse, n: u32, accept: seq<u32>): WorkerResponse {
    base.(tokens := Some(seq(n, i => 3000 + i)),
          acceptanceLengths := Some(accept),
          draftedTotal := Some(n),
          acceptedTotal := Some(Monus(n, |accept|)),
          committedTotal := Some(n))
  }

  /** The payload for a request; `work` is the counter after the request was counted. */
  function BuildResponse(config: MockConfig, work: int, req: WorkerRequest): WorkerResponse {
    var base := BareResponse(req.id, Some(config.nonce), true);
    match req.kind
    case Prefill => base.(token := Some(1000 + req.id))
    case DecodeBegin => base.(seedToken := Some(2000 + req.id), effectiveSpec := req.spec)
    case DecodeStep => base.(token := Some(3000 + req.id))
    case FreeDecodeBegin =>
      if req.batchSize.Some? then
        var b := req.batchSize.value;
        base.(seedTokenByStream := Some(seq(b, slot => 2000 + slot)),
              effectiveBatchSize := Some(b), effectiveSpec := req.spec)
      else base.(seedToken := Some(2000 + req.id), effectiveSpec := req.spec)
    case FreeDecodeRun =>
      var n := CountOf(req);
      if req.batchSize.Some? then CohortRunResponse(base, req.batchSize.value, n, AcceptanceFor(config, n))
      else RunResponse(base, n, AcceptanceFor(config, n))
    case Correctness =>
      var steps := if req.steps.Some? && 0 <= req.steps.value then req.steps.value else 0;
      base.(tokens := Some(seq(steps, i => 4000 + i)))
    case CorrectnessBegin => base.(token := Some(5000 + req.id), topLogits := Some(TopLogits(req.id)))
    case CorrectnessStep => base.(token := Some(5000 + req.id), topLogits := Some(TopLogits(req.id)))
    case PhaseDiagnostics =>
      base.(completedWork := Some(work + config.completedWorkDelta), cacheMemory := config.cacheMemory)
    case CohortReferenceReplay => base
  }

  function Hello(config: MockConfig): WorkerResponse {
    BareResponse(0, Some(config.nonce), true).(
      protocolVersion := Some(PROTOCOL_VERSION),
      capabilities := Some(config.capabilities),
      specModes := Some(config.specModes),
      maxBatchSize := config.maxBatchSize)
  }

  /** One written line, taken by the far end, or lost when the write fails. */
  function PeerWrite(peer: Peer, req: WorkerRequest): (Peer, bool) {
    match peer.engine
    case None =>
      if peer.writes == [] then (peer.(wire := peer.wire + [req]), true)
      else
        var rest := peer.(writes := peer.writes[1..]);
        if peer.writes[0] then (rest.(wire := peer.wire + [req]), true) else (rest, false)
    case Some(m) =>
      var work := m.completedWork + WorkOf(m.config, req);
      var after := if req.kind.PhaseDiagnostics? then 0 else work;
      (Peer(peer.inbox + [Message(BuildResponse(m.config, work, req))], peer.wire + [req],
            Some(MockState(m.config, after)), peer.writes), true)
  }

  /** One read: the next queued event, or the end of the stream. */
  function PeerRead(peer: Peer): (Peer, Event) {
    if peer.inbox == [] then (peer, Eof)
    else (peer.(inbox := peer.inbox[1..]), peer.inbox[0])
  }

  /** The conformant engine as an object: it counts its own work and queues its own responses. */
  class MockEngine {
    const config: MockConfig
    var completedWork: int
    var outbox: seq<Event>
    var wire: seq<WorkerRequest>

    ghost function AsPeer(): Peer
      reads this
    {
      Peer(outbox, wire, Some(MockState(config, completedWork)), [])
    }

    constructor (config: MockConfig)
      ensures AsPeer() == Peer([Message(Hello(config))], [], Some(MockState(config, 0)), [])
    {
      this.config := config;
      completedWork := 0;
      outbox := [Message(Hello(config))];
      wire := [];
    }

    method WriteLine(req: WorkerRequest) returns (ok: bool)
      modifies this
      ensures (AsPeer(), ok) == PeerWrite(old(AsPeer()), req)
    {
      wire := wire + [req];
      if IsTimedStep(req.kind) {
        completedWork := completedWork + 1;
      }
      if req.kind.FreeDecodeBegin? {
        completedWork := completedWork + 1;
      }
      if req.kind.FreeDecodeRun? {
        completedWork := completedWork + |AcceptanceFor(config, CountOf(req))|;
      }
      var resp := BuildResponse(config, completedWork, req);
      if req.kind.PhaseDiagnostics? {
        completedWork := 0;
      }
      outbox := outbox + [Message(resp)];
      return true;
    }

    method ReadLine() returns (event: Event)
      modifies this
      ensures (AsPeer(), event) == PeerRead(old(AsPeer()))
    {
      if outbox == [] {
        return Eof;
      }
      event := outbox[0];
      outbox := outbox[1..];
    }
  }

  /** A transport whose every event, and the fate of every write, was chosen in advance by an adversary. */
  class ScriptedTransport {
    var inbox: seq<Event>
    var wire: seq<WorkerRequest>
    var writes: seq<bool>

    ghost function AsPeer(): Peer
      reads this
    {
      Peer(inbox, wire, None, writes)
    }

    constructor (inbox: seq<Event>, writes: seq<bool>)
      ensures AsPeer() == Peer(inbox, [], None, writes)
    {
      this.inbox := inbox;
      this.writes := writes;
      wire := [];
    }

    method WriteLine(req: WorkerRequest) returns (ok: bool)
      modifies this
      ensures (AsPeer(), ok) == PeerWrite(old(AsPeer()), req)
    {
      ok := true;
      if writes != [] {
        ok := writes[0];
        writes := writes[1..];
      }
      if ok {
        wire := wire + [req];
      }
    }

    method ReadLine() returns (event: Event)
      modifies this
      ensures (AsPeer(), event) == PeerRead(old(AsPeer()))
    {
      if inbox == [] {
        return Eof;
      }
      event := inbox[0];
      inbox := inbox[1..];
    }
  }
}
