/** What the conformant engine's answers hold, verb by verb (bench-runner, mock.rs). */
module MockLaws {
  import opened Wrappers
  import opened Protocol
  import opened Wire
  import opened Mock
  import Floats
  import Ranking

  function Answer(config: MockConfig, work: int, req: WorkerRequest): WorkerResponse {
    BuildResponse(config, work, req)
  }

  /** A correctness answer is a list the correctness gate trusts, as long as its tokens stay in the vocabulary. */
  lemma CorrectnessAnswersAreTrusted(config: MockConfig, work: int, req: WorkerRequest)
    requires req.kind.CorrectnessBegin? || req.kind.CorrectnessStep?
    ensures var resp := Answer(config, work, req);
            resp.token.Some? && resp.topLogits.Some?
            && (Ranking.Trustworthy(resp.topLogits.value, resp.token.value) <==> -5000 <= req.id <= 257136)
  {
    var logits := TopLogits(req.id);
    assert logits[0].token == 5000 + req.id && logits[7].token == 5007 + req.id;
    assert forall i :: 0 <= i < |logits| ==> logits[i] == TopLogit(5000 + req.id + i, Floats.Finite(10.0 - i as real));
  }

  /** The best of its logits is ten, and each next one is one lower. */
  lemma LogitsFallByOne(seed: int, i: nat)
    requires i < |TopLogits(seed)|
    ensures |TopLogits(seed)| == 8
    ensures TopLogits(seed)[i].logit == Floats.Finite(if i == 0 then 10.0 else 10.0 - i as real)
    ensures TopLogits(seed)[i].token - TopLogits(seed)[0].token == i
  {
  }

  /** Each round commits one token of the base model's own; all the others were drafted and accepted. */
  lemma DraftsAddUp(config: MockConfig, work: int, req: WorkerRequest)
    requires req.kind.FreeDecodeRun? && req.batchSize.None?
    ensures var resp := Answer(config, work, req); var n := CountOf(req);
            && resp.committedTotal == Some(n) && resp.draftedTotal == Some(n)
            && resp.acceptanceLengths.Some? && resp.acceptedTotal.Some?
            && (if |resp.acceptanceLengths.value| <= n then resp.acceptedTotal.value + |resp.acceptanceLengths.value| == n
                else resp.acceptedTotal.value == 0)
  {
  }

  /** A run on its own generates what the first stream of a cohort does, in the same rounds and with a stream's share of
      its totals; every stream of the cohort walks the committed widths, and none drops out. */
  lemma RunIsFirstStream(config: MockConfig, work: int, req: WorkerRequest, b: u32)
    requires req.kind.FreeDecodeRun? && b != 0
    ensures var alone := Answer(config, work, req.(batchSize := None));
            var cohort := Answer(config, work, req.(batchSize := Some(b)));
            && cohort.tokensByStream.Some? && |cohort.tokensByStream.value| == b
            && alone.tokens == Some(cohort.tokensByStream.value[0])
            && alone.acceptanceLengths == cohort.acceptanceLengths && alone.acceptanceLengths.Some?
            && cohort.draftedTotal == Some(alone.draftedTotal.value * b)
            && cohort.acceptedTotal == Some(alone.acceptedTotal.value * b)
            && cohort.committedTotal == Some(alone.committedTotal.value * b)
            && cohort.naturalAcceptedByStream.Some? && |cohort.naturalAcceptedByStream.value| == b
            && (forall row :: row in cohort.naturalAcceptedByStream.value ==> Some(row) == alone.acceptanceLengths)
            && cohort.activeStreamsByRound.Some?
            && |cohort.activeStreamsByRound.value| == |alone.acceptanceLengths.value|
            && (forall active :: active in cohort.activeStreamsByRound.value ==> active == b)
  {
    var n := CountOf(req);
    var alone := seq(n, i => 3000 + i);
    var streams := seq(b, slot => seq(n, i => 3000 + slot * 10000 + i));
    assert streams[0] == alone;
  }

  /** Neighbouring streams share no token up to ten thousand of them, and share one beyond. */
  lemma StreamsAreApart(config: MockConfig, work: int, req: WorkerRequest, slot: nat)
    requires req.kind.FreeDecodeRun? && req.batchSize.Some? && slot + 1 < req.batchSize.value
    ensures var streams := Answer(config, work, req).tokensByStream.value;
            (forall t :: t in streams[slot] ==> t !in streams[slot + 1]) <==> CountOf(req) <= 10000
  {
    var n := CountOf(req);
    var streams := Answer(config, work, req).tokensByStream.value;
    var a, c := streams[slot], streams[slot + 1];
    assert a == seq(n, i => 3000 + slot * 10000 + i) && c == seq(n, i => 3000 + (slot + 1) * 10000 + i);
    if 10000 < n {
      assert a[10000] == c[0] && c[0] in c && a[10000] in a;
    }
  }

  /** Tokens are numbered from a thousand that tells the verb: by the line's id, or by place within a run. */
  lemma ThousandTellsVerb(config: MockConfig, work: int, req: WorkerRequest, i: nat)
    ensures var resp := Answer(config, work, req);
            match req.kind
            case Prefill => resp.token.Some? && resp.token.value - req.id == 1000
            case DecodeBegin => resp.seedToken.Some? && resp.seedToken.value - req.id == 2000
            case DecodeStep => resp.token.Some? && resp.token.value - req.id == 3000
            case FreeDecodeBegin =>
              if req.batchSize.None? then resp.seedToken.Some? && resp.seedToken.value - req.id == 2000
              else resp.seedTokenByStream.Some? && |resp.seedTokenByStream.value| == req.batchSize.value
                   && (i < req.batchSize.value ==> resp.seedTokenByStream.value[i] - i == 2000)
            case FreeDecodeRun =>
              req.batchSize.None? ==>
                resp.tokens.Some? && |resp.tokens.value| == (if req.count.Some? then req.count.value else 0)
                && (i < |resp.tokens.value| ==> resp.tokens.value[i] - i == 3000)
            case Correctness =>
              resp.tokens.Some?
              && |resp.tokens.value| == (if req.steps.Some? && 0 < req.steps.value then req.steps.value else 0)
              && (i < |resp.tokens.value| ==> resp.tokens.value[i] - i == 4000)
            case _ => resp.tokens.None? && resp.seedToken.None?
  {
  }
}
