/**
 The gates against an engine that computes a language model: which goldens it passes, and what it is asked
 (bench-core, conformance.rs).
 */
module ModelGate {
  import opened Wrappers
  import opened Floats
  import opened Sums
  import opened Ranking
  import opened Conformance
  import opened ConformanceRun
  import Golden

  /** A language model, greedily decoded: the token that follows a context. */
  type Model = seq<int> -> int

  /** The greedy continuation of a prompt. */
  predicate IsGreedy(next: Model, prompt: seq<int>, tokens: seq<int>) {
    forall k :: 0 <= k < |tokens| ==> tokens[k] == next(prompt + tokens[..k])
  }

  // ---- the engine ------------------------------------------------------------------------

  /** Fed the forced tokens, the engine predicts each position from everything before it. */
  predicate PredictsForced(next: Model, prompt: seq<int>, forced: seq<int>, steps: nat, outputs: seq<AnchorOutput>) {
    && steps <= |forced| && |outputs| == steps
    && forall k :: 0 <= k < steps ==> outputs[k].token == next(prompt + forced[..k])
  }

  /** The engine's list for a context is finite and led by the model's own token. */
  predicate PredictsNext(next: Model, context: seq<int>, output: AnchorOutput) {
    && AllFinite(output.topLogits) && output.topLogits != []
    && exists i :: 0 <= i < |output.topLogits| && LeadsAt(output.topLogits, i, next(context))
  }

  /** Entry `i` is the token: nothing has a higher logit, and nothing as high has a lower token. */
  predicate LeadsAt(logits: seq<TopLogit>, i: nat, token: int)
    requires AllFinite(logits) && i < |logits|
  {
    && logits[i].token == token
    && forall j :: 0 <= j < |logits| ==>
         logits[j].logit.value <= logits[i].logit.value
         && (logits[j].logit.value == logits[i].logit.value ==> token <= logits[j].token)
  }

  /** Whatever it was asked before, the engine drains, and answers the last call as the model does. */
  ghost predicate Computes(engine: Engine, next: Model) {
    && (forall h :: EndsWith(h, Drain) ==> engine.onDrain(h).Ok?)
    && (forall h, prompt, forced, steps: nat :: EndsWith(h, TeacherForced(prompt, forced, steps)) && steps <= |forced| ==>
          engine.onTeacherForced(h).Ok? && PredictsForced(next, prompt, forced, steps, engine.onTeacherForced(h).value))
    && (forall h, context :: EndsWith(h, AnchorForward(context)) ==>
          engine.onAnchor(h).Ok? && PredictsNext(next, context, engine.onAnchor(h).value))
    && (forall h, prompt, count: nat :: EndsWith(h, FreeRun(prompt, count)) ==>
          engine.onFreeRun(h).Ok? && |engine.onFreeRun(h).value| == count
          && IsGreedy(next, prompt, engine.onFreeRun(h).value))
  }

  /** It lists no runner-up: one logit for an anchor, none at a forced step. */
  ghost predicate Terse(engine: Engine) {
    && (forall h :: engine.onTeacherForced(h).Ok? ==>
          forall k :: 0 <= k < |engine.onTeacherForced(h).value| ==> engine.onTeacherForced(h).value[k].topLogits == [])
    && (forall h :: engine.onAnchor(h).Ok? ==> |engine.onAnchor(h).value.topLogits| <= 1)
  }

  // ---- the golden -----------------------------------------------------------------------

  /** The golden window is what the model predicts from the golden tokens before it. */
  predicate BaseAgrees(next: Model, c: Golden.BaseCase, steps: nat)
    requires steps <= |c.expected|
  {
    forall k :: 0 <= k < steps ==> next(c.prompt + c.expected[..k]) == c.expected[k]
  }

  /** The model's token is the expected one or one accepted beside it. */
  predicate AnchorAgrees(next: Model, c: Golden.AnchorCase) {
    next(c.context) == c.expectedToken || (c.accepted.Some? && next(c.context) in c.accepted.value)
  }

  predicate FreeRunAgrees(next: Model, c: Golden.FreeRunCase)
    requires Required(c) <= |c.expected|
  {
    IsGreedy(next, c.prompt, c.expected[..Required(c)])
  }

  predicate Loaded(golden: Golden.Fixture, demands: Golden.Demands) {
    Golden.Acceptable(Golden.Document(Some(1), golden.modelType, golden.provenance, golden.cases, golden.gates,
                                      golden.benchmark), golden.sha256, golden.byteLength, demands)
  }

  lemma LoadedMeans(golden: Golden.Fixture, demands: Golden.Demands, scope: Scope)
    requires Loaded(golden, demands)
    ensures forall i :: 0 <= i < |golden.cases| ==> demands.steps <= |golden.cases[i].expected|
    ensures forall i :: 0 <= i < |ScopedAnchors(golden, scope)| ==>
                          Golden.ValidAnchorCase(ScopedAnchors(golden, scope)[i])
    ensures forall i :: 0 <= i < |ScopedFreeRuns(golden, scope)| ==>
                          Golden.ValidFreeRunCase(ScopedFreeRuns(golden, scope)[i], demands.promptTokens)
                          && Required(ScopedFreeRuns(golden, scope)[i]) <= |ScopedFreeRuns(golden, scope)[i].expected|
  {
    hide Golden.ValidName, Golden.InVocabulary;
  }

  /** Every golden case in scope is one the model agrees with. */
  ghost predicate Agrees(next: Model, golden: Golden.Fixture, demands: Golden.Demands, scope: Scope)
    requires Loaded(golden, demands)
  {
    LoadedMeans(golden, demands, scope);
    && (forall i :: 0 <= i < |golden.cases| ==> BaseAgrees(next, golden.cases[i], demands.steps))
    && (forall i :: 0 <= i < |ScopedAnchors(golden, scope)| ==> AnchorAgrees(next, ScopedAnchors(golden, scope)[i]))
    && (forall i :: 0 <= i < |ScopedFreeRuns(golden, scope)| ==> FreeRunAgrees(next, ScopedFreeRuns(golden, scope)[i]))
  }

  // ---- one case ---------------------------------------------------------------------------

  lemma BaseVerdictIs(next: Model, c: Golden.BaseCase, steps: nat, outputs: seq<AnchorOutput>, r: TeacherForcedResult)
    requires PredictsForced(next, c.prompt, c.expected, steps, outputs) && IsTeacherForcedVerdict(c, outputs, steps, r)
    ensures BaseAgrees(next, c, steps) ==> r.passed
    ensures (forall k :: 0 <= k < steps ==> outputs[k].topLogits == []) && r.passed ==> BaseAgrees(next, c, steps)
  {
    PassingCaseTracksGolden(c, outputs, steps, r);
    if r.passed && forall k :: 0 <= k < steps ==> outputs[k].topLogits == [] {
      forall k | 0 <= k < steps ensures next(c.prompt + c.expected[..k]) == c.expected[k] {
        assert !TopTie(c.expected[k], outputs[k].token, outputs[k].topLogits);
      }
    }
  }

  lemma LeaderIsBest(logits: seq<TopLogit>, i: nat, token: int)
    requires AllFinite(logits) && i < |logits| && LeadsAt(logits, i, token)
    ensures BestOf(logits).Some? && BestOf(logits).value.token == token
  {
    BestIsUnbeaten(logits, i);
    var best := BestOf(logits).value;
    var j :| 0 <= j < |logits| && logits[j] == best;
    assert !Beats(logits[i], best);
  }

  lemma AcceptedAre(c: Golden.AnchorCase, token: int)
    ensures token in AcceptedTokens(c) <==> token == c.expectedToken || (c.accepted.Some? && token in c.accepted.value)
  {
  }

  lemma AnchorVerdictIs(next: Model, c: Golden.AnchorCase, output: AnchorOutput)
    requires PredictsNext(next, c.context, output)
    ensures AnchorAgrees(next, c) ==> EvaluateAnchorCase(c, output).passed
    ensures |output.topLogits| <= 1 && EvaluateAnchorCase(c, output).passed ==> AnchorAgrees(next, c)
  {
    hide EvaluateAnchorCase, RankedCloseEnough, TopTie, AcceptedTokens, LeadsAt;
    var logits, token := output.topLogits, next(c.context);
    var i :| 0 <= i < |logits| && LeadsAt(logits, i, token);
    LeaderIsBest(logits, i, token);
    AnchorPassMeans(c, output);
    AcceptedAre(c, token);
    if |logits| <= 1 && EvaluateAnchorCase(c, output).passed {
      OnlyOneListed(c, logits, token);
      forall a | a in AcceptedTokens(c) && TopTie(a, token, logits) ensures a == token {
        OnlyItselfTies(a, token, logits);
      }
    }
  }

  lemma OnlyOneListed(c: Golden.AnchorCase, logits: seq<TopLogit>, token: int)
    requires AllFinite(logits) && |logits| == 1 && logits[0].token == token
    ensures RankedCloseEnough(c, logits) ==> c.expectedToken == token
  {
  }

  lemma OnlyItselfTies(a: int, token: int, logits: seq<TopLogit>)
    requires |logits| == 1 && logits[0].token == token && TopTie(a, token, logits)
    ensures a == token
  {
    hide Trustworthy;
  }

  /** A greedy run of the asked length matches the required prefix exactly when that prefix is greedy itself. */
  lemma {:induction false} GreedyPrefix(next: Model, prompt: seq<int>, expected: seq<int>, tokens: seq<int>, n: nat)
    requires n <= |expected| && n <= |tokens| && IsGreedy(next, prompt, tokens)
    ensures IsGreedy(next, prompt, expected[..n]) <==> expected[..n] == tokens[..n]
  {
    if n != 0 {
      GreedyPrefix(next, prompt, expected, tokens, n - 1);
      assert forall k :: 0 <= k < n ==> expected[..n][..k] == expected[..k] && tokens[..n][..k] == tokens[..k];
      assert forall k :: 0 <= k < n - 1 ==> expected[..n - 1][..k] == expected[..k];
      assert expected[..n] == expected[..n - 1] + [expected[n - 1]] && tokens[..n] == tokens[..n - 1] + [tokens[n - 1]];
      if expected[..n] == tokens[..n] {
        GreedyCut(next, prompt, tokens, n);
      }
      if IsGreedy(next, prompt, expected[..n]) {
        GreedyCut(next, prompt, expected[..n], n - 1);
        assert expected[..n][..n - 1] == expected[..n - 1] == tokens[..n - 1];
        assert expected[..n][n - 1] == next(prompt + expected[..n - 1]);
      }
    }
  }

  lemma GreedyCut(next: Model, prompt: seq<int>, tokens: seq<int>, n: nat)
    requires n <= |tokens| && IsGreedy(next, prompt, tokens)
    ensures IsGreedy(next, prompt, tokens[..n])
  {
    assert forall k :: 0 <= k < n ==> tokens[..n][..k] == tokens[..k];
  }

  lemma FreeRunVerdictIs(next: Model, c: Golden.FreeRunCase, promptTokens: nat, tokens: seq<int>, r: FreeRunResult)
    requires Golden.ValidFreeRunCase(c, promptTokens) && IsFreeRunVerdict(c, tokens, r)
    requires |tokens| == |c.expected| && IsGreedy(next, c.prompt, tokens)
    ensures Required(c) <= |c.expected| && (r.passed <==> FreeRunAgrees(next, c))
  {
    FreeRunPassMeans(c, promptTokens, tokens, r);
    GreedyPrefix(next, c.prompt, c.expected, tokens, Required(c));
  }

  // ---- the run ---------------------------------------------------------------------------

  lemma AsksAreDrainedCases(golden: Golden.Fixture, steps: nat, scope: Scope, before: seq<Call>, history: seq<Call>)
    requires Underway(before, AllAsks(golden, steps, scope), history)
    ensures history == before || EndsWith(history, Drain)
            || exists k :: 0 <= k < |AllAsks(golden, steps, scope)| && EndsWith(history, AllAsks(golden, steps, scope)[k])
  {
    hide AllAsks;
    var asks := AllAsks(golden, steps, scope);
    var k: nat, drained: bool :| AtStep(before, asks, k, drained, history);
    if !drained && 0 < k {
      DrainedOneMore(asks, k - 1);
      assert EndsWith(history, asks[k - 1]);
    }
  }

  /** What is asked of a loaded golden is its own cases. */
  lemma AskIs(golden: Golden.Fixture, demands: Golden.Demands, scope: Scope, k: nat)
    requires Loaded(golden, demands) && k < |AllAsks(golden, demands.steps, scope)|
    ensures match AllAsks(golden, demands.steps, scope)[k]
            case TeacherForced(prompt, forced, steps) =>
              steps == demands.steps && exists i :: 0 <= i < |golden.cases| && golden.cases[i].prompt == prompt
                                                    && golden.cases[i].expected == forced && steps <= |forced|
            case AnchorForward(context) =>
              exists i :: 0 <= i < |ScopedAnchors(golden, scope)| && ScopedAnchors(golden, scope)[i].context == context
            case FreeRun(prompt, count) =>
              exists i :: 0 <= i < |ScopedFreeRuns(golden, scope)| && ScopedFreeRuns(golden, scope)[i].prompt == prompt
                          && count == |ScopedFreeRuns(golden, scope)[i].expected|
            case Drain => false
  {
    hide Loaded, ScopedAnchors, ScopedFreeRuns;
    LoadedMeans(golden, demands, scope);
    var b, a := |golden.cases|, |ScopedAnchors(golden, scope)|;
    var ask := AllAsks(golden, demands.steps, scope)[k];
    if k < b {
      assert ask == TeacherForced(golden.cases[k].prompt, golden.cases[k].expected, demands.steps);
    } else if k < b + a {
      assert ask == AnchorForward(ScopedAnchors(golden, scope)[k - b].context);
    } else {
      var c := ScopedFreeRuns(golden, scope)[k - b - a];
      assert ask == FreeRun(c.prompt, |c.expected|);
    }
  }

  /** An engine that computes a model gives no reason to stop. */
  lemma NothingStops(engine: Engine, next: Model, golden: Golden.Fixture, demands: Golden.Demands, scope: Scope,
                     before: seq<Call>, history: seq<Call>, e: RunError)
    requires Loaded(golden, demands) && Computes(engine, next)
    requires Underway(before, AllAsks(golden, demands.steps, scope), history)
    ensures Explained(engine, golden.cases, demands.steps, history, e) ==> |history| <= |before| && !e.ShortCase?
  {
    hide Loaded, AllAsks, PredictsForced, PredictsNext, IsGreedy;
    LoadedMeans(golden, demands, scope);
    if |history| <= |before| {
      return;
    }
    AsksAreDrainedCases(golden, demands.steps, scope, before, history);
    var last := history[|history| - 1];
    if last != Drain {
      var k :| 0 <= k < |AllAsks(golden, demands.steps, scope)|
               && EndsWith(history, AllAsks(golden, demands.steps, scope)[k]);
      AskIs(golden, demands, scope, k);
    }
    NeverFails(engine, next, golden, demands, history);
    if e.WrongOutputCount? && Explained(engine, golden.cases, demands.steps, history, e) {
      var i :| 0 <= i < |golden.cases| && golden.cases[i].name == e.name
               && EndsWith(history, TeacherForced(golden.cases[i].prompt, golden.cases[i].expected, demands.steps));
      FullAnswer(engine, next, history, golden.cases[i].prompt, golden.cases[i].expected, demands.steps);
    }
  }

  lemma NeverFails(engine: Engine, next: Model, golden: Golden.Fixture, demands: Golden.Demands, history: seq<Call>)
    requires Computes(engine, next) && history != []
    requires var last := history[|history| - 1]; last.TeacherForced? ==> last.steps <= |last.forced|
    ensures engine.Failure(history).None?
  {
    hide PredictsForced, PredictsNext, IsGreedy;
    assert EndsWith(history, history[|history| - 1]);
  }

  lemma FullAnswer(engine: Engine, next: Model, history: seq<Call>, prompt: seq<int>, forced: seq<int>, steps: nat)
    requires Computes(engine, next) && EndsWith(history, TeacherForced(prompt, forced, steps)) && steps <= |forced|
    ensures engine.onTeacherForced(history).Ok?
    ensures PredictsForced(next, prompt, forced, steps, engine.onTeacherForced(history).value)
  {
  }

  /** The verdict was reached on an answer to the case's own prompt and forced tokens. */
  ghost predicate BaseJudged(engine: Engine, c: Golden.BaseCase, steps: nat, r: TeacherForcedResult) {
    && steps <= |c.expected|
    && exists h :: EndsWith(h, TeacherForced(c.prompt, c.expected, steps))
                   && engine.onTeacherForced(h).Ok? && |engine.onTeacherForced(h).value| == steps
                   && IsTeacherForcedVerdict(c, engine.onTeacherForced(h).value, steps, r)
  }

  ghost predicate AnchorJudged(engine: Engine, c: Golden.AnchorCase, r: AnchorResult) {
    exists h :: EndsWith(h, AnchorForward(c.context)) && engine.onAnchor(h).Ok?
                && r == EvaluateAnchorCase(c, engine.onAnchor(h).value)
  }

  ghost predicate FreeRunJudged(engine: Engine, c: Golden.FreeRunCase, r: FreeRunResult) {
    exists h :: EndsWith(h, FreeRun(c.prompt, |c.expected|)) && engine.onFreeRun(h).Ok?
                && IsFreeRunVerdict(c, engine.onFreeRun(h).value, r)
  }

  lemma BaseWasJudged(engine: Engine, before: seq<Call>, cases: seq<Golden.BaseCase>, steps: nat, i: nat,
                      r: TeacherForcedResult)
    requires i < |cases| && BaseVerdictAt(engine, before, cases, steps, i, r)
    ensures BaseJudged(engine, cases[i], steps, r)
  {
    hide Drained, IsTeacherForcedVerdict, EndsWith;
    var h := before + Drained(BaseAsks(cases, steps)[..i + 1]);
    assert EndsWith(h, TeacherForced(cases[i].prompt, cases[i].expected, steps));
  }

  lemma AnchorWasJudged(engine: Engine, before: seq<Call>, cases: seq<Golden.AnchorCase>, i: nat, r: AnchorResult)
    requires i < |cases| && AnchorVerdictAt(engine, before, cases, i, r)
    ensures AnchorJudged(engine, cases[i], r)
  {
    hide Drained, EvaluateAnchorCase, EndsWith;
    var h := before + Drained(AnchorAsks(cases)[..i + 1]);
    assert EndsWith(h, AnchorForward(cases[i].context));
  }

  lemma FreeRunWasJudged(engine: Engine, before: seq<Call>, cases: seq<Golden.FreeRunCase>, i: nat, r: FreeRunResult)
    requires i < |cases| && FreeRunVerdictAt(engine, before, cases, i, r)
    ensures FreeRunJudged(engine, cases[i], r)
  {
    hide Drained, IsFreeRunVerdict, EndsWith;
    var h := before + Drained(FreeRunAsks(cases)[..i + 1]);
    assert EndsWith(h, FreeRun(cases[i].prompt, |cases[i].expected|));
  }

  /** Every verdict of a report was reached on an answer to its own golden case. */
  lemma ReportJudgesCases(engine: Engine, before: seq<Call>, golden: Golden.Fixture, steps: nat, scope: Scope,
                          report: Report)
    requires Reported(engine, before, golden, steps, scope, report)
    ensures |report.base| == |golden.cases|
            && forall i :: 0 <= i < |golden.cases| ==> BaseJudged(engine, golden.cases[i], steps, report.base[i])
    ensures var cases := ScopedAnchors(golden, scope);
            |report.anchors| == |cases|
            && forall i :: 0 <= i < |cases| ==> AnchorJudged(engine, cases[i], report.anchors[i])
    ensures var cases := ScopedFreeRuns(golden, scope);
            |report.freeRun| == |cases|
            && forall i :: 0 <= i < |cases| ==> FreeRunJudged(engine, cases[i], report.freeRun[i])
  {
    hide Drained, BaseAsks, AnchorAsks, FreeRunAsks, ScopedAnchors, ScopedFreeRuns, AllPassed, Verdicts,
         BaseVerdictAt, AnchorVerdictAt, FreeRunVerdictAt, BaseJudged, AnchorJudged, FreeRunJudged;
    forall i | 0 <= i < |golden.cases| ensures BaseJudged(engine, golden.cases[i], steps, report.base[i]) {
      BaseWasJudged(engine, before, golden.cases, steps, i, report.base[i]);
    }
    var afterBase := before + Drained(BaseAsks(golden.cases, steps));
    var anchors := ScopedAnchors(golden, scope);
    forall i | 0 <= i < |anchors| ensures AnchorJudged(engine, anchors[i], report.anchors[i]) {
      AnchorWasJudged(engine, afterBase, anchors, i, report.anchors[i]);
    }
    var runs := ScopedFreeRuns(golden, scope);
    forall i | 0 <= i < |runs| ensures FreeRunJudged(engine, runs[i], report.freeRun[i]) {
      FreeRunWasJudged(engine, afterBase + Drained(AnchorAsks(anchors)), runs, i, report.freeRun[i]);
    }
  }

  /** One base verdict of a run against an engine that computes a model. */
  lemma BaseCaseDecided(engine: Engine, next: Model, c: Golden.BaseCase, steps: nat, r: TeacherForcedResult)
    requires Computes(engine, next) && BaseJudged(engine, c, steps, r)
    ensures BaseAgrees(next, c, steps) ==> r.passed
    ensures Terse(engine) && r.passed ==> BaseAgrees(next, c, steps)
  {
    hide PredictsForced, IsTeacherForcedVerdict, BaseAgrees, EndsWith;
    var h :| EndsWith(h, TeacherForced(c.prompt, c.expected, steps))
             && engine.onTeacherForced(h).Ok? && |engine.onTeacherForced(h).value| == steps
             && IsTeacherForcedVerdict(c, engine.onTeacherForced(h).value, steps, r);
    FullAnswer(engine, next, h, c.prompt, c.expected, steps);
    BaseVerdictIs(next, c, steps, engine.onTeacherForced(h).value, r);
  }

  lemma AnchorDecided(engine: Engine, next: Model, c: Golden.AnchorCase, r: AnchorResult)
    requires Computes(engine, next) && AnchorJudged(engine, c, r)
    ensures AnchorAgrees(next, c) ==> r.passed
    ensures Terse(engine) && r.passed ==> AnchorAgrees(next, c)
  {
    hide EvaluateAnchorCase, AnchorAgrees, PredictsNext, EndsWith;
    var h :| EndsWith(h, AnchorForward(c.context)) && engine.onAnchor(h).Ok?
             && r == EvaluateAnchorCase(c, engine.onAnchor(h).value);
    AnchorVerdictIs(next, c, engine.onAnchor(h).value);
  }

  lemma FreeRunDecided(engine: Engine, next: Model, c: Golden.FreeRunCase, promptTokens: nat, r: FreeRunResult)
    requires Computes(engine, next) && Golden.ValidFreeRunCase(c, promptTokens) && FreeRunJudged(engine, c, r)
    ensures Required(c) <= |c.expected| && (r.passed <==> FreeRunAgrees(next, c))
  {
    hide IsFreeRunVerdict, FreeRunAgrees, Golden.ValidFreeRunCase, EndsWith;
    var h :| EndsWith(h, FreeRun(c.prompt, |c.expected|)) && engine.onFreeRun(h).Ok?
             && IsFreeRunVerdict(c, engine.onFreeRun(h).value, r);
    FreeRunVerdictIs(next, c, promptTokens, engine.onFreeRun(h).value, r);
  }

  lemma AgreementPasses(engine: Engine, next: Model, golden: Golden.Fixture, demands: Golden.Demands, scope: Scope,
                        before: seq<Call>, report: Report)
    requires Loaded(golden, demands) && Computes(engine, next)
    requires Reported(engine, before, golden, demands.steps, scope, report)
    ensures Agrees(next, golden, demands, scope) ==> report.passed
    ensures Terse(engine) && report.passed ==> Agrees(next, golden, demands, scope)
  {
    hide Computes, Terse, BaseAgrees, AnchorAgrees, FreeRunAgrees, Loaded, ScopedAnchors, ScopedFreeRuns, Verdicts,
         AllPassed, BaseFaithful, AnchorsFaithful, FreeRunsFaithful, BaseJudged, AnchorJudged, FreeRunJudged,
         Golden.ValidFreeRunCase, Golden.ValidAnchorCase, Required;
    var steps, anchors, runs := demands.steps, ScopedAnchors(golden, scope), ScopedFreeRuns(golden, scope);
    LoadedMeans(golden, demands, scope);
    ReportJudgesCases(engine, before, golden, steps, scope, report);
    PassedMeans(report);
    forall i | 0 <= i < |golden.cases|
      ensures BaseAgrees(next, golden.cases[i], steps) ==> report.base[i].passed
      ensures Terse(engine) && report.base[i].passed ==> BaseAgrees(next, golden.cases[i], steps)
    {
      BaseCaseDecided(engine, next, golden.cases[i], steps, report.base[i]);
    }
    forall i | 0 <= i < |anchors|
      ensures AnchorAgrees(next, anchors[i]) ==> report.anchors[i].passed
      ensures Terse(engine) && report.anchors[i].passed ==> AnchorAgrees(next, anchors[i])
    {
      AnchorDecided(engine, next, anchors[i], report.anchors[i]);
    }
    forall i | 0 <= i < |runs| ensures report.freeRun[i].passed <==> FreeRunAgrees(next, runs[i]) {
      FreeRunDecided(engine, next, runs[i], demands.promptTokens, report.freeRun[i]);
    }
  }

  /**
   Against an engine that computes a model, a run on a loaded golden always ends in a report. It passes whenever the
   model continues every prompt of the golden as the golden does; and if the engine lists no runner-up, only then.
   */
  lemma ModelDecidesGate(engine: Engine, next: Model, golden: Golden.Fixture, demands: Golden.Demands, scope: Scope,
                         before: seq<Call>, history: seq<Call>, r: Result<Report, RunError>)
    requires Loaded(golden, demands) && Computes(engine, next)
    requires IsOutcome(engine, before, golden, demands.steps, scope, history, r)
    ensures r.Ok?
    ensures Agrees(next, golden, demands, scope) ==> r.value.passed
    ensures Terse(engine) && r.value.passed ==> Agrees(next, golden, demands, scope)
  {
    hide Loaded, Computes, Explained, Reported, Agrees, Terse, AllAsks, Underway;
    match r
    case Ok(report) => AgreementPasses(engine, next, golden, demands, scope, before, report);
    case Err(e) => NothingStops(engine, next, golden, demands, scope, before, history, e);
  }

  // ---- what an engine is ever asked ------------------------------------------------------

  predicate Tokens(tokens: seq<int>) {
    forall i :: 0 <= i < |tokens| ==> 0 <= tokens[i] < 262144
  }

  /** The sizes an engine may rely on. */
  predicate WithinBounds(call: Call, demands: Golden.Demands) {
    match call
    case Drain => true
    case TeacherForced(prompt, forced, steps) =>
      && |prompt| == demands.promptTokens && steps == demands.steps && 0 < steps <= |forced|
      && Tokens(prompt) && Tokens(forced)
    case AnchorForward(context) => 1 <= |context| <= 1024 && Tokens(context)
    case FreeRun(prompt, count) => |prompt| == demands.promptTokens && 1 <= count <= 256 && Tokens(prompt)
  }

  lemma CasesWithinBounds(golden: Golden.Fixture, demands: Golden.Demands, scope: Scope, k: nat)
    requires Loaded(golden, demands) && k < |AllAsks(golden, demands.steps, scope)|
    ensures WithinBounds(AllAsks(golden, demands.steps, scope)[k], demands)
  {
    hide Golden.ValidName;
    var b, a := |golden.cases|, |ScopedAnchors(golden, scope)|;
    LoadedMeans(golden, demands, scope);
    if b + a <= k {
      assert Golden.ValidFreeRunCase(ScopedFreeRuns(golden, scope)[k - b - a], demands.promptTokens);
    } else if b <= k {
      assert Golden.ValidAnchorCase(ScopedAnchors(golden, scope)[k - b]);
    } else {
      assert Golden.ValidBaseCase(golden.cases[k], demands.steps, demands.promptTokens);
    }
  }

  lemma {:induction false} DrainedWithinBounds(asks: seq<Call>, demands: Golden.Demands)
    requires forall k :: 0 <= k < |asks| ==> WithinBounds(asks[k], demands)
    ensures forall k :: 0 <= k < |Drained(asks)| ==> WithinBounds(Drained(asks)[k], demands)
  {
    hide WithinBounds;
    if asks != [] {
      DrainedWithinBounds(asks[..|asks| - 1], demands);
      DrainIsWithinBounds(demands);
    }
  }

  lemma DrainIsWithinBounds(demands: Golden.Demands)
    ensures WithinBounds(Drain, demands)
  {
  }

  /**
   Whatever the engine answers, and wherever the run stops: no call asked on a loaded golden holds a token outside the
   vocabulary, forces or generates more than the golden has, or exceeds the sizes it was loaded for.
   */
  lemma EveryCallWithinBounds(engine: Engine, golden: Golden.Fixture, demands: Golden.Demands, scope: Scope,
                              before: seq<Call>, history: seq<Call>, r: Result<Report, RunError>)
    requires Loaded(golden, demands) && IsOutcome(engine, before, golden, demands.steps, scope, history, r)
    ensures before <= history
    ensures forall k :: |before| <= k < |history| ==> WithinBounds(history[k], demands)
  {
    hide Loaded, AllAsks, WithinBounds, Explained, Reported, Drained;
    var asks := AllAsks(golden, demands.steps, scope);
    forall k | 0 <= k < |asks| ensures WithinBounds(asks[k], demands) {
      CasesWithinBounds(golden, demands, scope, k);
    }
    var k: nat, drained: bool :| AtStep(before, asks, k, drained, history);
    DrainedWithinBounds(asks[..k], demands);
    DrainIsWithinBounds(demands);
  }
}
