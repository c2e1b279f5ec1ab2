/**
 The correctness gates: what a passing case means, and what the gate runner asks of an engine
 (bench-core, conformance.rs).
 */
module Conformance {
  import opened Wrappers
  import opened Floats
  import opened Sorting
  import opened Sums
  import opened Ranking
  import opened Constants
  import Golden

  datatype AnchorOutput = AnchorOutput(token: int, topLogits: seq<TopLogit>)

  // ---- one accepted token -----------------------------------------------------------

  function Minus(a: Float, b: Float): Float
    requires a.Finite? && b.Finite?
  {
    Finite(a.value - b.value)
  }

  /** Equal tokens, or the accepted token listed within the tolerance of the first logit. */
  predicate TokenAccepted(accepted: int, actual: int, topLogits: seq<TopLogit>)
    requires AllFinite(topLogits)
  {
    || actual == accepted
    || (topLogits != [] && Lists(topLogits, accepted)
        && AtMost(Minus(topLogits[0].logit, topLogits[FirstIndexOf(topLogits, accepted)].logit), Finite(TIE_TOLERANCE)))
  }

  /** A list that is not trustworthy counts as no list at all. */
  function TrustedOnly(topLogits: seq<TopLogit>, reported: int): (r: seq<TopLogit>)
    ensures AllFinite(r)
  {
    if Trustworthy(topLogits, reported) then topLogits else []
  }

  predicate StepAccepted(expected: int, output: AnchorOutput) {
    output.token == expected
    || TokenAccepted(expected, output.token, TrustedOnly(output.topLogits, output.token))
  }

  /** A tie worth accepting: a trustworthy list whose maximum the expected token's own logit is within tolerance of. */
  predicate TopTie(expected: int, reported: int, topLogits: seq<TopLogit>) {
    && Trustworthy(topLogits, reported)
    && exists i :: 0 <= i < |topLogits| && topLogits[i].token == expected
         && MaxLogit(topLogits).Some? && MaxLogit(topLogits).value.Finite?
         && MaxLogit(topLogits).value.value - topLogits[i].logit.value <= TIE_TOLERANCE
  }

  lemma DistinctIndex(logits: seq<TopLogit>, i: nat)
    requires DistinctTokens(logits) && i < |logits|
    ensures Lists(logits, logits[i].token) && FirstIndexOf(logits, logits[i].token) == i
  {
    assert Lists(logits, logits[i].token);
    var k := FirstIndexOf(logits, logits[i].token);
    assert k == i;
  }

  /** A step passes exactly when it is the expected token or a true tie at the top of a trustworthy list. */
  lemma StepAcceptedMeans(expected: int, output: AnchorOutput)
    ensures StepAccepted(expected, output)
            <==> output.token == expected || TopTie(expected, output.token, output.topLogits)
  {
    hide Trustworthy;
    var list, reported := output.topLogits, output.token;
    if Trustworthy(list, reported) && reported != expected {
      TrustworthyMeans(list, reported);
      if Lists(list, expected) {
        var i := FirstIndexOf(list, expected);
        DistinctIndex(list, i);
        assert TokenAccepted(expected, reported, list) ==> TopTie(expected, reported, list);
      }
      if TopTie(expected, reported, list) {
        var i :| 0 <= i < |list| && list[i].token == expected
                 && MaxLogit(list).value.value - list[i].logit.value <= TIE_TOLERANCE;
        DistinctIndex(list, i);
      }
    }
  }

  lemma TrustworthyMeans(logits: seq<TopLogit>, reported: int)
    requires Trustworthy(logits, reported)
    ensures logits != [] && AllFinite(logits) && DistinctTokens(logits)
    ensures MaxLogit(logits) == Some(logits[0].logit)
  {
    TrustworthyLeadsWithArgmax(logits, reported);
  }

  // ---- teacher-forced cases ------------------------------------------------------------

  datatype TeacherForcedResult = TeacherForcedResult(name: string, passed: bool, firstMismatch: Option<nat>,
                                                     expectedToken: Option<int>, actualToken: Option<int>,
                                                     checkedSteps: nat)

  /** The verdict on a case: its first unacceptable step, or none in the whole window. */
  predicate IsTeacherForcedVerdict(c: Golden.BaseCase, outputs: seq<AnchorOutput>, steps: nat, r: TeacherForcedResult)
    requires Min(|outputs|, steps) <= |c.expected|
  {
    && r.name == c.name
    && if r.passed then
         && (forall k :: 0 <= k < Min(|outputs|, steps) ==> StepAccepted(c.expected[k], outputs[k]))
         && r.firstMismatch.None? && r.expectedToken.None? && r.actualToken.None? && r.checkedSteps == steps
       else
         && r.firstMismatch.Some? && r.firstMismatch.value < Min(|outputs|, steps)
         && var at := r.firstMismatch.value;
            && (forall k :: 0 <= k < at ==> StepAccepted(c.expected[k], outputs[k]))
            && !StepAccepted(c.expected[at], outputs[at])
            && r.expectedToken == Some(c.expected[at]) && r.actualToken == Some(outputs[at].token)
            && r.checkedSteps == at + 1
  }

  method EvaluateTeacherForcedCase(c: Golden.BaseCase, outputs: seq<AnchorOutput>, steps: nat)
    returns (r: TeacherForcedResult)
    requires Min(|outputs|, steps) <= |c.expected|
    ensures IsTeacherForcedVerdict(c, outputs, steps, r)
  {
    for step := 0 to Min(|outputs|, steps)
      invariant forall k :: 0 <= k < step ==> StepAccepted(c.expected[k], outputs[k])
    {
      var actual, expected := outputs[step].token, c.expected[step];
      if actual != expected {
        var trusted := TopLogitsTrustworthy(outputs[step].topLogits, actual);
        var logits := if trusted then outputs[step].topLogits else [];
        if !TokenAccepted(expected, actual, logits) {
          return TeacherForcedResult(c.name, false, Some(step), Some(expected), Some(actual), step + 1);
        }
      }
    }
    return TeacherForcedResult(c.name, true, None, None, None, steps);
  }

  /**
   A passing teacher-forced case with a full window: at every step the engine was exact, or it reported a
   trustworthy list led by its own token in which the expected one is within 1e-6 of the maximum.
   */
  lemma PassingCaseTracksGolden(c: Golden.BaseCase, outputs: seq<AnchorOutput>, steps: nat, r: TeacherForcedResult)
    requires |outputs| == steps <= |c.expected| && IsTeacherForcedVerdict(c, outputs, steps, r)
    ensures r.passed <==>
              forall k :: 0 <= k < steps ==>
                outputs[k].token == c.expected[k] || TopTie(c.expected[k], outputs[k].token, outputs[k].topLogits)
  {
    hide StepAccepted, TopTie;
    forall k | 0 <= k < steps
      ensures StepAccepted(c.expected[k], outputs[k])
              <==> outputs[k].token == c.expected[k] || TopTie(c.expected[k], outputs[k].token, outputs[k].topLogits)
    {
      StepAcceptedMeans(c.expected[k], outputs[k]);
    }
  }

  // ---- anchors -------------------------------------------------------------------------

  datatype AnchorResult = AnchorResult(name: string, passed: bool, argmax: Option<int>, expectedToken: int,
                                       expectedRank: Option<nat>, topLogitDelta: Option<Float>, checkedSteps: nat)

  function AcceptedTokens(c: Golden.AnchorCase): seq<int> {
    var listed := if c.accepted.Some? then c.accepted.value else [];
    if c.expectedToken in listed then listed else listed + [c.expectedToken]
  }

  function TopDelta(logits: seq<TopLogit>, token: int): Option<Float>
    requires AllFinite(logits)
  {
    MaxIsFinite(logits);
    match (MaxLogit(logits), LogitOf(logits, token))
    case (Some(top), Some(own)) => Some(Minus(top, own))
    case _ => None
  }

  lemma MaxIsFinite(logits: seq<TopLogit>)
    requires AllFinite(logits)
    ensures MaxLogit(logits).Some? ==> MaxLogit(logits).value.Finite?
  {
    if logits != [] {
      MaxIsBest(logits);
    }
  }

  predicate ArgmaxAccepted(c: Golden.AnchorCase, logits: seq<TopLogit>)
    requires AllFinite(logits)
  {
    match ArgmaxOf(logits)
    case None => false
    case Some(top) =>
      exists accepted :: accepted in AcceptedTokens(c) && TokenAccepted(accepted, top, TrustedOnly(logits, top))
  }

  predicate RankAndDeltaMet(c: Golden.AnchorCase, logits: seq<TopLogit>)
    requires AllFinite(logits)
  {
    && c.maxRank.Some?
    && var delta := TopDelta(logits, c.expectedToken);
       var rank := RankOf(logits, c.expectedToken);
       && rank.Some? && rank.value <= c.maxRank.value
       && delta.Some?
       && AtMost(delta.value, if c.maxDelta.Some? then c.maxDelta.value else Finite(TIE_TOLERANCE))
  }

  function EvaluateAnchorCase(c: Golden.AnchorCase, output: AnchorOutput): AnchorResult {
    var logits := output.topLogits;
    if !AllFinite(logits) then AnchorResult(c.name, false, None, c.expectedToken, None, None, 1)
    else
      AnchorResult(c.name, ArgmaxAccepted(c, logits) || RankAndDeltaMet(c, logits), ArgmaxOf(logits), c.expectedToken,
                   RankOf(logits, c.expectedToken), TopDelta(logits, c.expectedToken), 1)
  }

  /** The largest gap to the top logit the rank path forgives. */
  function AllowedDelta(c: Golden.AnchorCase): Float {
    if c.maxDelta.Some? then c.maxDelta.value else Finite(TIE_TOLERANCE)
  }

  /** The expected token is ranked by its best copy, and its distance from the maximum is that of its first. */
  predicate RankedCloseEnough(c: Golden.AnchorCase, logits: seq<TopLogit>)
    requires AllFinite(logits) && logits != []
  {
    && c.maxRank.Some? && Lists(logits, c.expectedToken)
    && (exists i :: 0 <= i < |logits| && logits[i].token == c.expectedToken && BestCopy(logits, i)
                    && Count(logits, x => Beats(x, logits[i])) < c.maxRank.value)
    && AtMost(Minus(BestOf(logits).value.logit, logits[FirstIndexOf(logits, c.expectedToken)].logit), AllowedDelta(c))
  }

  /**
   What an anchor pass rests on, whatever the engine says its own token is. Either an accepted token is the
   canonical argmax, or ties the top of a trustworthy list; or the best copy of the expected token is beaten by
   fewer entries than the allowed rank, and its first copy lies within the allowed distance of the maximum.
   */
  lemma AnchorPassMeans(c: Golden.AnchorCase, output: AnchorOutput)
    ensures var logits := output.topLogits;
            EvaluateAnchorCase(c, output).passed <==>
              AllFinite(logits) && logits != [] &&
              var top := BestOf(logits).value;
              || (exists a :: a in AcceptedTokens(c) && (a == top.token || TopTie(a, top.token, logits)))
              || RankedCloseEnough(c, logits)
  {
    hide Trustworthy, TopTie, StepAccepted, ArgmaxAccepted, RankAndDeltaMet, RankedCloseEnough;
    var logits := output.topLogits;
    if AllFinite(logits) {
      if logits == [] {
        NothingListedFails(c);
      } else {
        AcceptedMeans(c, logits);
        RankAndDeltaMeans(c, logits);
      }
    }
  }

  lemma NothingListedFails(c: Golden.AnchorCase)
    ensures !ArgmaxAccepted(c, []) && !RankAndDeltaMet(c, [])
  {
  }

  lemma RankAndDeltaMeans(c: Golden.AnchorCase, logits: seq<TopLogit>)
    requires AllFinite(logits) && logits != []
    ensures RankAndDeltaMet(c, logits) <==> RankedCloseEnough(c, logits)
  {
    hide BestCopy, Beats, Count, RankOf;
    MaxIsBest(logits);
    if Lists(logits, c.expectedToken) {
      var i := BestCopyExists(logits, c.expectedToken);
      RankCountsBetter(logits, i);
      forall j | 0 <= j < |logits| && logits[j].token == c.expectedToken && BestCopy(logits, j)
        ensures Count(logits, x => Beats(x, logits[j])) == RankOf(logits, c.expectedToken).value - 1
      {
        RankCountsBetter(logits, j);
      }
    }
  }

  lemma AcceptedMeans(c: Golden.AnchorCase, logits: seq<TopLogit>)
    requires AllFinite(logits) && logits != []
    ensures var top := BestOf(logits).value;
            ArgmaxAccepted(c, logits)
            <==> exists a :: a in AcceptedTokens(c) && (a == top.token || TopTie(a, top.token, logits))
  {
    hide Trustworthy, TopTie;
    var top := BestOf(logits).value;
    forall a | a in AcceptedTokens(c)
      ensures TokenAccepted(a, top.token, TrustedOnly(logits, top.token))
              <==> a == top.token || TopTie(a, top.token, logits)
    {
      StepAcceptedMeans(a, AnchorOutput(top.token, logits));
    }
  }

  /** One logit that is not finite fails the anchor, wherever it sits and whatever else the list says. */
  lemma NonFiniteAnchorFails(c: Golden.AnchorCase, output: AnchorOutput, i: nat)
    requires i < |output.topLogits| && !output.topLogits[i].logit.Finite?
    ensures !EvaluateAnchorCase(c, output).passed
    ensures !Trustworthy(output.topLogits, output.token)
    ensures forall expected :: StepAccepted(expected, output) <==> expected == output.token
  {
    assert !AllFinite(output.topLogits);
  }

  // ---- free runs -----------------------------------------------------------------------

  datatype FreeRunResult = FreeRunResult(name: string, passed: bool, firstMismatch: Option<nat>, checkedSteps: nat)

  function Required(c: Golden.FreeRunCase): nat {
    if c.exactPrefix.Some? then c.exactPrefix.value else |c.expected|
  }

  function At(tokens: seq<int>, k: nat): Option<int> {
    if k < |tokens| then Some(tokens[k]) else None
  }

  predicate IsFreeRunVerdict(c: Golden.FreeRunCase, generated: seq<int>, r: FreeRunResult) {
    && r.name == c.name
    && if r.passed then
         && (forall k :: 0 <= k < Required(c) ==> At(c.expected, k) == At(generated, k))
         && r.firstMismatch.None? && r.checkedSteps == Required(c)
       else
         && r.firstMismatch.Some? && r.firstMismatch.value < Required(c)
         && var at := r.firstMismatch.value;
            && (forall k :: 0 <= k < at ==> At(c.expected, k) == At(generated, k))
            && At(c.expected, at) != At(generated, at)
            && r.checkedSteps == at + 1
  }

  method EvaluateFreeRunCase(c: Golden.FreeRunCase, generated: seq<int>) returns (r: FreeRunResult)
    ensures IsFreeRunVerdict(c, generated, r)
  {
    for step := 0 to Required(c)
      invariant forall k :: 0 <= k < step ==> At(c.expected, k) == At(generated, k)
    {
      if At(c.expected, step) != At(generated, step) {
        return FreeRunResult(c.name, false, Some(step), step + 1);
      }
    }
    return FreeRunResult(c.name, true, None, Required(c));
  }

  /** For a loaded case: it passes exactly when the generated tokens start with its whole required prefix. */
  lemma FreeRunPassMeans(c: Golden.FreeRunCase, promptTokens: nat, generated: seq<int>, r: FreeRunResult)
    requires Golden.ValidFreeRunCase(c, promptTokens) && IsFreeRunVerdict(c, generated, r)
    ensures r.passed <==> Required(c) <= |generated| && c.expected[..Required(c)] == generated[..Required(c)]
    ensures 1 <= r.checkedSteps <= Required(c)
  {
    var n := Required(c);
    if r.passed {
      assert At(c.expected, n - 1) == At(generated, n - 1);
      forall k | 0 <= k < n ensures c.expected[k] == generated[k] {
        assert At(c.expected, k) == At(generated, k);
      }
    } else {
      var at := r.firstMismatch.value;
      assert n <= |generated| ==> c.expected[..n][at] != generated[..n][at];
    }
  }
}
