/** Where the tie rule of the gates draws its lines (bench-core, conformance.rs). */
module RankingLaws {
  import opened Wrappers
  import opened Floats
  import opened Sorting
  import opened Ranking
  import opened Conformance
  import Golden

  // ---- argmax ------------------------------------------------------------------------------

  /** Nothing has a higher logit than entry `i`, and nothing as high a lower token. */
  predicate IsHighest(logits: seq<TopLogit>, i: nat)
    requires AllFinite(logits) && i < |logits|
  {
    forall j :: 0 <= j < |logits| ==>
      logits[j].logit.value <= logits[i].logit.value
      && (logits[j].logit.value == logits[i].logit.value ==> logits[i].token <= logits[j].token)
  }

  /** The argmax is the token of the highest logit, and of several equal ones the lowest. */
  lemma ArgmaxIsHighest(logits: seq<TopLogit>, i: nat)
    requires AllFinite(logits) && i < |logits| && IsHighest(logits, i)
    ensures ArgmaxOf(logits) == Some(logits[i].token) && MaxLogit(logits) == Some(logits[i].logit)
  {
    BestIsUnbeaten(logits, i);
    var best := BestOf(logits).value;
    var j :| 0 <= j < |logits| && logits[j] == best;
    assert !Beats(logits[i], best);
    MaxIsBest(logits);
  }

  // ---- trustworthy lists ---------------------------------------------------------------------

  /** A list is trusted in exactly this shape: up to eight known tokens, the reported one first, and falling logits. */
  lemma TrustworthyIs(logits: seq<TopLogit>, reported: int)
    ensures Trustworthy(logits, reported)
            <==> 1 <= |logits| <= 8 && logits[0].token == reported && AllFinite(logits)
                 && (forall i :: 0 <= i < |logits| ==> 0 <= logits[i].token <= 262143)
                 && (forall i, j :: 0 <= i < j < |logits| ==> logits[i].token != logits[j].token)
                 && (forall i, j :: 0 <= i < j < |logits| ==>
                       logits[j].logit.value < logits[i].logit.value
                       || (logits[j].logit.value == logits[i].logit.value && logits[i].token < logits[j].token))
  {
    if AllFinite(logits) {
      forall i, j | 0 <= i < j < |logits|
        ensures Beats(logits[i], logits[j])
                <==> logits[j].logit.value < logits[i].logit.value
                     || (logits[j].logit.value == logits[i].logit.value && logits[i].token < logits[j].token)
      {
      }
    }
  }

  // ---- ties ----------------------------------------------------------------------------------

  function Pair(a: int, x: real, b: int, y: real): seq<TopLogit> {
    [Wire.TopLogit(a, Finite(x)), Wire.TopLogit(b, Finite(y))]
  }

  /** The runner-up of two is as good as the first up to a millionth of a logit, and no further. */
  lemma TieEndsAtOneMillionth(a: int, x: real, b: int, y: real)
    requires 0 <= a <= 262143 && 0 <= b <= 262143 && a != b && (y < x || (y == x && a < b))
    ensures StepAccepted(b, AnchorOutput(a, Pair(a, x, b, y))) <==> x - y <= 0.000001
  {
    hide Trustworthy;
    var list := Pair(a, x, b, y);
    TrustworthyIs(list, a);
    assert AllFinite(list);
    StepAcceptedMeans(b, AnchorOutput(a, list));
    TrustworthyMeans(list, a);
    assert list[1].token == b;
  }

  /** A list that is not trusted excuses nothing. */
  lemma UntrustedExcusesNothing(expected: int, output: AnchorOutput)
    requires !Trustworthy(output.topLogits, output.token)
    ensures StepAccepted(expected, output) <==> output.token == expected
  {
    hide Trustworthy;
    StepAcceptedMeans(expected, output);
  }

  // ---- anchors -------------------------------------------------------------------------------

  /** An anchor whose expected token comes second: its rank must allow two, and its distance the given one. */
  lemma RunnerUpAnchor(c: Golden.AnchorCase, a: int, x: real, y: real, token: int)
    requires c.accepted.None? && a != c.expectedToken && y < x && 0.000001 < x - y
    requires c.maxDelta.Some? ==> c.maxDelta.value.Finite?
    ensures EvaluateAnchorCase(c, AnchorOutput(token, Pair(a, x, c.expectedToken, y))).passed
            <==> c.maxRank.Some? && 2 <= c.maxRank.value && c.maxDelta.Some? && x - y <= c.maxDelta.value.value
  {
    hide Trustworthy, EvaluateAnchorCase, Sort, RankOf;
    var list := Pair(a, x, c.expectedToken, y);
    assert AllFinite(list);
    AnchorPassMeans(c, AnchorOutput(token, list));
    ArgmaxIsHighest(list, 0);
    BestOfPair(a, x, c.expectedToken, y);
    assert AcceptedTokens(c) == [c.expectedToken];
    RunnerUpIsRanked(c, a, x, y);
    if TopTie(c.expectedToken, a, list) {
      TrustworthyMeans(list, a);
    }
  }

  lemma BestOfPair(a: int, x: real, b: int, y: real)
    requires y < x
    ensures BestOf(Pair(a, x, b, y)) == Some(Wire.TopLogit(a, Finite(x)))
  {
    var list := Pair(a, x, b, y);
    assert list[..1] == [list[0]] && list[..1][..0] == [];
    assert BestOf(list[..1]) == Some(list[0]);
  }

  lemma RunnerUpIsRanked(c: Golden.AnchorCase, a: int, x: real, y: real)
    requires a != c.expectedToken && y < x && (c.maxDelta.Some? ==> c.maxDelta.value.Finite?)
    ensures AllFinite(Pair(a, x, c.expectedToken, y))
    ensures RankedCloseEnough(c, Pair(a, x, c.expectedToken, y))
            <==> c.maxRank.Some? && 2 <= c.maxRank.value
                 && x - y <= if c.maxDelta.Some? then c.maxDelta.value.value else 0.000001
  {
    var list := Pair(a, x, c.expectedToken, y);
    assert AllFinite(list);
    BestOfPair(a, x, c.expectedToken, y);
    SecondIsBeatenOnce(a, x, c.expectedToken, y);
  }

  lemma SecondIsBeatenOnce(a: int, x: real, b: int, y: real)
    requires a != b && y < x
    ensures var list := Pair(a, x, b, y);
            && AllFinite(list) && Lists(list, b) && FirstIndexOf(list, b) == 1 && BestCopy(list, 1)
            && Count(list, z => Beats(z, list[1])) == 1
  {
    var list := Pair(a, x, b, y);
    assert list[1].token == b;
    var better: TopLogit -> bool := z => Beats(z, list[1]);
    assert list[1..] == [list[1]] && list[1..][1..] == [];
    assert better(list[0]) && !better(list[1]);
    assert Count([list[1]], better) == Count([], better) == 0;
    assert Count(list, better) == 1 + Count([list[1]], better);
  }

  /** What is reported of it: the token on top, the second rank, and the distance. */
  lemma RunnerUpReport(c: Golden.AnchorCase, a: int, x: real, y: real, token: int)
    requires a != c.expectedToken && y < x
    ensures var r := EvaluateAnchorCase(c, AnchorOutput(token, Pair(a, x, c.expectedToken, y)));
            r == AnchorResult(c.name, r.passed, Some(a), c.expectedToken, Some(2), Some(Finite(x - y)), 1)
  {
    hide RankOf, ArgmaxAccepted, RankAndDeltaMet, Sort, BestOf, Beats, BestCopy, Count;
    var list := Pair(a, x, c.expectedToken, y);
    SecondIsBeatenOnce(a, x, c.expectedToken, y);
    RankCountsBetter(list, 1);
    BestOfPair(a, x, c.expectedToken, y);
    MaxIsBest(list);
  }

  // ---- the step that is named ----------------------------------------------------------------

  /** The verdict on a case names its first step that is not accepted, and stops there. */
  lemma FirstBadStepIsNamed(c: Golden.BaseCase, outputs: seq<AnchorOutput>, steps: nat, r: TeacherForcedResult, k: nat)
    requires |c.expected| >= steps && k < steps && k < |outputs| && IsTeacherForcedVerdict(c, outputs, steps, r)
    requires forall j :: 0 <= j < k ==> StepAccepted(c.expected[j], outputs[j])
    ensures if StepAccepted(c.expected[k], outputs[k]) then r.passed || k < r.firstMismatch.value
            else r == TeacherForcedResult(c.name, false, Some(k), Some(c.expected[k]), Some(outputs[k].token), k + 1)
  {
    hide StepAccepted;
  }

  /** The verdict on a free run names the first token that differs or is missing. */
  lemma FirstBadTokenIsNamed(c: Golden.FreeRunCase, generated: seq<int>, r: FreeRunResult, k: nat)
    requires k < Required(c) <= |c.expected| && k <= |generated| && IsFreeRunVerdict(c, generated, r)
    requires c.expected[..k] == generated[..k]
    ensures if k < |generated| && c.expected[k] == generated[k] then r.passed || k < r.firstMismatch.value
            else r == FreeRunResult(c.name, false, Some(k), k + 1)
  {
    forall j | 0 <= j < k ensures At(c.expected, j) == At(generated, j) {
      assert c.expected[..k][j] == generated[..k][j];
    }
    assert At(c.expected, k) == Some(c.expected[k]);
  }

  // ---- free runs -----------------------------------------------------------------------------

  /** A free run is judged on its required prefix where one is given, and on all of its tokens where none is. */
  lemma PrefixDecides(c: Golden.FreeRunCase, promptTokens: nat, generated: seq<int>, r: FreeRunResult)
    requires Golden.ValidFreeRunCase(c, promptTokens) && IsFreeRunVerdict(c, generated, r)
    ensures c.exactPrefix.None? ==> (r.passed <==> c.expected <= generated)
    ensures c.exactPrefix.Some? ==> c.exactPrefix.value <= |c.expected|
                                    && (r.passed <==> c.expected[..c.exactPrefix.value] <= generated)
  {
    hide Golden.ValidName, Golden.InVocabulary, IsFreeRunVerdict;
    FreeRunPassMeans(c, promptTokens, generated, r);
    assert c.expected[..|c.expected|] == c.expected;
  }
}
