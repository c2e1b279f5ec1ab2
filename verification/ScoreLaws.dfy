/** How the two speedups weigh in a score, which bound a refusal names, and where the bounds lie (bench-core, score.rs). */
module ScoreLaws {
  import opened Wrappers
  import opened Floats
  import opened Sums
  import opened Sorting
  import opened Median
  import opened Score

  // ---- the weights -------------------------------------------------------------------------

  lemma FourthOfProduct(k: real, s: real)
    ensures Fourth(k * s) == Fourth(k) * Fourth(s)
  {
    assert Pow3(k * s) == Pow3(k) * Pow3(s) by {
      calc {
        (k * s) * (k * s) * (k * s);
        (k * k) * (s * s) * (k * s);
        (k * k * k) * (s * s * s);
      }
    }
    Exchange(Pow3(k), Pow3(s), k, s);
  }

  lemma Exchange(a: real, b: real, c: real, d: real)
    ensures (a * b) * (c * d) == (a * c) * (b * d)
  {
  }

  lemma CubeOfProduct(a: real, b: real)
    ensures Pow3(a * b) == Pow3(a) * Pow3(b)
  {
    calc {
      (a * b) * (a * b) * (a * b);
      (a * a) * (b * b) * (a * b);
      (a * a * a) * (b * b * b);
    }
  }

  lemma CubeOfFourth(k: real)
    ensures Pow3(Fourth(k)) == Fourth(Pow3(k))
  {
    var c := Pow3(k);
    assert Fourth(k) == c * k;
    CubeOfProduct(c, k);
    assert Pow3(c) * Pow3(k) == Fourth(c);
  }

  /** What multiplies the fourth power by `c^4` multiplies the score by `c`. */
  lemma ScaledScore(s: real, d: real, p: real, d': real, p': real, c: real)
    requires 0.0 < c && IsScoreOf(s, d, p) && Pow3(d') * p' == Fourth(c) * (Pow3(d) * p)
    ensures IsScoreOf(c * s, d', p')
  {
    hide Fourth, Pow3;
    FourthOfProduct(c, s);
    assert 0.0 < c * s;
  }

  lemma Associates(a: real, b: real, c: real)
    ensures (a * b) * c == a * (b * c) == b * (a * c)
  {
  }

  /** A decode speedup `k^4` times as large makes the score `k^3` times as large. */
  lemma DecodeWeighsThreeQuarters(s: real, t: real, d: real, p: real, k: real, cube: real, fourth: real)
    requires 0.0 < d && 0.0 < p && 0.0 < k && cube == k * k * k && fourth == k * k * k * k
    requires IsScoreOf(s, d, p) && IsScoreOf(t, fourth * d, p)
    ensures t == cube * s
  {
    hide Fourth, Pow3, IsScoreOf;
    FourthIs(k);
    PowerPositive(k);
    CubeOfProduct(fourth, d);
    CubeOfFourth(k);
    Associates(Fourth(cube), Pow3(d), p);
    ScaledScore(s, d, p, fourth * d, p, cube);
    ProductPositive(fourth, d);
    ScoreIsUnique(t, cube * s, fourth * d, p);
  }

  lemma ProductPositive(x: real, y: real)
    requires 0.0 < x && 0.0 < y
    ensures 0.0 < x * y
  {
  }

  /** A prefill speedup `k^4` times as large makes the score only `k` times as large. */
  lemma PrefillWeighsOneQuarter(s: real, t: real, d: real, p: real, k: real, fourth: real)
    requires 0.0 < d && 0.0 < p && 0.0 < k && fourth == k * k * k * k
    requires IsScoreOf(s, d, p) && IsScoreOf(t, d, fourth * p)
    ensures t == k * s
  {
    hide Fourth, Pow3, IsScoreOf;
    FourthPositive(k, fourth);
    PrefillScales(d, p, k, fourth);
    ScaledScore(s, d, p, d, fourth * p, k);
    ProductPositive(fourth, p);
    ScoreIsUnique(t, k * s, d, fourth * p);
  }

  lemma FourthPositive(k: real, fourth: real)
    requires 0.0 < k && fourth == k * k * k * k
    ensures 0.0 < fourth
  {
    hide Pow3;
    FourthIs(k);
    CubePositive(k);
    ProductPositive(Pow3(k), k);
    assert Fourth(k) == fourth;
  }

  lemma PrefillScales(d: real, p: real, k: real, fourth: real)
    requires fourth == k * k * k * k
    ensures Pow3(d) * (fourth * p) == Fourth(k) * (Pow3(d) * p)
  {
    hide Pow3, Fourth;
    FourthIs(k);
    Swapped(Pow3(d), fourth, p, Fourth(k));
  }

  lemma Swapped(a: real, b: real, c: real, b': real)
    requires b == b'
    ensures a * (b * c) == b' * (a * c)
  {
  }

  lemma FourthIs(k: real)
    ensures Fourth(k) == k * k * k * k && Pow3(k) == k * k * k
  {
  }

  lemma PowerPositive(k: real)
    requires 0.0 < k
    ensures 0.0 < k * k * k && 0.0 < k * k * k * k
  {
    assert 0.0 < k * k;
  }

  /** Decode sixteen times as fast at an even prefill scores eight, and the other way round two. */
  lemma SixteenScoresEight(s: real)
    ensures IsScoreOf(s, 16.0, 1.0) <==> s == 8.0
    ensures IsScoreOf(s, 1.0, 16.0) <==> s == 2.0
  {
    if IsScoreOf(s, 16.0, 1.0) {
      ScoreIsUnique(s, 8.0, 16.0, 1.0);
    }
    if IsScoreOf(s, 1.0, 16.0) {
      ScoreIsUnique(s, 2.0, 1.0, 16.0);
    }
  }

  // ---- which bound a refusal names -----------------------------------------------------------

  predicate Timed(decode: Float, prefill: Float, baseDecode: Float, basePrefill: Float) {
    forall x :: x in [decode, prefill, baseDecode, basePrefill] ==> x.Finite? && 0.0 < x.value
  }

  /** `value` within these shares of its reference. */
  predicate Between(value: Float, reference: Float, least: real, most: real)
    requires value.Finite? && reference.Finite?
  {
    least * reference.value <= value.value <= most * reference.value
  }

  lemma QuotientAgainst(b: real, c: real, bound: real)
    requires 0.0 < b && 0.0 < c
    ensures 0.0 < b / c && (bound <= b / c <==> bound * c <= b)
  {
    var q := b / c;
    assert q * c == b;
    if bound <= q {
      TimesMonotone(bound, q, c);
    } else {
      StrictTimes(q, bound, c);
    }
    if q <= 0.0 {
      TimesMonotone(q, 0.0, c);
    }
  }

  lemma TimesMonotone(x: real, y: real, c: real)
    requires x <= y && 0.0 < c
    ensures x * c <= y * c
  {
    assert 0.0 <= (y - x) * c;
  }

  lemma StrictTimes(x: real, y: real, c: real)
    requires x < y && 0.0 < c
    ensures x * c < y * c
  {
    assert 0.0 < (y - x) * c;
  }

  lemma SpeedupIs(baseline: Float, candidate: Float)
    ensures 0.0 < Speedup(baseline, candidate) <==> FinitePositive(baseline) && FinitePositive(candidate)
    ensures 0.0 < Speedup(baseline, candidate) ==>
              (0.95 <= Speedup(baseline, candidate) <==> 0.95 * candidate.value <= baseline.value)
  {
    if FinitePositive(baseline) && FinitePositive(candidate) {
      QuotientAgainst(baseline.value, candidate.value, 0.95);
    }
  }

  /**
   Every refusal names the first bound that fails: an unusable time, a speedup under 0.95, the prefill band of 3% either
   way, or the decode band of 1% slower and 2.5% faster.
   */
  lemma RefusalNamesFirstBound(decode: Float, prefill: Float, baseDecode: Float, basePrefill: Float, e: Evaluation)
    requires IsEvaluation(decode, prefill, baseDecode, basePrefill, e)
    ensures var timed := Timed(decode, prefill, baseDecode, basePrefill);
            && (FirstFailure(e) == Some(NonFiniteScore) <==> !timed)
            && (timed ==>
                  var floors := 0.95 * decode.value <= baseDecode.value && 0.95 * prefill.value <= basePrefill.value;
                  var prefillIn := Between(prefill, basePrefill, 0.97, 1.03);
                  var decodeIn := Between(decode, baseDecode, 0.975, 1.01);
                  && (FirstFailure(e) == Some(FloorsMissed) <==> !floors)
                  && (FirstFailure(e) == Some(BandMissed(Prefill)) <==> floors && !prefillIn)
                  && (FirstFailure(e) == Some(BandMissed(Decode)) <==> floors && prefillIn && !decodeIn)
                  && (FirstFailure(e) == None <==> floors && prefillIn && decodeIn))
  {
    hide Speedup, IsScoreOf;
    SpeedupIs(baseDecode, decode);
    SpeedupIs(basePrefill, prefill);
    TimedIs(decode, prefill, baseDecode, basePrefill);
    if Timed(decode, prefill, baseDecode, basePrefill) {
      ScorePositive(e.score, e.decodeSpeedup, e.prefillSpeedup);
    }
  }

  lemma TimedIs(decode: Float, prefill: Float, baseDecode: Float, basePrefill: Float)
    ensures Timed(decode, prefill, baseDecode, basePrefill)
            <==> FinitePositive(decode) && FinitePositive(prefill) && FinitePositive(baseDecode)
                 && FinitePositive(basePrefill)
  {
    var all := [decode, prefill, baseDecode, basePrefill];
    assert all[0] in all && all[1] in all && all[2] in all && all[3] in all;
  }

  lemma ScorePositive(score: Option<real>, d: real, p: real)
    requires score.Some? && IsScoreOf(score.value, d, p)
    ensures 0.0 < score.value
  {
  }

  // ---- where the paired bounds lie ---------------------------------------------------------------

  /** A run whose prompts all have one ratio has that ratio as its median, and scores from 0.90 to 5.0 inclusive. */
  lemma EvenRunScores(n: nat, x: real, sorted: seq<Float>)
    requires 0 < n && IsLibrarySort(seq(n, i => Finite(x)), sorted)
    ensures CentralOf(sorted) == Finite(x) && (WithinPairedBounds(CentralOf(sorted)) <==> 0.90 <= x <= 5.0)
  {
    var ratios := seq(n, i => Finite(x));
    assert |multiset(sorted)| == |sorted| && |multiset(ratios)| == n;
    forall i | 0 <= i < |sorted| ensures sorted[i] == Finite(x) {
      assert sorted[i] in multiset(sorted);
      var j :| 0 <= j < n && ratios[j] == sorted[i];
    }
  }

  /** One implausible pair anywhere refuses the run: over eight times as fast, not positive, or no number. */
  lemma PlausibleUpToEight(perPair: seq<Float>)
    ensures AllPlausible(perPair)
            <==> forall x :: x in perPair ==> x.Finite? && 0.0 < x.value <= 8.0
  {
    if forall x :: x in perPair ==> x.Finite? && 0.0 < x.value <= 8.0 {
      assert forall i :: 0 <= i < |perPair| ==> perPair[i] in perPair;
    }
  }

  // ---- the reference of a band -------------------------------------------------------------

  lemma {:induction false} SumOfAllButOne(s: seq<real>, k: nat, x: real)
    requires k < |s| && forall i :: 0 <= i < |s| && i != k ==> s[i] == x
    ensures RealSum(s) == (|s| - 1) as real * x + s[k]
  {
    if k == 0 {
      SumOfAll(s[1..], x);
    } else {
      SumOfAllButOne(s[1..], k - 1, x);
      OneMore(|s| - 2, x);
    }
  }

  lemma {:induction false} SumOfAll(s: seq<real>, x: real)
    requires forall i :: 0 <= i < |s| ==> s[i] == x
    ensures RealSum(s) == |s| as real * x
  {
    if s != [] {
      SumOfAll(s[1..], x);
      OneMore(|s| - 1, x);
    }
  }

  lemma OneMore(n: nat, x: real)
    ensures (n + 1) as real * x == n as real * x + x
  {
  }

  /** Of samples that agree but for one, a slower one is dropped, and a faster one is averaged in with all but one. */
  lemma OneSampleApart(samples: seq<Float>, k: nat, x: real, y: real, r: Option<real>)
    requires 2 <= |samples| && k < |samples| && samples[k] == Finite(y)
    requires forall i :: 0 <= i < |samples| && i != k ==> samples[i] == Finite(x)
    requires IsReference(samples, r)
    ensures r.Some? <==> 3 <= |samples| && 0.0 < x && 0.0 < y
    ensures r.Some? && x <= y ==> r.value == x
    ensures r.Some? && y < x ==> r.value * (|samples| - 1) as real == (|samples| - 2) as real * x + y
  {
    hide RealSum, IsMaximum;
    var other := if k == 0 then 1 else 0;
    assert samples[other] == Finite(x);
    if r.Some? {
      var values := Values(samples);
      var m :| IsMaximum(values, m) && r.value * (|samples| - 1) as real == RealSum(values) - m;
      SumOfAllButOne(values, k, x);
      GreatestIs(values, k, other, m);
      MeanApart(|samples| - 2, x, y, m, r.value);
    }
  }

  lemma MeanApart(n: nat, x: real, y: real, m: real, mean: real)
    requires n != 0 && m == (if x <= y then y else x) && mean * (n + 1) as real == (n + 1) as real * x + y - m
    ensures if x <= y then mean == x else mean * (n + 1) as real == n as real * x + y
  {
    OneMore(n, x);
    if x <= y {
      SameFactor(mean, x, (n + 1) as real);
    }
  }

  lemma SameFactor(a: real, b: real, c: real)
    requires a * c == c * b && c != 0.0
    ensures a == b
  {
  }

  lemma GreatestIs(s: seq<real>, k: nat, other: nat, m: real)
    requires k < |s| && other < |s| && (forall i :: 0 <= i < |s| && i != k ==> s[i] == s[other]) && IsMaximum(s, m)
    ensures m == if s[other] <= s[k] then s[k] else s[other]
  {
  }
}
