/** Speedups, score, floors and acceptance bands, and the paired decode-only gate (bench-core, score.rs). */
module Score {
  import opened Wrappers
  import opened Floats
  import opened Sorting
  import opened Median
  import opened Sums
  import opened Constants

  predicate FinitePositive(x: Float) {
    x.Finite? && 0.0 < x.value
  }

  /** Baseline over candidate, or 0 when either is not finite and positive. */
  function Speedup(baseline: Float, candidate: Float): real {
    if FinitePositive(baseline) && FinitePositive(candidate) then baseline.value / candidate.value else 0.0
  }

  // ---- the score --------------------------------------------------------------------------

  function Pow3(x: real): real { x * x * x }

  function Fourth(x: real): real { Pow3(x) * x }

  /** `s` is the weighted geometric mean `d^(3/4) p^(1/4)` of two positive speedups. */
  predicate IsScoreOf(s: real, d: real, p: real) {
    0.0 < s && Fourth(s) == Pow3(d) * p
  }

  lemma MulOrder(a: real, b: real, c: real, d: real)
    requires 0.0 <= a <= b && 0.0 <= c <= d
    ensures 0.0 <= a * c <= b * d
  {
    assert b * d - a * c == b * (d - c) + (b - a) * c;
    assert 0.0 <= b * (d - c) && 0.0 <= (b - a) * c && 0.0 <= a * c;
  }

  lemma MulStrict(a: real, b: real, c: real, d: real)
    requires 0.0 <= a < b && 0.0 <= c <= d && 0.0 < d
    ensures a * c < b * d
  {
    assert b * d - a * c == a * (d - c) + (b - a) * d;
    assert 0.0 <= a * (d - c) && 0.0 < (b - a) * d;
  }

  lemma CubeOrder(x: real, y: real)
    requires 0.0 <= x <= y
    ensures 0.0 <= Pow3(x) <= Pow3(y)
  {
    MulOrder(x, y, x, y);
    MulOrder(x * x, y * y, x, y);
  }

  lemma CubePositive(x: real)
    requires 0.0 < x
    ensures 0.0 < Pow3(x)
  {
    assert 0.0 < x * x;
  }

  /** A strictly smaller number has a strictly smaller fourth power, also against mixed factors. */
  lemma FourthOrder(s: real, d: real, p: real)
    requires 0.0 < s && 0.0 < d && 0.0 < p
    ensures d < s && p < s ==> Pow3(d) * p < Fourth(s)
    ensures s < d && s < p ==> Fourth(s) < Pow3(d) * p
  {
    CubePositive(s);
    CubePositive(d);
    if d < s && p < s {
      CubeOrder(d, s);
      MulStrict(p, s, Pow3(d), Pow3(s));
    }
    if s < d && s < p {
      CubeOrder(s, d);
      MulStrict(s, p, Pow3(s), Pow3(d));
    }
  }

  /** The score lies between the two speedups, and equals them when they agree. */
  lemma ScoreBetweenSpeedups(s: real, d: real, p: real)
    requires 0.0 < d && 0.0 < p && IsScoreOf(s, d, p)
    ensures (if d <= p then d else p) <= s <= (if d <= p then p else d)
  {
    FourthOrder(s, d, p);
  }

  /** There is at most one score. */
  lemma ScoreIsUnique(s: real, t: real, d: real, p: real)
    requires 0.0 < d && 0.0 < p && IsScoreOf(s, d, p) && IsScoreOf(t, d, p)
    ensures s == t
  {
    FourthOrder(s, t, t);
    FourthOrder(t, s, s);
  }

  /** Decoding faster, at the same prefill, never scores lower, and scores higher when strictly faster. */
  lemma FasterDecodeScoresHigher(s: real, d: real, s': real, d': real, p: real)
    requires 0.0 < d < d' && 0.0 < p && IsScoreOf(s, d, p) && IsScoreOf(s', d', p)
    ensures s < s'
  {
    hide Fourth, Pow3;
    CubeStrict(d, d');
    MulStrict(Pow3(d), Pow3(d'), p, p);
    assert Fourth(s) < Fourth(s');
    if s' <= s {
      FourthMonotone(s', s);
    }
  }

  lemma CubeStrict(x: real, y: real)
    requires 0.0 < x < y
    ensures 0.0 <= Pow3(x) < Pow3(y)
  {
    MulStrict(x, y, x, y);
    MulStrict(x * x, y * y, x, y);
    CubePositive(x);
  }

  lemma FourthMonotone(x: real, y: real)
    requires 0.0 <= x <= y
    ensures Fourth(x) <= Fourth(y)
  {
    CubeOrder(x, y);
    MulOrder(Pow3(x), Pow3(y), x, y);
  }

  // ---- acceptance bands -------------------------------------------------------------------

  /** Two-sided: no slower than the reference by `up`, no faster by `down`. */
  predicate InBand(value: Float, reference: Float, up: real, down: real) {
    && FinitePositive(value) && FinitePositive(reference)
    && reference.value * (1.0 - down) <= value.value <= reference.value * (1.0 + up)
  }

  datatype Axis = Prefill | Decode

  /** Why a timed run is refused, in priority order. */
  datatype Failure = NonFiniteScore | FloorsMissed | BandMissed(axis: Axis)

  /** `score` is `None` where the source computes NaN. */
  datatype Evaluation = Evaluation(score: Option<real>, decodeSpeedup: real, prefillSpeedup: real, passesFloors: bool,
                                   prefillInBand: bool, decodeInBand: bool)

  /** The evaluation of one timed run; the score is the one positive number its speedups define, or NaN. */
  predicate IsEvaluation(decode: Float, prefill: Float, baseDecode: Float, basePrefill: Float, e: Evaluation) {
    && e.decodeSpeedup == Speedup(baseDecode, decode)
    && e.prefillSpeedup == Speedup(basePrefill, prefill)
    && (if 0.0 < e.decodeSpeedup && 0.0 < e.prefillSpeedup
        then e.score.Some? && IsScoreOf(e.score.value, e.decodeSpeedup, e.prefillSpeedup)
        else e.score.None?)
    && e.passesFloors == (DECODE_FLOOR <= e.decodeSpeedup && PREFILL_FLOOR <= e.prefillSpeedup)
    && e.prefillInBand == InBand(prefill, basePrefill, PREFILL_UP, PREFILL_DOWN)
    && e.decodeInBand == InBand(decode, baseDecode, DECODE_UP, DECODE_DOWN)
  }

  function FirstFailure(e: Evaluation): Option<Failure> {
    if e.score.None? || e.score.value < 0.0 then Some(NonFiniteScore)
    else if !e.passesFloors then Some(FloorsMissed)
    else if !(e.prefillInBand && e.decodeInBand) then Some(BandMissed(if e.prefillInBand then Decode else Prefill))
    else None
  }

  lemma SpeedupInBand(value: Float, reference: Float, up: real, down: real)
    requires InBand(value, reference, up, down) && 0.0 <= up <= 0.05
    ensures 0.95 <= Speedup(reference, value)
  {
    var v, r := value.value, reference.value;
    assert v <= r * (1.0 + up) <= r * 1.05;
    assert 0.95 * v <= r;
    QuotientAtLeast(r, v, 0.95);
  }

  lemma NonNegativeFactor(x: real, v: real)
    requires 0.0 < v && 0.0 <= x * v
    ensures 0.0 <= x
  {
  }

  lemma QuotientAtLeast(r: real, v: real, bound: real)
    requires 0.0 < v && bound * v <= r
    ensures bound <= r / v
  {
    var q := r / v;
    assert q * v == r;
    assert (q - bound) * v == r - bound * v;
    NonNegativeFactor(q - bound, v);
  }

  /**
   For every timing, finite or not: nothing is refused exactly when both bands pass. The floors and the score
   guard can only fire on runs a band refuses as well.
   */
  lemma BandsDecideAcceptance(decode: Float, prefill: Float, baseDecode: Float, basePrefill: Float, e: Evaluation)
    requires IsEvaluation(decode, prefill, baseDecode, basePrefill, e)
    ensures FirstFailure(e).None? <==> e.prefillInBand && e.decodeInBand
    ensures FirstFailure(e).None? ==>
              0.95 <= e.decodeSpeedup && 0.95 <= e.prefillSpeedup && e.score.Some?
              && 0.95 <= e.score.value
  {
    if e.prefillInBand && e.decodeInBand {
      SpeedupInBand(prefill, basePrefill, PREFILL_UP, PREFILL_DOWN);
      SpeedupInBand(decode, baseDecode, DECODE_UP, DECODE_DOWN);
      ScoreBetweenSpeedups(e.score.value, e.decodeSpeedup, e.prefillSpeedup);
    }
  }

  // ---- the robust reference -----------------------------------------------------------------

  lemma {:induction false} RealSumJoins(a: seq<real>, b: seq<real>)
    ensures RealSum(a + b) == RealSum(a) + RealSum(b)
  {
    if a == [] {
      assert a + b == b;
    } else {
      assert (a + b)[1..] == a[1..] + b;
      RealSumJoins(a[1..], b);
    }
  }

  /** Leaving one entry out takes its value off the sum: which of several equal maxima goes is immaterial. */
  lemma SumWithout(s: seq<real>, k: nat)
    requires k < |s|
    ensures RealSum(s[..k] + s[k + 1..]) == RealSum(s) - s[k]
  {
    hide RealSum;
    OneValueSum(s[k]);
    CutAt(s, k);
    RealSumJoins(s[..k], [s[k]] + s[k + 1..]);
    RealSumJoins([s[k]], s[k + 1..]);
    RealSumJoins(s[..k], s[k + 1..]);
  }

  lemma OneValueSum(x: real)
    ensures RealSum([x]) == x
  {
  }

  lemma CutAt(s: seq<real>, k: nat)
    requires k < |s|
    ensures s == s[..k] + ([s[k]] + s[k + 1..])
  {
  }

  predicate IsMaximum(s: seq<real>, m: real) {
    m in s && forall i :: 0 <= i < |s| ==> s[i] <= m
  }

  lemma MeanOfKept(s: seq<real>, k: nat, mean: real)
    requires k < |s| && 1 < |s| && forall i :: 0 <= i < |s| ==> s[i] <= s[k]
    requires mean == RealSum(s[..k] + s[k + 1..]) / |s[..k] + s[k + 1..]| as real
    ensures IsMaximum(s, s[k]) && mean * (|s| - 1) as real == RealSum(s) - s[k]
  {
    hide RealSum;
    SumWithout(s, k);
    QuotientTimes(RealSum(s[..k] + s[k + 1..]), (|s| - 1) as real);
  }

  lemma QuotientTimes(x: real, y: real)
    requires y != 0.0
    ensures (x / y) * y == x
  {
  }

  /** The mean of all samples but one slowest; none for fewer than three, or any that is not finite and positive. */
  ghost predicate IsReference(samples: seq<Float>, r: Option<real>) {
    && (r.Some? <==> 3 <= |samples| && forall i :: 0 <= i < |samples| ==> FinitePositive(samples[i]))
    && (r.Some? ==>
          && AreFinite(samples)
          && exists m :: IsMaximum(Values(samples), m)
                         && r.value * (|samples| - 1) as real == RealSum(Values(samples)) - m)
  }

  method RobustReference(samples: seq<Float>) returns (r: Option<real>)
    ensures IsReference(samples, r)
  {
    hide RealSum, IsMaximum, Values;
    if |samples| < 3 || exists i :: 0 <= i < |samples| && !FinitePositive(samples[i]) {
      return None;
    }
    var rest := Values(samples);
    var slowest := 0;
    for i := 1 to |rest|
      invariant 0 <= slowest < i
      invariant forall k :: 0 <= k < i ==> rest[k] <= rest[slowest]
    {
      if rest[slowest] < rest[i] {
        slowest := i;
      }
    }
    var kept := rest[..slowest] + rest[slowest + 1..];
    var mean := RealSum(kept) / |kept| as real;
    MeanOfKept(rest, slowest, mean);
    return Some(mean);
  }

  // ---- the paired decode-only gate ----------------------------------------------------------------

  datatype PairedOutcome =
    | Scored(median: real)
    | PerPairBound(ratio: Float)
    | NonFiniteMedian(found: Float)
    | BelowFloor(median: real)
    | AboveCeiling(median: real)

  predicate PlausiblePair(ratio: Float) {
    FinitePositive(ratio) && ratio.value <= PER_PAIR_BOUND
  }

  predicate AllPlausible(perPair: seq<Float>) {
    forall i :: 0 <= i < |perPair| ==> PlausiblePair(perPair[i])
  }

  predicate WithinPairedBounds(median: Float) {
    median.Finite? && PAIRED_FLOOR <= median.value <= PAIRED_CEILING
  }

  /**
   Every pair plausible and the raw median between floor and ceiling, or the first bound that fails. `sorted` is
   what the library sort made of the per-prompt ratios.
   */
  method ScorePairedDecodeOnly(perPair: seq<Float>, perPrompt: seq<Float>, sorted: seq<Float>)
    returns (r: PairedOutcome)
    requires IsLibrarySort(perPrompt, sorted)
    ensures r.Scored? <==> AllPlausible(perPair) && WithinPairedBounds(CentralOf(sorted))
    ensures r.Scored? || r.BelowFloor? || r.AboveCeiling? ==> CentralOf(sorted) == Finite(r.median)
    ensures r.PerPairBound? <==> !AllPlausible(perPair)
    ensures r.PerPairBound? ==>
              exists i :: 0 <= i < |perPair| && perPair[i] == r.ratio && !PlausiblePair(perPair[i])
                          && forall j :: 0 <= j < i ==> PlausiblePair(perPair[j])
    ensures r.NonFiniteMedian? <==> AllPlausible(perPair) && !CentralOf(sorted).Finite?
    ensures r.NonFiniteMedian? ==> r.found == CentralOf(sorted)
    ensures r.BelowFloor? ==> r.median < PAIRED_FLOOR
    ensures r.AboveCeiling? ==> PAIRED_CEILING < r.median
  {
    var median := CentralOf(sorted);
    for i := 0 to |perPair|
      invariant forall j :: 0 <= j < i ==> PlausiblePair(perPair[j])
    {
      var ratio := perPair[i];
      if !ratio.Finite? || ratio.value <= 0.0 || PER_PAIR_BOUND < ratio.value {
        return PerPairBound(ratio);
      }
    }
    if !median.Finite? {
      return NonFiniteMedian(median);
    }
    if median.value < PAIRED_FLOOR {
      return BelowFloor(median.value);
    }
    if PAIRED_CEILING < median.value {
      return AboveCeiling(median.value);
    }
    return Scored(median.value);
  }

  /** On finite ratios the gate compares the median of the reals, and an empty list has none to score. */
  lemma PairedMedianIsMedian(perPrompt: seq<Float>, sorted: seq<Float>)
    requires IsLibrarySort(perPrompt, sorted) && AreFinite(perPrompt)
    ensures WithinPairedBounds(CentralOf(sorted)) <==>
              perPrompt != [] && PAIRED_FLOOR <= MedianOf(Values(perPrompt)).value <= PAIRED_CEILING
  {
    if perPrompt == [] {
      assert |multiset(sorted)| == 0;
    } else {
      FiniteMedian(perPrompt, sorted);
    }
  }

  /** At least half of the prompts clear the floor, and at least half stay under the ceiling. */
  predicate HalfClear(perPrompt: seq<Float>) {
    && |perPrompt| <= 2 * Count(perPrompt, x => AtMost(Finite(PAIRED_FLOOR), x))
    && |perPrompt| <= 2 * Count(perPrompt, x => AtMost(x, Finite(PAIRED_CEILING)))
  }

  /** A scored run without a NaN is half clear on either side, whichever of its prompts are infinite. */
  lemma ScoredMeansHalfClear(perPrompt: seq<Float>, sorted: seq<Float>)
    requires IsLibrarySort(perPrompt, sorted) && HoldsNoNaN(perPrompt) && WithinPairedBounds(CentralOf(sorted))
    ensures HalfClear(perPrompt)
  {
    HalfOnEachFloatSide(perPrompt, sorted, CentralOf(sorted).value, x => AtMost(x, Finite(PAIRED_CEILING)),
                        x => AtMost(Finite(PAIRED_FLOOR), x));
  }

  /** With a NaN nothing of the kind holds: this list may come back as it is, and its median passes the finite check. */
  lemma NaNIsNotCaught()
    ensures var ratios := [NaN, Finite(1.0), NaN];
            IsLibrarySort(ratios, ratios) && WithinPairedBounds(CentralOf(ratios)) && !HalfClear(ratios)
  {
    var ratios := [NaN, Finite(1.0), NaN];
    assert ratios[0] == NaN;
    assert ratios[1..] == [Finite(1.0), NaN] && ratios[1..][1..] == [NaN] && ratios[1..][1..][1..] == [];
    assert Count(ratios, x => AtMost(Finite(PAIRED_FLOOR), x)) == 1;
  }

  // ---- exactly when a score says something about the prompts ---------------------------------

  /** Some value, or for an even count some two, would make a median within the bounds. */
  predicate CentralWithinReach(perPrompt: seq<Float>) {
    if |perPrompt| % 2 == 1 then exists i :: 0 <= i < |perPrompt| && WithinPairedBounds(perPrompt[i])
    else
      exists i, j :: 0 <= i < |perPrompt| && 0 <= j < |perPrompt| && i != j
                     && WithinPairedBounds(Half(Plus(perPrompt[i], perPrompt[j])))
  }

  function Swap<T>(s: seq<T>, i: nat, j: nat): (t: seq<T>)
    requires i < |s| && j < |s|
    ensures |t| == |s| && t[i] == s[j] && t[j] == s[i] && forall k :: 0 <= k < |s| && k != i && k != j ==> t[k] == s[k]
  {
    s[i := s[j]][j := s[i]]
  }

  lemma SwapPermutes<T>(s: seq<T>, i: nat, j: nat)
    requires i < |s| && j < |s|
    ensures multiset(Swap(s, i, j)) == multiset(s)
  {
  }

  /** Two entries brought to two places. */
  lemma PairToPlaces<T>(s: seq<T>, i: nat, j: nat, k: nat, l: nat) returns (t: seq<T>)
    requires i < |s| && j < |s| && i != j && k < |s| && l < |s| && k != l
    ensures multiset(t) == multiset(s) && |t| == |s| && t[k] == s[i] && t[l] == s[j]
  {
    hide Swap;
    var first := Swap(s, i, k);
    SwapPermutes(s, i, k);
    var m := if j == k then i else j;
    assert first[m] == s[j] && m != k;
    t := Swap(first, m, l);
    SwapPermutes(first, m, l);
  }

  /** An arrangement that puts the chosen values in the middle; with a NaN about, the sort may return it. */
  lemma ReachedBySome(perPrompt: seq<Float>) returns (sorted: seq<Float>)
    requires CentralWithinReach(perPrompt) && !HoldsNoNaN(perPrompt)
    ensures IsLibrarySort(perPrompt, sorted) && WithinPairedBounds(CentralOf(sorted))
  {
    hide WithinPairedBounds, HoldsNoNaN, Swap;
    var n := |perPrompt|;
    if n % 2 == 1 {
      var i :| 0 <= i < n && WithinPairedBounds(perPrompt[i]);
      sorted := Swap(perPrompt, i, n / 2);
      SwapPermutes(perPrompt, i, n / 2);
    } else {
      var i, j :| 0 <= i < n && 0 <= j < n && i != j && WithinPairedBounds(Half(Plus(perPrompt[i], perPrompt[j])));
      sorted := PairToPlaces(perPrompt, i, j, n / 2 - 1, n / 2);
    }
  }

  function Without<T>(s: seq<T>, i: nat): seq<T>
    requires i < |s|
  {
    s[..i] + s[i + 1..]
  }

  lemma WithoutOne<T>(s: seq<T>, i: nat)
    requires i < |s|
    ensures multiset(Without(s, i)) == multiset(s) - multiset{s[i]}
  {
    assert s == s[..i] + [s[i]] + s[i + 1..];
  }

  lemma StaysWithout<T>(s: seq<T>, i: nat, j: nat)
    requires i < j < |s|
    ensures s[j] in multiset(Without(s, i))
  {
    assert Without(s, i)[j - 1] == s[j];
  }

  lemma AnotherPlace<T>(s: seq<T>, i: nat, x: T) returns (j: nat)
    requires i < |s| && x in multiset(Without(s, i))
    ensures j < |s| && j != i && s[j] == x
  {
    var m :| 0 <= m < |Without(s, i)| && Without(s, i)[m] == x;
    j := if m < i then m else m + 1;
  }

  /** Two places of a permutation hold what two places of the list hold. */
  lemma PlacesOfPermutation<T>(s: seq<T>, t: seq<T>, k: nat, l: nat) returns (i: nat, j: nat)
    requires multiset(s) == multiset(t) && k < l < |t|
    ensures i < |s| && j < |s| && i != j && s[i] == t[k] && s[j] == t[l]
  {
    hide Without;
    assert t[k] in multiset(t);
    i :| 0 <= i < |s| && s[i] == t[k];
    WithoutOne(s, i);
    WithoutOne(t, k);
    StaysWithout(t, k, l);
    j := AnotherPlace(s, i, t[l]);
  }

  lemma OnlyWithinReach(perPrompt: seq<Float>, sorted: seq<Float>)
    requires IsLibrarySort(perPrompt, sorted) && WithinPairedBounds(CentralOf(sorted))
    ensures CentralWithinReach(perPrompt)
  {
    var n := |sorted|;
    assert |multiset(sorted)| == n && |multiset(perPrompt)| == |perPrompt|;
    if n % 2 == 1 {
      assert sorted[n / 2] in multiset(sorted);
      var i :| 0 <= i < |perPrompt| && perPrompt[i] == sorted[n / 2];
    } else {
      var i, j := PlacesOfPermutation(perPrompt, sorted, n / 2 - 1, n / 2);
    }
  }

  /**
   For every list of ratios: whatever the sort returns, a scored run is half clear on either side, if and only if the
   list holds no NaN, or is half clear anyway, or holds nothing that could score as a median.
   */
  lemma HalfClearExactly(perPrompt: seq<Float>)
    ensures (forall sorted :: IsLibrarySort(perPrompt, sorted) && WithinPairedBounds(CentralOf(sorted))
                              ==> HalfClear(perPrompt))
            <==> HoldsNoNaN(perPrompt) || HalfClear(perPrompt) || !CentralWithinReach(perPrompt)
  {
    hide HalfClear, CentralWithinReach, WithinPairedBounds, CentralOf;
    forall sorted | IsLibrarySort(perPrompt, sorted) && WithinPairedBounds(CentralOf(sorted))
      ensures CentralWithinReach(perPrompt) && (HoldsNoNaN(perPrompt) ==> HalfClear(perPrompt))
    {
      OnlyWithinReach(perPrompt, sorted);
      if HoldsNoNaN(perPrompt) {
        ScoredMeansHalfClear(perPrompt, sorted);
      }
    }
    if !HoldsNoNaN(perPrompt) && CentralWithinReach(perPrompt) {
      var sorted := ReachedBySome(perPrompt);
    }
  }
}
