/**
 What every field of an attestation is computed from, and which guard refuses a leg (bench-core,
 per_stream_attestation.rs).
 */
module AttestationLaws {
  import opened Wrappers
  import opened Sums
  import opened FreeRun
  import opened Attestation

  // ---- the fields --------------------------------------------------------------------

  /** The raw ratio of a clause, when it is a number, as a fraction without a division. */
  predicate IsRatio(clause: Clause, part: real, whole: real) {
    clause.rawRatio.Finite? && clause.rawRatio.value * whole == part
  }

  lemma RatioTimes(x: real, y: real)
    requires y != 0.0
    ensures (x / y) * y == x
  {
  }

  /** One slot against a window: flagged when it ran longer. */
  lemma BoundingIs(ns: seq<nat>, windowNs: real, slot: nat)
    requires 0.0 < windowNs && slot < |ns|
    ensures |Bounding(ns, windowNs)| == |ns|
    ensures var clause := Bounding(ns, windowNs)[slot];
            IsRatio(clause, ns[slot] as real, windowNs) && (clause.flagged <==> windowNs < ns[slot] as real)
  {
    RatioTimes(ns[slot] as real, windowNs);
    RatioAgainstOne(ns[slot] as real, windowNs);
  }

  /** The slowest slot against a window: flagged when every slot ran shorter. */
  lemma CoverageIs(ns: seq<nat>, windowNs: real)
    requires 0.0 < windowNs
    ensures var clause := Coverage(ns, windowNs);
            && (exists m: nat :: IsRatio(clause, m as real, windowNs) && (ns != [] ==> m in ns)
                                 && forall slot :: 0 <= slot < |ns| ==> ns[slot] <= m)
            && (clause.flagged <==> forall slot :: 0 <= slot < |ns| ==> (ns[slot] as real) < windowNs)
  {
    var m := Max(ns);
    RatioTimes(m as real, windowNs);
    RatioAgainstOne(m as real, windowNs);
    assert IsRatio(Coverage(ns, windowNs), m as real, windowNs);
    if ns != [] && forall slot :: 0 <= slot < |ns| ==> (ns[slot] as real) < windowNs {
      var slot :| 0 <= slot < |ns| && ns[slot] == m;
    }
  }

  /** One slot against its own token count: flagged when it ran shorter than its tokens take at the cohort's pace. */
  lemma FloorIs(ns: nat, k: nat, windowNs: real, rounds: nat)
    requires 0.0 < windowNs && 0 < rounds
    ensures var clause := FloorClause(ns, k, windowNs / rounds as real);
            && (clause.flagged <==> ns as real * rounds as real < k as real * windowNs)
            && (clause.rawRatio.Infinite? <==> k == 0)
            && (0 < k ==> IsRatio(clause, ns as real, k as real * (windowNs / rounds as real)))
  {
    FloorMeans(ns, k, windowNs, rounds);
    QuotientPositive(windowNs, rounds as real);
    var stepNs := windowNs / rounds as real;
    if 0 < k {
      PositiveProduct(k as real, stepNs);
      RatioTimes(ns as real, k as real * stepNs);
    }
  }

  /** A slot's ratio to the mean of all, without a division. */
  lemma LockstepIs(ns: seq<nat>, slot: nat)
    requires AllPositive(ns) && slot < |ns|
    ensures |Lockstep(ns)| == |ns|
    ensures Lockstep(ns)[slot] * Sum(ns) as real == ns[slot] as real * |ns| as real
  {
    hide Sum, Scaled;
    LengthAtMostSum(ns);
    QuotientPositive(Sum(ns) as real, |ns| as real);
    var mean := Sum(ns) as real / |ns| as real;
    ScaledIs(ns, mean, slot);
    Multiplies(Lockstep(ns)[slot], mean, |ns| as real, ns[slot] as real, Sum(ns) as real);
  }

  lemma ScaledIs(ns: seq<nat>, mean: real, slot: nat)
    requires 0.0 < mean && slot < |ns|
    ensures |Scaled(ns, mean)| == |ns| && Scaled(ns, mean)[slot] * mean == ns[slot] as real
  {
    RatioTimes(ns[slot] as real, mean);
  }

  lemma Multiplies(ratio: real, mean: real, n: real, part: real, total: real)
    requires ratio * mean == part && mean * n == total
    ensures ratio * total == part * n
  {
    MulAssoc(ratio, mean, n);
  }

  /** The window in nanoseconds. */
  lemma WindowIs(w: Window)
    requires PositiveWindow(w)
    ensures w.Finite? && 0.0 < WindowNs(w) && WindowNs(w) == w.seconds * 1000000000.0
  {
    PositiveProduct(w.seconds, 1000000000.0);
  }

  /** Every clause of an attestation is that of its own phase: prefill times against the prefill window, and so on. */
  lemma AttestedIs(i: Inputs)
    requires WellFormed(i)
    ensures i.prefillNs.Some? && i.decodeNs.Some? && i.prefillWindow.Finite? && i.decodeWindow.Finite?
    ensures |i.prefillNs.value| == |i.decodeNs.value| == |i.tokensLenByStream| == i.batchSize && 0 < i.rounds
    ensures AllPositive(i.decodeNs.value) && PositiveWindow(i.prefillWindow) && PositiveWindow(i.decodeWindow)
    ensures var a := Attested(i); var prefill, decode := i.prefillNs.value, i.decodeNs.value;
            && a.batchSize == |decode|
            && a.prefillBounding == Bounding(prefill, i.prefillWindow.seconds * 1000000000.0)
            && a.decodeBounding == Bounding(decode, i.decodeWindow.seconds * 1000000000.0)
            && a.prefillCoverage == Coverage(prefill, i.prefillWindow.seconds * 1000000000.0)
            && a.decodeCoverage == Coverage(decode, i.decodeWindow.seconds * 1000000000.0)
            && a.lockstepInterleave == Lockstep(decode)
            && a.prefillSumNs == Sum(prefill) && a.decodeSumNs == Sum(decode)
            && |a.tokenCountFloor| == i.batchSize
            && forall slot :: 0 <= slot < i.batchSize ==>
                 a.tokenCountFloor[slot] == FloorClause(decode[slot], i.tokensLenByStream[slot],
                                                        i.decodeWindow.seconds * 1000000000.0 / i.rounds as real)
  {
    hide WellFormed, Bounding, Coverage, Lockstep, FloorClause, Sum;
    WellFormedMeans(i);
    WindowIs(i.prefillWindow);
    WindowIs(i.decodeWindow);
  }

  // ---- the two phases do not mix ---------------------------------------------------------

  /** Another prefill leaves every decode field as it was, and another decode every prefill field. */
  lemma PhasesAreApart(i: Inputs, other: Inputs)
    requires WellFormed(i) && WellFormed(other) && i.batchSize == other.batchSize
    ensures i.decodeNs == other.decodeNs && i.decodeWindow == other.decodeWindow && i.rounds == other.rounds
            && i.tokensLenByStream == other.tokensLenByStream ==>
              var a, b := Attested(i), Attested(other);
              a.decodeBounding == b.decodeBounding && a.decodeCoverage == b.decodeCoverage
              && a.tokenCountFloor == b.tokenCountFloor && a.lockstepInterleave == b.lockstepInterleave
              && a.decodeSumNs == b.decodeSumNs
    ensures i.prefillNs == other.prefillNs && i.prefillWindow == other.prefillWindow ==>
              var a, b := Attested(i), Attested(other);
              a.prefillBounding == b.prefillBounding && a.prefillCoverage == b.prefillCoverage
              && a.prefillSumNs == b.prefillSumNs
  {
    hide WellFormed;
    WellFormedMeans(i);
    WellFormedMeans(other);
  }

  // ---- the flags, on the leg itself --------------------------------------------------------

  /** In a leg's own numbers: what the prefill flags say. */
  lemma PrefillFlagsMean(i: Inputs, slot: nat)
    requires WellFormed(i) && slot < i.batchSize
    ensures i.prefillNs.Some? && i.prefillWindow.Finite? && |i.prefillNs.value| == i.batchSize
    ensures var a := Attested(i); var prefill, windowNs := i.prefillNs.value, i.prefillWindow.seconds * 1000000000.0;
            && |a.prefillBounding| == i.batchSize
            && (a.prefillBounding[slot].flagged <==> windowNs < prefill[slot] as real)
            && (a.prefillCoverage.flagged <==> forall s :: 0 <= s < |prefill| ==> (prefill[s] as real) < windowNs)
  {
    hide WellFormed, Bounding, Coverage, Lockstep, FloorClause, Attested, Sum;
    AttestedIs(i);
    WindowIs(i.prefillWindow);
    BoundingIs(i.prefillNs.value, i.prefillWindow.seconds * 1000000000.0, slot);
    CoverageIs(i.prefillNs.value, i.prefillWindow.seconds * 1000000000.0);
  }

  /** And the decode flags, in its decode numbers. */
  lemma DecodeFlagsMean(i: Inputs, slot: nat)
    requires WellFormed(i) && slot < i.batchSize
    ensures i.decodeNs.Some? && i.decodeWindow.Finite? && |i.decodeNs.value| == i.batchSize
    ensures var a := Attested(i); var decode, windowNs := i.decodeNs.value, i.decodeWindow.seconds * 1000000000.0;
            && |a.decodeBounding| == i.batchSize
            && (a.decodeBounding[slot].flagged <==> windowNs < decode[slot] as real)
            && (a.decodeCoverage.flagged <==> forall s :: 0 <= s < |decode| ==> (decode[s] as real) < windowNs)
  {
    hide WellFormed, Bounding, Coverage, Lockstep, FloorClause, Attested, Sum;
    AttestedIs(i);
    WindowIs(i.decodeWindow);
    BoundingIs(i.decodeNs.value, i.decodeWindow.seconds * 1000000000.0, slot);
    CoverageIs(i.decodeNs.value, i.decodeWindow.seconds * 1000000000.0);
  }

  /** A slot's decode time against its own tokens, and its share of the cohort's time. */
  lemma SharesMean(i: Inputs, slot: nat)
    requires WellFormed(i) && slot < i.batchSize
    ensures i.decodeNs.Some? && i.decodeWindow.Finite?
    ensures |i.decodeNs.value| == i.batchSize && |i.tokensLenByStream| == i.batchSize
    ensures var a := Attested(i); var decode, windowNs := i.decodeNs.value, i.decodeWindow.seconds * 1000000000.0;
            && |a.tokenCountFloor| == |a.lockstepInterleave| == i.batchSize
            && (a.tokenCountFloor[slot].flagged
                <==> decode[slot] as real * i.rounds as real < i.tokensLenByStream[slot] as real * windowNs)
            && a.lockstepInterleave[slot] * a.decodeSumNs as real == decode[slot] as real * i.batchSize as real
  {
    hide WellFormed, Bounding, Coverage, Lockstep, FloorClause, Attested, Sum;
    AttestedIs(i);
    WindowIs(i.decodeWindow);
    FloorIs(i.decodeNs.value[slot], i.tokensLenByStream[slot], i.decodeWindow.seconds * 1000000000.0, i.rounds);
    LockstepIs(i.decodeNs.value, slot);
  }

  // ---- the guards ------------------------------------------------------------------------------

  predicate HasZero(ns: seq<nat>) {
    exists slot :: 0 <= slot < |ns| && ns[slot] == 0
  }

  predicate IsPositive(w: Window) {
    w.Finite? && w.seconds > 0.0
  }

  /** A leg is refused for the first of these, in this order, and attested when none applies. */
  lemma RefusalIsFirst(i: Inputs, e: AttestationError)
    requires FirstRefusal(i, e)
    ensures if !i.capabilityAdvertised then e == CapabilityAbsent
            else if i.prefillNs.None? then e == VectorMissing(Prefill)
            else if i.decodeNs.None? then e == VectorMissing(Decode)
            else if |i.prefillNs.value| != i.batchSize then e == VectorLength(Prefill, i.batchSize, |i.prefillNs.value|)
            else if |i.decodeNs.value| != i.batchSize then e == VectorLength(Decode, i.batchSize, |i.decodeNs.value|)
            else if |i.tokensLenByStream| != i.batchSize then
              e == TokensLenByStreamWidth(i.batchSize, |i.tokensLenByStream|)
            else if HasZero(i.prefillNs.value) then
              e.ZeroDuration? && e.phase == Prefill && IsFirstZero(i.prefillNs.value, e.slot)
            else if HasZero(i.decodeNs.value) then
              e.ZeroDuration? && e.phase == Decode && IsFirstZero(i.decodeNs.value, e.slot)
            else if !IsPositive(i.prefillWindow) then e == NonPositiveWindow(Prefill, i.prefillWindow)
            else if !IsPositive(i.decodeWindow) then e == NonPositiveWindow(Decode, i.decodeWindow)
            else i.rounds == 0 && e == ZeroRounds
  {
    var k :| 0 <= k < |GUARDS| && RefusedAt(i, k, e);
    assert 0 < k ==> Passes(i, GUARDS[0]);
    assert 1 < k ==> Passes(i, GUARDS[1]);
    assert 2 < k ==> Passes(i, GUARDS[2]);
    assert 3 < k ==> Passes(i, GUARDS[3]);
    assert 4 < k ==> Passes(i, GUARDS[4]);
    assert 5 < k ==> Passes(i, GUARDS[5]);
    assert 6 < k ==> Passes(i, GUARDS[6]);
    assert 7 < k ==> Passes(i, GUARDS[7]);
    assert 8 < k ==> Passes(i, GUARDS[8]);
    assert 9 < k ==> Passes(i, GUARDS[9]);
  }

  predicate IsFirstZero(ns: seq<nat>, slot: nat) {
    slot < |ns| && ns[slot] == 0 && forall s :: 0 <= s < slot ==> ns[s] != 0
  }

  /** A leg that none of these refuses is attested. */
  lemma LegPasses(i: Inputs)
    ensures WellFormed(i)
            <==> i.capabilityAdvertised && i.prefillNs.Some? && i.decodeNs.Some?
                 && |i.prefillNs.value| == i.batchSize && |i.decodeNs.value| == i.batchSize
                 && |i.tokensLenByStream| == i.batchSize && !HasZero(i.prefillNs.value) && !HasZero(i.decodeNs.value)
                 && IsPositive(i.prefillWindow) && IsPositive(i.decodeWindow) && 0 < i.rounds
  {
    if WellFormed(i) {
      assert forall k :: 0 <= k < |GUARDS| ==> GUARDS[k] in GUARDS;
      assert Passes(i, GUARDS[0]);
      WellFormedMeans(i);
    } else {
      var guard :| guard in GUARDS && !Passes(i, guard);
    }
  }
}
