/**
 The verdicts of the replay echo, the tolerance gate and the near-tie seal, in terms of what was changed and where
 (bench-core, cohort_tolerance.rs and near_tie.rs).
 */
module ToleranceVerdicts {
  import opened Wrappers
  import opened Floats
  import opened CohortTolerance
  import opened ToleranceLaws
  import opened Median
  import NearTie

  // ---- the replay echo -----------------------------------------------------------------

  lemma DifferByThen(a: seq<seq<int>>, b: seq<seq<int>>, k: nat, at: nat)
    requires k < at <= |a| == |b| && a[k] != b[k]
    ensures a[..at] != b[..at]
  {
    assert a[..at][k] == a[k] && b[..at][k] == b[k];
  }

  lemma TokensDifferByThen(a: seq<int>, b: seq<int>, k: nat, at: nat)
    requires k < at <= |a| == |b| && a[k] != b[k]
    ensures a[..at] != b[..at]
  {
    assert a[..at][k] == a[k] && b[..at][k] == b[k];
  }

  /** A difference in one slot alone is reported in that slot. */
  lemma ReportedInItsSlot(committed: seq<seq<int>>, echoed: seq<seq<int>>, slot: nat, e: ReplayError)
    requires |committed| == |echoed| && slot < |committed| && FirstDifference(committed, echoed, e)
    requires forall k :: 0 <= k < |committed| ==> (committed[k] == echoed[k] <==> k != slot)
    ensures !e.EchoCountMismatch? && e.slot == slot
  {
    if slot < e.slot {
      DifferByThen(committed, echoed, slot, e.slot);
    }
  }

  /** One echoed token that differs is named with its place and both tokens. */
  lemma OneTokenIsNamed(committed: seq<seq<int>>, slot: nat, position: nat, token: int, r: Result<(), ReplayError>)
    requires slot < |committed| && position < |committed[slot]| && committed[slot][position] != token
    requires IsReplayOutcome(committed, committed[slot := committed[slot][position := token]], r)
    ensures r == Err(TokenMismatch(slot, position, committed[slot][position], token))
  {
    var echoed := committed[slot := committed[slot][position := token]];
    assert committed[slot][position] != echoed[slot][position];
    ReportedInItsSlot(committed, echoed, slot, r.error);
    if position < r.error.position {
      TokensDifferByThen(committed[slot], echoed[slot], position, r.error.position);
    }
  }

  /** An echo that runs on in one stream is refused with both lengths. */
  lemma LongerEchoIsNamed(committed: seq<seq<int>>, slot: nat, more: seq<int>, r: Result<(), ReplayError>)
    requires slot < |committed| && more != []
    requires IsReplayOutcome(committed, committed[slot := committed[slot] + more], r)
    ensures r == Err(EchoLengthMismatch(slot, |committed[slot]|, |committed[slot]| + |more|))
  {
    var echoed := committed[slot := committed[slot] + more];
    assert |committed[slot]| != |echoed[slot]|;
    ReportedInItsSlot(committed, echoed, slot, r.error);
  }

  /** An echo of more streams is refused with both counts, and one of the same streams passes. */
  lemma MoreStreamsAreNamed(committed: seq<seq<int>>, more: seq<seq<int>>, r: Result<(), ReplayError>)
    requires IsReplayOutcome(committed, committed + more, r)
    ensures if more == [] then r.Ok? else r == Err(EchoCountMismatch(|committed|, |committed| + |more|))
  {
    if more == [] {
      assert committed + more == committed;
    } else {
      assert |committed + more| != |committed|;
    }
  }

  // ---- the gate ---------------------------------------------------------------------------

  /** Every slot has as many reference tokens as committed ones, and some. */
  predicate Aligned(committed: seq<seq<int>>, reference: seq<seq<int>>) {
    |committed| == |reference| && forall k :: 0 <= k < |committed| ==> |committed[k]| == |reference[k]| != 0
  }

  /** The share of a slot's tokens that differ from the reference, in a thousand. */
  function Share(committed: seq<seq<int>>, reference: seq<seq<int>>, slot: nat): real
    requires Aligned(committed, reference) && slot < |committed|
  {
    1000.0 * |Differing(committed[slot], reference[slot])| as real / |committed[slot]| as real
  }

  lemma FailsByShare(committed: seq<seq<int>>, reference: seq<seq<int>>, slot: nat, tolerance: nat)
    requires Aligned(committed, reference) && slot < |committed|
    ensures Fails(StreamCount(slot, Mismatches(committed[slot], reference[slot]), |committed[slot]|), tolerance)
            <==> tolerance as real < Share(committed, reference, slot)
  {
    var m, c := |Differing(committed[slot], reference[slot])|, |committed[slot]|;
    FailsIsRate(committed[slot], reference[slot], slot, tolerance);
    ByThousand(tolerance as real, m as real, c as real);
  }

  lemma ByThousand(t: real, m: real, c: real)
    requires 0.0 < c
    ensures t / 1000.0 < m / c <==> t < 1000.0 * m / c
  {
    var q := m / c;
    assert q * c == m;
    assert (1000.0 * q) * c == 1000.0 * m;
    assert 1000.0 * m / c == 1000.0 * q;
  }

  /** Aligned streams are judged, each by its own share; the failing slot that is reported is the lowest there is. */
  lemma GateJudgesShares(committed: seq<seq<int>>, reference: seq<seq<int>>, tolerance: nat,
                         r: Result<Verdict, ToleranceError>, slot: nat)
    requires Aligned(committed, reference) && slot < |committed| && IsGateOutcome(committed, reference, tolerance, r)
    ensures r.Ok? && r.value.tolerance == tolerance && |r.value.perStream| == |committed|
    ensures r.value.perStream[slot]
            == StreamCount(slot, |Differing(committed[slot], reference[slot])|, |committed[slot]|)
    ensures r.value.firstFailing == Some(r.value.perStream[slot])
            <==> tolerance as real < Share(committed, reference, slot)
                 && forall k :: 0 <= k < slot ==> Share(committed, reference, k) <= tolerance as real
    ensures r.value.firstFailing.None?
            <==> forall k :: 0 <= k < |committed| ==> Share(committed, reference, k) <= tolerance as real
  {
    hide Share, Differing, Mismatches, Fails;
    assert Judgeable(committed, reference);
    MismatchesAreDiffering(committed[slot], reference[slot]);
    forall k | 0 <= k < |committed|
      ensures Fails(r.value.perStream[k], tolerance) <==> tolerance as real < Share(committed, reference, k)
      ensures r.value.perStream[k].slot == k
    {
      FailsByShare(committed, reference, k, tolerance);
      assert r.value.perStream[k] == Tally(committed, reference, k);
    }
  }

  /** From aligned streams, what one spoilt slot or an added stream is refused with. */
  lemma SpoiltSlotIsNamed(committed: seq<seq<int>>, reference: seq<seq<int>>, tolerance: nat, slot: nat,
                          more: seq<int>, r: Result<Verdict, ToleranceError>)
    requires Aligned(committed, reference) && slot < |committed|
    ensures IsGateOutcome(committed[slot := []], reference[slot := []], tolerance, r) ==> r == Err(EmptyStream(slot))
    ensures IsGateOutcome(committed, reference[slot := reference[slot] + more], tolerance, r) && more != [] ==>
              r == Err(StreamLengthMismatch(slot, |committed[slot]|, |committed[slot]| + |more|))
    ensures IsGateOutcome(committed[slot := committed[slot] + more], reference, tolerance, r) && more != [] ==>
              r == Err(StreamLengthMismatch(slot, |reference[slot]| + |more|, |reference[slot]|))
    ensures IsGateOutcome(committed + [more], reference, tolerance, r) ==>
              r == Err(StreamCountMismatch(|reference| + 1, |reference|))
    ensures IsGateOutcome(committed, reference + [more], tolerance, r) ==>
              r == Err(StreamCountMismatch(|committed|, |committed| + 1))
  {
    FaultIsAt(committed[slot := []], reference[slot := []], slot, tolerance, r);
    if more != [] {
      FaultIsAt(committed, reference[slot := reference[slot] + more], slot, tolerance, r);
      FaultIsAt(committed[slot := committed[slot] + more], reference, slot, tolerance, r);
    }
  }

  lemma FaultIsAt(committed: seq<seq<int>>, reference: seq<seq<int>>, slot: nat, tolerance: nat,
                  r: Result<Verdict, ToleranceError>)
    requires |committed| == |reference| && slot < |committed|
    requires forall k :: 0 <= k < |committed| ==> (|committed[k]| == |reference[k]| != 0 <==> k != slot)
    ensures IsGateOutcome(committed, reference, tolerance, r) ==>
              r == Err(if |committed[slot]| == |reference[slot]| then EmptyStream(slot)
                       else StreamLengthMismatch(slot, |committed[slot]|, |reference[slot]|))
  {
    hide IsFirstFailing, Mismatches;
    if IsGateOutcome(committed, reference, tolerance, r) {
      assert !(|committed[slot]| == |reference[slot]| != 0);
      assert !Judgeable(committed, reference);
      var at := r.error.slot;
      if slot < at {
        FaultyByThen(committed, reference, slot, at);
      }
    }
  }

  lemma FaultyByThen(committed: seq<seq<int>>, reference: seq<seq<int>>, slot: nat, at: nat)
    requires slot < at <= |committed| == |reference| && !(|committed[slot]| == |reference[slot]| != 0)
    ensures !Judgeable(committed[..at], reference[..at])
  {
    assert committed[..at][slot] == committed[slot] && reference[..at][slot] == reference[slot];
  }

  // ---- the seal -----------------------------------------------------------------------------

  /** A seal is refused for the first of these, in this order; an envelope of zero is one. */
  lemma SealRefusal(streams: seq<seq<NearTie.Position>>, envelope: Float, budget: nat,
                    r: Result<NearTie.Stats, NearTie.NearTieError>)
    requires NearTie.IsSealOutcome(streams, envelope, budget, r)
    ensures r == Err(NearTie.NoStreams) <==> |streams| == 0
    ensures r == Err(NearTie.UnusableEnvelope)
            <==> 0 < |streams| && (envelope in {NaN, PositiveInfinity, NegativeInfinity} || envelope.value < 0.0)
    ensures r.Ok? <==> 0 < |streams| && envelope.Finite? && !(envelope.value < 0.0) && [] !in streams
    ensures r.Err? && r.error.EmptyStream? ==>
              r.error.slot < |streams| && streams[r.error.slot] == [] && [] !in streams[..r.error.slot]
  {
    hide NearTie.Describes;
    if r.Ok? {
      DescribedAreFull(streams, envelope.value, budget, r.value);
    } else if r.error.EmptyStream? {
      assert streams[r.error.slot] in streams;
    }
  }

  lemma DescribedAreFull(streams: seq<seq<NearTie.Position>>, envelope: real, budget: nat, s: NearTie.Stats)
    requires NearTie.Describes(streams, envelope, budget, s)
    ensures [] !in streams
  {
    forall k | 0 <= k < |streams| ensures streams[k] != [] {
      assert NearTie.DescribesStream(streams[k], envelope, k, s.perStream[k]);
    }
  }

  /** Each stream of a seal carries its own slot, size and counts. */
  lemma StreamIsSealed(streams: seq<seq<NearTie.Position>>, envelope: real, budget: nat, s: NearTie.Stats, slot: nat)
    requires NearTie.Describes(streams, envelope, budget, s) && slot < |streams|
    ensures var positions, sealed := streams[slot], s.perStream[slot];
            && sealed.slot == slot && sealed.committed == |positions|
            && sealed.mismatches == |Missed(positions)| && sealed.nearTies == |Close(positions, envelope)|
            && sealed.nearTieMismatches == |Missed(positions) * Close(positions, envelope)|
  {
    hide MedianOf, Missed, Close, NearTie.MismatchCount, NearTie.NearTieCount, NearTie.NearTieMismatchCount,
         NearTie.MismatchGaps, NearTie.IsMinimum;
    var positions, sealed := streams[slot], s.perStream[slot];
    assert NearTie.DescribesStream(positions, envelope, slot, sealed);
    SealCountsPositions(positions, envelope);
  }

  /** The least gap of a stream is that of a missed position, no missed one has a smaller, and the median is no less. */
  lemma LeastGapIsMissed(positions: seq<NearTie.Position>, envelope: real, slot: nat, sealed: NearTie.StreamStats)
    requires NearTie.DescribesStream(positions, envelope, slot, sealed)
    ensures sealed.minGap.None? <==> Missed(positions) == {}
    ensures sealed.medianGap.None? <==> Missed(positions) == {}
    ensures sealed.minGap.Some? ==>
              && (forall k :: k in Missed(positions) ==> sealed.minGap.value <= positions[k].committedGap)
              && (exists k :: k in Missed(positions) && sealed.minGap.value == positions[k].committedGap)
              && sealed.minGap.value <= sealed.medianGap.value
  {
    hide MedianOf, Missed, NearTie.DescribesStream, NearTie.MismatchGaps;
    var gaps := NearTie.MismatchGaps(positions);
    GapsDescribed(positions, envelope, slot, sealed);
    GapsOfNone(positions, envelope);
    if gaps != [] {
      var least := sealed.minGap.value;
      GapsAreOfMissed(positions, least);
      forall k | k in Missed(positions) ensures k < |positions| && least <= positions[k].committedGap {
        MissedIsIn(positions, k);
        GapsAreOfMissed(positions, positions[k].committedGap);
      }
      var greatest := Greatest(gaps);
      MedianWithinBounds(gaps, least, greatest);
    }
  }

  lemma MissedIsIn(positions: seq<NearTie.Position>, k: nat)
    requires k in Missed(positions)
    ensures k < |positions|
  {
  }

  lemma GapsDescribed(positions: seq<NearTie.Position>, envelope: real, slot: nat, sealed: NearTie.StreamStats)
    requires NearTie.DescribesStream(positions, envelope, slot, sealed)
    ensures var gaps := NearTie.MismatchGaps(positions);
            NearTie.IsMinimum(gaps, sealed.minGap) && sealed.medianGap == MedianOf(gaps)
  {
    hide MedianOf, NearTie.IsMinimum, NearTie.MismatchGaps;
  }

  lemma GapsOfNone(positions: seq<NearTie.Position>, envelope: real)
    ensures NearTie.MismatchGaps(positions) == [] <==> Missed(positions) == {}
  {
    hide Missed, NearTie.MismatchGaps;
    SealCountsPositions(positions, envelope);
    NearTie.CountsNest(positions, envelope);
  }

  lemma {:induction false} Greatest(values: seq<real>) returns (m: real)
    ensures forall i :: 0 <= i < |values| ==> values[i] <= m
  {
    m := 0.0;
    if values != [] {
      m := Greatest(values[1..]);
      m := if m < values[0] then values[0] else m;
    }
  }
}
