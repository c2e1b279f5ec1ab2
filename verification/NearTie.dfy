/**
 The near-tie seal: counts over the reference readouts, and its agreement with the tolerance gate
 (bench-core, near_tie.rs).
 */
module NearTie {
  import opened Wrappers
  import opened Floats
  import opened Sums
  import opened Median
  import CohortTolerance

  datatype Position = Position(committed: int, argmax: int, top2Gap: real, committedGap: real)

  datatype StreamStats = StreamStats(slot: nat, committed: nat, mismatches: nat, perThousand: real, nearTies: nat,
                                     nearTieMismatches: nat, otherMismatches: nat, minGap: Option<real>,
                                     medianGap: Option<real>)

  datatype Stats = Stats(perStream: seq<StreamStats>, committedTotal: nat, mismatchesTotal: nat, nearTiesTotal: nat,
                         nearTieMismatchesTotal: nat, otherMismatchesTotal: nat, budget: nat, maxPerThousand: real,
                         headroom: real)

  datatype NearTieError = NoStreams | UnusableEnvelope | EmptyStream(slot: nat)

  // ---- what is counted ----------------------------------------------------------------

  predicate IsMismatch(p: Position) { p.committed != p.argmax }

  /** A property of the reference alone, inclusive at the envelope. */
  predicate IsNearTie(p: Position, envelope: real) { p.top2Gap <= envelope }

  function MismatchCount(positions: seq<Position>): nat {
    if positions == [] then 0
    else MismatchCount(positions[..|positions| - 1]) + if IsMismatch(positions[|positions| - 1]) then 1 else 0
  }

  function NearTieCount(positions: seq<Position>, envelope: real): nat {
    if positions == [] then 0
    else
      NearTieCount(positions[..|positions| - 1], envelope)
      + if IsNearTie(positions[|positions| - 1], envelope) then 1 else 0
  }

  function NearTieMismatchCount(positions: seq<Position>, envelope: real): nat {
    if positions == [] then 0
    else
      var last := positions[|positions| - 1];
      NearTieMismatchCount(positions[..|positions| - 1], envelope)
      + if IsMismatch(last) && IsNearTie(last, envelope) then 1 else 0
  }

  /** The committed token's gaps at the mismatched positions, in order. */
  function MismatchGaps(positions: seq<Position>): seq<real> {
    if positions == [] then []
    else
      var last := positions[|positions| - 1];
      MismatchGaps(positions[..|positions| - 1]) + if IsMismatch(last) then [last.committedGap] else []
  }

  lemma {:induction false} CountsNest(positions: seq<Position>, envelope: real)
    ensures NearTieMismatchCount(positions, envelope) <= MismatchCount(positions) <= |positions|
    ensures NearTieMismatchCount(positions, envelope) <= NearTieCount(positions, envelope) <= |positions|
    ensures |MismatchGaps(positions)| == MismatchCount(positions)
  {
    if positions != [] {
      CountsNest(positions[..|positions| - 1], envelope);
    }
  }

  /** A wider envelope moves mismatches from unexplained to near-tie, and never the other way. */
  lemma {:induction false} WiderEnvelopeCountsMore(positions: seq<Position>, narrow: real, wide: real)
    requires narrow <= wide
    ensures NearTieCount(positions, narrow) <= NearTieCount(positions, wide)
    ensures NearTieMismatchCount(positions, narrow) <= NearTieMismatchCount(positions, wide)
  {
    if positions != [] {
      WiderEnvelopeCountsMore(positions[..|positions| - 1], narrow, wide);
    }
  }

  predicate IsMinimum(values: seq<real>, m: Option<real>) {
    match m
    case None => values == []
    case Some(x) => x in values && forall i :: 0 <= i < |values| ==> x <= values[i]
  }

  predicate DescribesStream(positions: seq<Position>, envelope: real, slot: nat, s: StreamStats) {
    && positions != []
    && s.slot == slot && s.committed == |positions|
    && s.mismatches == MismatchCount(positions)
    && s.perThousand == s.mismatches as real * 1000.0 / s.committed as real
    && s.nearTies == NearTieCount(positions, envelope)
    && s.nearTieMismatches == NearTieMismatchCount(positions, envelope)
    && s.nearTieMismatches + s.otherMismatches == s.mismatches
    && IsMinimum(MismatchGaps(positions), s.minGap)
    && s.medianGap == MedianOf(MismatchGaps(positions))
  }

  // ---- one stream -------------------------------------------------------------------------

  method MinimumOf(values: seq<real>) returns (m: Option<real>)
    ensures IsMinimum(values, m)
  {
    m := None;
    for i := 0 to |values|
      invariant IsMinimum(values[..i], m)
    {
      assert values[..i + 1] == values[..i] + [values[i]];
      if m.None? || !(m.value <= values[i]) {
        m := Some(values[i]);
      }
    }
    assert values[..|values|] == values;
  }

  /** What one more position adds to the tallies. */
  lemma OneMorePosition(positions: seq<Position>, envelope: real, i: nat)
    requires i < |positions|
    ensures var p, before, after := positions[i], positions[..i], positions[..i + 1];
            && MismatchCount(after) == MismatchCount(before) + (if IsMismatch(p) then 1 else 0)
            && NearTieCount(after, envelope) == NearTieCount(before, envelope) + (if IsNearTie(p, envelope) then 1 else 0)
            && NearTieMismatchCount(after, envelope)
               == NearTieMismatchCount(before, envelope) + (if IsMismatch(p) && IsNearTie(p, envelope) then 1 else 0)
            && MismatchGaps(after) == MismatchGaps(before) + if IsMismatch(p) then [p.committedGap] else []
  {
    assert positions[..i + 1][..i] == positions[..i];
  }

  method StreamNearTieStats(positions: seq<Position>, envelope: real, slot: nat) returns (s: StreamStats)
    requires positions != []
    ensures DescribesStream(positions, envelope, slot, s)
  {
    hide MedianOf;
    var mismatches: nat, nearTies: nat, nearTieMismatches: nat := 0, 0, 0;
    var gaps: seq<real> := [];
    for i := 0 to |positions|
      invariant mismatches == MismatchCount(positions[..i])
      invariant nearTies == NearTieCount(positions[..i], envelope)
      invariant nearTieMismatches == NearTieMismatchCount(positions[..i], envelope)
      invariant gaps == MismatchGaps(positions[..i])
    {
      OneMorePosition(positions, envelope, i);
      var p := positions[i];
      var nearTie := p.top2Gap <= envelope;
      if nearTie {
        nearTies := nearTies + 1;
      }
      if p.committed != p.argmax {
        mismatches := mismatches + 1;
        if nearTie {
          nearTieMismatches := nearTieMismatches + 1;
        }
        gaps := gaps + [p.committedGap];
      }
    }
    assert positions[..|positions|] == positions;
    CountsNest(positions, envelope);
    var least := MinimumOf(gaps);
    s := StreamStats(slot, |positions|, mismatches, mismatches as real * 1000.0 / |positions| as real, nearTies,
                     nearTieMismatches, mismatches - nearTieMismatches, least, MedianOf(gaps));
  }

  // ---- the cohort ---------------------------------------------------------------------------

  datatype Column = Committed | Mismatches | NearTies | NearTieMismatches | OtherMismatches

  function Cell(s: StreamStats, column: Column): nat {
    match column
    case Committed => s.committed
    case Mismatches => s.mismatches
    case NearTies => s.nearTies
    case NearTieMismatches => s.nearTieMismatches
    case OtherMismatches => s.otherMismatches
  }

  function Total(stats: seq<StreamStats>, column: Column): nat {
    Sum(seq(|stats|, i requires 0 <= i < |stats| => Cell(stats[i], column)))
  }

  /** The worst stream's rate, and no less than zero. */
  function MaxRate(stats: seq<StreamStats>): real {
    if stats == [] then 0.0
    else
      var before, last := MaxRate(stats[..|stats| - 1]), stats[|stats| - 1].perThousand;
      if before < last then last else before
  }

  lemma {:induction false} MaxRateIsMaximum(stats: seq<StreamStats>)
    ensures 0.0 <= MaxRate(stats)
    ensures forall i :: 0 <= i < |stats| ==> stats[i].perThousand <= MaxRate(stats)
    ensures MaxRate(stats) == 0.0 || exists i :: 0 <= i < |stats| && stats[i].perThousand == MaxRate(stats)
  {
    if stats != [] {
      var before := stats[..|stats| - 1];
      MaxRateIsMaximum(before);
      if MaxRate(stats) != 0.0 && MaxRate(stats) != stats[|stats| - 1].perThousand {
        var i :| 0 <= i < |before| && before[i].perThousand == MaxRate(before);
        assert stats[i].perThousand == MaxRate(stats);
      }
    }
  }

  predicate UsableEnvelope(envelope: Float) {
    envelope.Finite? && 0.0 <= envelope.value
  }

  predicate Describes(streams: seq<seq<Position>>, envelope: real, budget: nat, s: Stats) {
    && |s.perStream| == |streams|
    && (forall k :: 0 <= k < |streams| ==> DescribesStream(streams[k], envelope, k, s.perStream[k]))
    && s.committedTotal == Total(s.perStream, Committed)
    && s.mismatchesTotal == Total(s.perStream, Mismatches)
    && s.nearTiesTotal == Total(s.perStream, NearTies)
    && s.nearTieMismatchesTotal == Total(s.perStream, NearTieMismatches)
    && s.otherMismatchesTotal == Total(s.perStream, OtherMismatches)
    && s.budget == budget && s.maxPerThousand == MaxRate(s.perStream)
    && s.headroom == budget as real - s.maxPerThousand
  }

  /** What a seal of these streams can be: exactly the usable inputs are described, and the first fault is reported. */
  predicate IsSealOutcome(streams: seq<seq<Position>>, envelope: Float, budget: nat, r: Result<Stats, NearTieError>) {
    match r
    case Ok(s) => streams != [] && UsableEnvelope(envelope) && Describes(streams, envelope.value, budget, s)
    case Err(NoStreams) => streams == []
    case Err(UnusableEnvelope) => streams != [] && !UsableEnvelope(envelope)
    case Err(EmptyStream(slot)) =>
      UsableEnvelope(envelope) && slot < |streams| && streams[slot] == [] && forall k :: 0 <= k < slot ==> streams[k] != []
  }

  method NearTieStats(streams: seq<seq<Position>>, envelope: Float, budget: nat)
    returns (r: Result<Stats, NearTieError>)
    ensures IsSealOutcome(streams, envelope, budget, r)
  {
    hide DescribesStream;
    if streams == [] {
      return Err(NoStreams);
    }
    if !envelope.Finite? || envelope.value < 0.0 {
      return Err(UnusableEnvelope);
    }
    var perStream: seq<StreamStats> := [];
    for slot := 0 to |streams|
      invariant |perStream| == slot
      invariant forall k :: 0 <= k < slot ==> streams[k] != []
      invariant forall k :: 0 <= k < slot ==> DescribesStream(streams[k], envelope.value, k, perStream[k])
    {
      if streams[slot] == [] {
        return Err(EmptyStream(slot));
      }
      var stats := StreamNearTieStats(streams[slot], envelope.value, slot);
      perStream := perStream + [stats];
    }
    var worst := MaxRate(perStream);
    return Ok(Stats(perStream, Total(perStream, Committed), Total(perStream, Mismatches),
                    Total(perStream, NearTies), Total(perStream, NearTieMismatches),
                    Total(perStream, OtherMismatches), budget, worst, budget as real - worst));
  }

  // ---- agreement with the gate ------------------------------------------------------------------

  function CommittedOf(positions: seq<Position>): seq<int> {
    seq(|positions|, i requires 0 <= i < |positions| => positions[i].committed)
  }

  function ArgmaxOf(positions: seq<Position>): seq<int> {
    seq(|positions|, i requires 0 <= i < |positions| => positions[i].argmax)
  }

  /** The seal recounts exactly the gate's numerator. */
  lemma {:induction false} SealCountsGateMismatches(positions: seq<Position>)
    ensures MismatchCount(positions) == CohortTolerance.Mismatches(CommittedOf(positions), ArgmaxOf(positions))
  {
    if positions != [] {
      var before := positions[..|positions| - 1];
      SealCountsGateMismatches(before);
      assert CommittedOf(positions)[..|before|] == CommittedOf(before);
      assert ArgmaxOf(positions)[..|before|] == ArgmaxOf(before);
    }
  }

  /** Cross-multiplying the rate: over budget as a real exactly when the gate's integer test fails. */
  lemma RateOverBudget(mismatches: nat, committed: nat, budget: nat)
    requires 0 < committed
    ensures budget as real < mismatches as real * 1000.0 / committed as real <==> budget * committed < mismatches * 1000
  {
    var rate, c := mismatches as real * 1000.0 / committed as real, committed as real;
    assert rate * c == mismatches as real * 1000.0;
    ScaleOrder(budget as real, rate, c);
    assert budget as real * c == (budget * committed) as real;
    assert mismatches as real * 1000.0 == (mismatches * 1000) as real;
  }

  lemma ScaleOrder(x: real, y: real, c: real)
    requires 0.0 < c
    ensures x < y <==> x * c < y * c
  {
    assert y * c - x * c == (y - x) * c;
  }

  /** The gate's own tally of one stream. */
  function GateCount(positions: seq<Position>, slot: nat): CohortTolerance.StreamCount {
    CohortTolerance.StreamCount(slot, CohortTolerance.Mismatches(CommittedOf(positions), ArgmaxOf(positions)),
                                |positions|)
  }

  lemma StreamAgreesWithGate(positions: seq<Position>, envelope: real, slot: nat, s: StreamStats, budget: nat)
    requires DescribesStream(positions, envelope, slot, s)
    ensures s.mismatches == GateCount(positions, slot).mismatches
    ensures budget as real < s.perThousand <==> CohortTolerance.Fails(GateCount(positions, slot), budget)
  {
    hide MismatchGaps, MedianOf, IsMinimum, NearTieCount, NearTieMismatchCount, MismatchCount;
    SealCountsGateMismatches(positions);
    RateOverBudget(s.mismatches, s.committed, budget);
  }

  /**
   On streams the gate can judge: the headroom is not negative exactly when the gate passes, and each slot's
   tally is the seal's.
   */
  lemma HeadroomDecidesGate(streams: seq<seq<Position>>, envelope: real, budget: nat, s: Stats,
                            counts: seq<CohortTolerance.StreamCount>, first: Option<CohortTolerance.StreamCount>)
    requires Describes(streams, envelope, budget, s) && |counts| == |streams|
    requires forall k :: 0 <= k < |streams| ==> counts[k] == GateCount(streams[k], k)
    requires CohortTolerance.IsFirstFailing(counts, budget, first)
    ensures forall k :: 0 <= k < |streams| ==> s.perStream[k].mismatches == counts[k].mismatches
    ensures 0.0 <= s.headroom <==> first.None?
  {
    hide DescribesStream, GateCount, CohortTolerance.Fails, MaxRate, Total;
    forall k | 0 <= k < |streams|
      ensures s.perStream[k].mismatches == counts[k].mismatches
      ensures budget as real < s.perStream[k].perThousand <==> CohortTolerance.Fails(counts[k], budget)
    {
      StreamAgreesWithGate(streams[k], envelope, k, s.perStream[k], budget);
    }
    MaxRateIsMaximum(s.perStream);
  }
}
