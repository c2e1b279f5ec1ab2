/**
 What the tolerance gate and the near-tie seal count, as sets of positions (bench-core, cohort_tolerance.rs and
 near_tie.rs).
 */
module ToleranceLaws {
  import opened Wrappers
  import opened Floats
  import opened Sums
  import opened NearTie
  import CohortTolerance
  import Median

  // ---- counting ------------------------------------------------------------------------

  /** The places where a stream differs from its reference. */
  function Differing(committed: seq<int>, reference: seq<int>): set<nat>
    requires |committed| == |reference|
  {
    set k: nat | k < |committed| && committed[k] != reference[k]
  }

  /** The tally is the number of places that differ. */
  lemma {:induction false} MismatchesAreDiffering(committed: seq<int>, reference: seq<int>)
    requires |committed| == |reference|
    ensures CohortTolerance.Mismatches(committed, reference) == |Differing(committed, reference)|
  {
    if committed != [] {
      var last := |committed| - 1;
      var before := Differing(committed[..last], reference[..last]);
      MismatchesAreDiffering(committed[..last], reference[..last]);
      assert last !in before;
      assert Differing(committed, reference) == if committed[last] != reference[last] then before + {last} else before;
    }
  }

  /** The positions whose committed token is not the reference's own. */
  function Missed(positions: seq<Position>): set<nat> {
    set k: nat | k < |positions| && positions[k].committed != positions[k].argmax
  }

  /** The positions whose two best reference logits lie within the envelope, the envelope included. */
  function Close(positions: seq<Position>, envelope: real): set<nat> {
    set k: nat | k < |positions| && positions[k].top2Gap <= envelope
  }

  lemma MissedOneMore(positions: seq<Position>)
    requires positions != []
    ensures var last, before := |positions| - 1, positions[..|positions| - 1];
            && last !in Missed(before)
            && Missed(positions) == if IsMismatch(positions[last]) then Missed(before) + {last} else Missed(before)
  {
  }

  lemma CloseOneMore(positions: seq<Position>, envelope: real)
    requires positions != []
    ensures var last, before := |positions| - 1, positions[..|positions| - 1];
            && last !in Close(before, envelope)
            && Close(positions, envelope)
               == if IsNearTie(positions[last], envelope) then Close(before, envelope) + {last} else Close(before, envelope)
  {
  }

  lemma BothOneMore(m: set<nat>, c: set<nat>, last: nat, missed: bool, close: bool)
    requires last !in m && last !in c
    ensures (if missed then m + {last} else m) * (if close then c + {last} else c)
            == if missed && close then m * c + {last} else m * c
    ensures last !in m * c
  {
  }

  /** The three tallies of a seal are the sizes of the two sets of positions and of what they share. */
  lemma {:induction false} SealCountsPositions(positions: seq<Position>, envelope: real)
    ensures MismatchCount(positions) == |Missed(positions)|
    ensures NearTieCount(positions, envelope) == |Close(positions, envelope)|
    ensures NearTieMismatchCount(positions, envelope) == |Missed(positions) * Close(positions, envelope)|
  {
    hide Missed, Close, IsMismatch, IsNearTie;
    if positions == [] {
      NothingCounted(envelope);
    } else {
      var last, before := |positions| - 1, positions[..|positions| - 1];
      SealCountsPositions(before, envelope);
      MissedOneMore(positions);
      CloseOneMore(positions, envelope);
      BothOneMore(Missed(before), Close(before, envelope), last, IsMismatch(positions[last]),
                  IsNearTie(positions[last], envelope));
    }
  }

  lemma NothingCounted(envelope: real)
    ensures Missed([]) == {} && Close([], envelope) == {} && Missed([]) * Close([], envelope) == {}
  {
  }

  /** The sealed gaps are those of the missed positions, in their order. */
  lemma {:induction false} GapsAreOfMissed(positions: seq<Position>, gap: real)
    ensures gap in MismatchGaps(positions) <==> exists k :: k in Missed(positions) && positions[k].committedGap == gap
  {
    if positions != [] {
      var last, before := |positions| - 1, positions[..|positions| - 1];
      GapsAreOfMissed(before, gap);
      assert Missed(positions) == if IsMismatch(positions[last]) then Missed(before) + {last} else Missed(before);
    }
  }

  // ---- the rate --------------------------------------------------------------------------

  lemma TimesThousand(m: nat, c: nat, t: nat)
    requires 0 < c
    ensures t * c < m * 1000 <==> t as real / 1000.0 < m as real / c as real
  {
    var share, rate, d := t as real / 1000.0, m as real / c as real, c as real;
    assert share * 1000.0 == t as real && rate * d == m as real;
    assert (t * c) as real == t as real * d && (m * 1000) as real == m as real * 1000.0;
    Cross(share, rate, d);
  }

  lemma Cross(share: real, rate: real, d: real)
    requires 0.0 < d
    ensures share < rate <==> (share * 1000.0) * d < (rate * d) * 1000.0
  {
    assert (rate * d) * 1000.0 - (share * 1000.0) * d == (rate - share) * (1000.0 * d);
    assert 0.0 < 1000.0 * d;
    if share < rate {
      assert 0.0 < (rate - share) * (1000.0 * d);
    } else {
      assert (rate - share) * (1000.0 * d) <= 0.0;
    }
  }

  /** A stream fails when more than the tolerated number in a thousand of its positions differ; exactly that many pass. */
  lemma FailsIsRate(committed: seq<int>, reference: seq<int>, slot: nat, tolerance: nat)
    requires |committed| == |reference| && committed != []
    ensures var count := CohortTolerance.StreamCount(slot, CohortTolerance.Mismatches(committed, reference), |committed|);
            CohortTolerance.Fails(count, tolerance)
            <==> tolerance as real / 1000.0 < |Differing(committed, reference)| as real / |committed| as real
  {
    MismatchesAreDiffering(committed, reference);
    TimesThousand(|Differing(committed, reference)|, |committed|, tolerance);
  }

  // ---- the sums of a seal -----------------------------------------------------------------

  function SumOver(s: seq<StreamStats>, of: StreamStats -> nat): nat {
    if s == [] then 0 else of(s[0]) + SumOver(s[1..], of)
  }

  lemma {:induction false} TotalIsSum(s: seq<StreamStats>, column: Column)
    ensures Total(s, column) == SumOver(s, (x: StreamStats) => Cell(x, column))
  {
    var cells := seq(|s|, i requires 0 <= i < |s| => Cell(s[i], column));
    if s != [] {
      TotalIsSum(s[1..], column);
      assert cells[1..] == seq(|s[1..]|, i requires 0 <= i < |s[1..]| => Cell(s[1..][i], column));
    }
  }

  lemma {:induction false} SameSum(s: seq<StreamStats>, of: StreamStats -> nat, of': StreamStats -> nat)
    requires forall x :: of(x) == of'(x)
    ensures SumOver(s, of) == SumOver(s, of')
  {
    if s != [] {
      SameSum(s[1..], of, of');
    }
  }

  lemma {:induction false} MismatchesSplit(s: seq<StreamStats>)
    requires forall k :: 0 <= k < |s| ==> s[k].nearTieMismatches + s[k].otherMismatches == s[k].mismatches
    ensures SumOver(s, (x: StreamStats) => x.nearTieMismatches) + SumOver(s, (x: StreamStats) => x.otherMismatches)
            == SumOver(s, (x: StreamStats) => x.mismatches)
  {
    if s != [] {
      MismatchesSplit(s[1..]);
    }
  }

  /** Every total of a seal is the sum of its own column, and the two kinds of mismatch make up all of them. */
  lemma TotalsAre(streams: seq<seq<Position>>, envelope: real, budget: nat, s: Stats)
    requires Describes(streams, envelope, budget, s)
    ensures s.committedTotal == SumOver(s.perStream, (x: StreamStats) => x.committed)
    ensures s.mismatchesTotal == SumOver(s.perStream, (x: StreamStats) => x.mismatches)
    ensures s.nearTiesTotal == SumOver(s.perStream, (x: StreamStats) => x.nearTies)
    ensures s.nearTieMismatchesTotal == SumOver(s.perStream, (x: StreamStats) => x.nearTieMismatches)
    ensures s.otherMismatchesTotal == SumOver(s.perStream, (x: StreamStats) => x.otherMismatches)
    ensures s.nearTieMismatchesTotal + s.otherMismatchesTotal == s.mismatchesTotal
  {
    hide Total, SumOver, MismatchCount, NearTieCount, NearTieMismatchCount, MismatchGaps, IsMinimum;
    var all := s.perStream;
    TotalIsSum(all, Committed);
    SameSum(all, (x: StreamStats) => Cell(x, Committed), (x: StreamStats) => x.committed);
    TotalIsSum(all, Mismatches);
    SameSum(all, (x: StreamStats) => Cell(x, Mismatches), (x: StreamStats) => x.mismatches);
    TotalIsSum(all, NearTies);
    SameSum(all, (x: StreamStats) => Cell(x, NearTies), (x: StreamStats) => x.nearTies);
    TotalIsSum(all, NearTieMismatches);
    SameSum(all, (x: StreamStats) => Cell(x, NearTieMismatches), (x: StreamStats) => x.nearTieMismatches);
    TotalIsSum(all, OtherMismatches);
    SameSum(all, (x: StreamStats) => Cell(x, OtherMismatches), (x: StreamStats) => x.otherMismatches);
    MismatchesSplit(all);
  }

  lemma RateOfStream(positions: seq<Position>, envelope: real, slot: nat, s: StreamStats)
    requires DescribesStream(positions, envelope, slot, s)
    ensures s.perThousand * |positions| as real == 1000.0 * |Missed(positions)| as real && 0.0 <= s.perThousand
  {
    hide DescribesStream, MismatchCount, Missed;
    SealCountsPositions(positions, envelope);
    CountedRate(positions, envelope, slot, s);
  }

  lemma CountedRate(positions: seq<Position>, envelope: real, slot: nat, s: StreamStats)
    requires DescribesStream(positions, envelope, slot, s)
    ensures s.perThousand * |positions| as real == 1000.0 * MismatchCount(positions) as real && 0.0 <= s.perThousand
  {
    hide DescribesStream, MismatchCount;
    DescribedRate(positions, envelope, slot, s);
    RateIs(s.perThousand, MismatchCount(positions), |positions|);
  }

  lemma DescribedRate(positions: seq<Position>, envelope: real, slot: nat, s: StreamStats)
    requires DescribesStream(positions, envelope, slot, s)
    ensures positions != [] && s.mismatches == MismatchCount(positions)
    ensures s.perThousand == MismatchCount(positions) as real * 1000.0 / |positions| as real
  {
  }

  /** The worst rate is one of the streams', no stream has a higher one, and the headroom is what is left of the budget. */
  lemma WorstIsAStreams(streams: seq<seq<Position>>, envelope: real, budget: nat, s: Stats)
    requires Describes(streams, envelope, budget, s) && streams != []
    ensures s.headroom + s.maxPerThousand == budget as real == s.budget as real
    ensures exists k :: 0 <= k < |streams| && s.perStream[k].perThousand == s.maxPerThousand
    ensures forall k :: 0 <= k < |streams| ==> s.perStream[k].perThousand <= s.maxPerThousand
    ensures forall k :: 0 <= k < |streams| ==>
              s.perStream[k].perThousand * |streams[k]| as real == 1000.0 * |Missed(streams[k])| as real
  {
    hide MaxRate, Total, DescribesStream, Missed;
    MaxRateIsMaximum(s.perStream);
    forall k | 0 <= k < |streams|
      ensures s.perStream[k].perThousand * |streams[k]| as real == 1000.0 * |Missed(streams[k])| as real
      ensures 0.0 <= s.perStream[k].perThousand
    {
      RateOfStream(streams[k], envelope, k, s.perStream[k]);
    }
    assert 0.0 <= s.perStream[0].perThousand <= s.maxPerThousand;
  }

  lemma RateIs(rate: real, m: nat, c: nat)
    requires 0 < c && rate == m as real * 1000.0 / c as real
    ensures rate * c as real == 1000.0 * m as real && 0.0 <= rate
  {
    assert rate * c as real == m as real * 1000.0;
    NotNegative(rate, c as real);
  }

  lemma NotNegative(q: real, d: real)
    requires 0.0 < d && 0.0 <= q * d
    ensures 0.0 <= q
  {
  }
}
