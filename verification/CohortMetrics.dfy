/** The derived metrics of a verified cohort audit (bench-core, free_run.rs). */
module CohortMetrics {
  import opened Wrappers
  import opened Sums
  import opened FreeRun

  lemma {:induction false} SubsetSize<T>(a: set<T>, b: set<T>)
    requires a <= b
    ensures |a| <= |b|
  {
    if a != {} {
      var x :| x in a;
      SubsetSize(a - {x}, b - {x});
    }
  }

  /** At least one row walked further than the committed width that round. */
  predicate Throttled(audit: CohortFreeRunAudit, round: nat) {
    && round < |audit.base.acceptanceLengths|
    && exists slot :: 0 <= slot < |audit.naturalAcceptedByStream|
                      && round < |audit.naturalAcceptedByStream[slot]|
                      && audit.base.acceptanceLengths[round] < audit.naturalAcceptedByStream[slot][round]
  }

  /** Some row reached this round, and every row that did walked further than the committed width. */
  predicate BudgetTruncated(audit: CohortFreeRunAudit, round: nat) {
    && round < |audit.base.acceptanceLengths|
    && (exists slot :: 0 <= slot < |audit.naturalAcceptedByStream|
                       && round < |audit.naturalAcceptedByStream[slot]|)
    && forall slot :: 0 <= slot < |audit.naturalAcceptedByStream|
                      && round < |audit.naturalAcceptedByStream[slot]|
                      ==> audit.base.acceptanceLengths[round] < audit.naturalAcceptedByStream[slot][round]
  }

  function Rounds(audit: CohortFreeRunAudit): nat {
    |audit.base.acceptanceLengths|
  }

  function ThrottledRounds(audit: CohortFreeRunAudit): set<nat> {
    set round: nat | round < Rounds(audit) && Throttled(audit, round)
  }

  function BudgetTruncatedRounds(audit: CohortFreeRunAudit): set<nat> {
    set round: nat | round < Rounds(audit) && BudgetTruncated(audit, round)
  }

  function ThrottledRoundCount(audit: CohortFreeRunAudit): nat {
    |ThrottledRounds(audit)|
  }

  function BudgetTruncatedRoundCount(audit: CohortFreeRunAudit): nat {
    |BudgetTruncatedRounds(audit)|
  }

  function TotalSum(rows: seq<seq<nat>>): nat {
    if rows == [] then 0 else Sum(rows[0]) + TotalSum(rows[1..])
  }

  function TotalCount(rows: seq<seq<nat>>): nat {
    if rows == [] then 0 else |rows[0]| + TotalCount(rows[1..])
  }

  /** Mean natural walk over every (stream, round) cell; zero on an empty cohort. */
  function MeanNaturalAcceptedLength(audit: CohortFreeRunAudit): real {
    var count := TotalCount(audit.naturalAcceptedByStream);
    if count == 0 then 0.0 else TotalSum(audit.naturalAcceptedByStream) as real / count as real
  }

  /** Mean tokens committed per round; zero when there was no round. */
  function MeanAcceptanceLength(audit: FreeRunAudit): real {
    if audit.acceptanceLengths == [] then 0.0
    else Sum(audit.acceptanceLengths) as real / |audit.acceptanceLengths| as real
  }

  // ---- the inequalities ----------------------------------------------------

  lemma {:induction false} BoundedSetSize(s: set<nat>, n: nat)
    requires forall x :: x in s ==> x < n
    ensures |s| <= n
  {
    if n == 0 {
      assert s == {};
    } else {
      BoundedSetSize(s - {n - 1}, n - 1);
      assert s <= (s - {n - 1}) + {n - 1};
      SubsetSize(s, (s - {n - 1}) + {n - 1});
    }
  }

  /** Truncated rounds are throttled rounds, and throttled rounds are rounds. */
  lemma CountsNested(audit: CohortFreeRunAudit)
    ensures BudgetTruncatedRoundCount(audit) <= ThrottledRoundCount(audit) <= Rounds(audit)
  {
    SubsetSize(BudgetTruncatedRounds(audit), ThrottledRounds(audit));
    BoundedSetSize(ThrottledRounds(audit), Rounds(audit));
  }

  lemma {:induction false} RowsDominate(rows: seq<seq<nat>>, acc: seq<nat>)
    requires forall slot :: 0 <= slot < |rows| ==> |rows[slot]| == |acc|
    requires forall slot, i :: 0 <= slot < |rows| && 0 <= i < |acc| ==> acc[i] <= rows[slot][i]
    ensures |rows| * Sum(acc) <= TotalSum(rows)
    ensures TotalSum(rows) == |rows| * Sum(acc) <==> forall slot :: 0 <= slot < |rows| ==> rows[slot] == acc
    ensures TotalCount(rows) == |rows| * |acc|
  {
    if rows != [] {
      SumMonotone(acc, rows[0]);
      RowsDominate(rows[1..], acc);
      assert |rows| * Sum(acc) == Sum(acc) + (|rows| - 1) * Sum(acc);
      assert |rows| * |acc| == |acc| + (|rows| - 1) * |acc|;
      assert (forall slot :: 0 <= slot < |rows| ==> rows[slot] == acc)
        <==> rows[0] == acc && forall slot :: 0 <= slot < |rows[1..]| ==> rows[1..][slot] == acc by {
        assert forall slot :: 1 <= slot < |rows| ==> rows[slot] == rows[1..][slot - 1];
      }
    }
  }

  /** No throttled round means every row walked exactly the committed widths. */
  lemma UnthrottledRows(resp: CohortFreeRunResponse, n: u32, completedWork: int)
    requires CohortConsistent(resp, n, completedWork)
    ensures ThrottledRoundCount(CohortAuditOf(resp, n)) == 0
            <==> forall slot :: 0 <= slot < resp.batchSize
                                ==> resp.naturalAcceptedByStream[slot] == resp.acceptanceLengths
  {
    var audit := CohortAuditOf(resp, n);
    if ThrottledRoundCount(audit) == 0 {
      forall slot | 0 <= slot < resp.batchSize
        ensures resp.naturalAcceptedByStream[slot] == resp.acceptanceLengths
      {
        assert NaturalRowOk(resp, slot);
        forall round | 0 <= round < |resp.acceptanceLengths|
          ensures resp.naturalAcceptedByStream[slot][round] == resp.acceptanceLengths[round]
        {
          assert round !in ThrottledRounds(audit);
          assert !Throttled(audit, round);
          assert audit.naturalAcceptedByStream[slot][round] <= audit.base.acceptanceLengths[round];
        }
      }
    }
  }

  /** The natural walks of a verified cohort sum to at least B*N, exactly so when nothing throttled. */
  lemma NaturalWalksCoverCommitted(resp: CohortFreeRunResponse, n: u32, completedWork: int)
    requires CohortConsistent(resp, n, completedWork)
    ensures CohortAuditOf(resp, n).cohortCommittedTotal <= TotalSum(resp.naturalAcceptedByStream)
    ensures TotalSum(resp.naturalAcceptedByStream) == CohortAuditOf(resp, n).cohortCommittedTotal
            <==> ThrottledRoundCount(CohortAuditOf(resp, n)) == 0
    ensures TotalCount(resp.naturalAcceptedByStream) == resp.batchSize * resp.rounds
  {
    forall slot | 0 <= slot < resp.batchSize
      ensures NaturalRowOk(resp, slot)
      ensures |resp.naturalAcceptedByStream[slot]| == |resp.acceptanceLengths|
    {
      assert NaturalRowOk(resp, slot);
    }
    RowsDominate(resp.naturalAcceptedByStream, resp.acceptanceLengths);
    UnthrottledRows(resp, n, completedWork);
  }

  /** The mean natural walk is at least the mean acceptance length, with equality exactly when no
      round was throttled. */
  lemma MeanNaturalAtLeastMeanAcceptance(resp: CohortFreeRunResponse, n: u32, completedWork: int)
    requires CohortConsistent(resp, n, completedWork)
    requires 0 < resp.batchSize && 0 < resp.rounds
    ensures MeanAcceptanceLength(CohortAuditOf(resp, n).base) <= MeanNaturalAcceptedLength(CohortAuditOf(resp, n))
    ensures MeanNaturalAcceptedLength(CohortAuditOf(resp, n)) == MeanAcceptanceLength(CohortAuditOf(resp, n).base)
            <==> ThrottledRoundCount(CohortAuditOf(resp, n)) == 0
  {
    NaturalWalksCoverCommitted(resp, n, completedWork);
    ScaledRatio(resp.batchSize, n, resp.rounds, TotalSum(resp.naturalAcceptedByStream));
  }

  lemma ScaledRatio(b: nat, n: nat, r: nat, total: nat)
    requires 0 < b && 0 < r && b * n <= total
    ensures 0 < b * r
    ensures n as real / r as real <= total as real / (b * r) as real
    ensures total as real / (b * r) as real == n as real / r as real <==> total == b * n
  {
    CastProduct(b, n);
    CastProduct(b, r);
    SameRatio(b as real, n as real, r as real, (b * n) as real, (b * r) as real);
    DivideMonotone((b * n) as real, total as real, (b * r) as real);
  }

  lemma CastProduct(x: nat, y: nat)
    ensures (x * y) as real == x as real * y as real
  {
  }

  lemma SameRatio(b: real, n: real, r: real, bn: real, br: real)
    requires 0.0 < b && 0.0 < r && bn == b * n && br == b * r
    ensures 0.0 < br && n / r == bn / br
  {
    PositiveProduct(b, r);
    var q := n / r;
    TimesQuotient(n, r);
    Regroup(b, q, r);
    QuotientIs(bn, br, q);
  }

  lemma PositiveProduct(x: real, y: real)
    requires 0.0 < x && 0.0 < y
    ensures 0.0 < x * y
  {
  }

  lemma TimesQuotient(x: real, d: real)
    requires d != 0.0
    ensures (x / d) * d == x
  {
  }

  lemma Regroup(b: real, q: real, r: real)
    ensures b * (q * r) == q * (b * r)
  {
  }

  lemma QuotientIs(x: real, d: real, q: real)
    requires d != 0.0 && q * d == x
    ensures x / d == q
  {
  }

  lemma DivideMonotone(x: real, y: real, d: real)
    requires x <= y && 0.0 < d
    ensures x / d <= y / d
    ensures x / d == y / d <==> x == y
  {
    var p, q := x / d, y / d;
    TimesQuotient(x, d);
    TimesQuotient(y, d);
    if q < p {
      PositiveProduct(p - q, d);
      Difference(p, q, d);
    }
  }

  lemma Difference(p: real, q: real, d: real)
    ensures (p - q) * d == p * d - q * d
  {
  }

  // ---- the means themselves ---------------------------------------------------------

  lemma Distributes(a: nat, b: nat, w: nat)
    ensures (a + b) * w == a * w + b * w
  {
  }

  lemma {:induction false} TotalOfConstant(rows: seq<seq<nat>>, w: nat)
    requires forall k, i :: 0 <= k < |rows| && 0 <= i < |rows[k]| ==> rows[k][i] == w
    ensures TotalSum(rows) == TotalCount(rows) * w
  {
    if rows != [] {
      SumOfConstant(rows[0], w);
      TotalOfConstant(rows[1..], w);
      var a, b := |rows[0]|, TotalCount(rows[1..]);
      Distributes(a, b, w);
      assert TotalCount(rows) == a + b;
    }
  }

  lemma {:induction false} CountOfEmpty(rows: seq<seq<nat>>)
    ensures TotalCount(rows) == 0 <==> forall row :: row in rows ==> row == []
  {
    if rows != [] {
      CountOfEmpty(rows[1..]);
      assert rows[0] in rows;
      assert forall row :: row in rows <==> row == rows[0] || row in rows[1..];
    }
  }

  lemma Divides(n: nat, w: nat)
    requires n != 0
    ensures (n * w) as real / n as real == w as real
  {
    assert (n * w) as real == n as real * w as real;
  }

  /** A cohort whose every walk is `w` has that mean; one without a walk has none, and its mean is zero. */
  lemma ConstantMeans(audit: CohortFreeRunAudit, w: nat)
    requires var rows := audit.naturalAcceptedByStream;
             forall k, i :: 0 <= k < |rows| && 0 <= i < |rows[k]| ==> rows[k][i] == w
    ensures MeanNaturalAcceptedLength(audit)
            == if exists row :: row in audit.naturalAcceptedByStream && row != [] then w as real else 0.0
  {
    var rows := audit.naturalAcceptedByStream;
    TotalOfConstant(rows, w);
    CountOfEmpty(rows);
    if TotalCount(rows) != 0 {
      Divides(TotalCount(rows), w);
    }
  }

  /** The same of the committed widths. */
  lemma ConstantWidths(audit: FreeRunAudit, w: nat)
    requires forall i :: 0 <= i < |audit.acceptanceLengths| ==> audit.acceptanceLengths[i] == w
    ensures MeanAcceptanceLength(audit) == if audit.acceptanceLengths != [] then w as real else 0.0
  {
    SumOfConstant(audit.acceptanceLengths, w);
    if audit.acceptanceLengths != [] {
      Divides(|audit.acceptanceLengths|, w);
    }
  }

  function WithWalk(audit: CohortFreeRunAudit, slot: nat, round: nat, walk: u32): CohortFreeRunAudit
    requires slot < |audit.naturalAcceptedByStream| && round < |audit.naturalAcceptedByStream[slot]|
  {
    var row: seq<u32> := audit.naturalAcceptedByStream[slot][round := walk];
    audit.(naturalAcceptedByStream := audit.naturalAcceptedByStream[slot := row])
  }

  /** One more walk past the committed width throttles its own round, and that round alone. */
  lemma OneLongWalk(audit: CohortFreeRunAudit, slot: nat, round: nat, walk: u32)
    requires forall row :: row in audit.naturalAcceptedByStream ==> row == audit.base.acceptanceLengths
    requires slot < |audit.naturalAcceptedByStream| && round < Rounds(audit)
    requires audit.base.acceptanceLengths[round] < walk
    ensures slot < |audit.naturalAcceptedByStream| && round < |audit.naturalAcceptedByStream[slot]|
    ensures var longer := WithWalk(audit, slot, round, walk);
            && ThrottledRounds(longer) == {round}
            && BudgetTruncatedRounds(longer) == if |audit.naturalAcceptedByStream| == 1 then {round} else {}
  {
    var rows := audit.naturalAcceptedByStream;
    assert forall s :: 0 <= s < |rows| ==> rows[s] in rows;
    assert rows[slot] in rows;
    var longer := WithWalk(audit, slot, round, walk);
    var walks := longer.naturalAcceptedByStream;
    assert walks[slot][round] == walk;
    forall s: nat, r: nat | s < |walks| && r < Rounds(audit)
      ensures r < |walks[s]| && walks[s][r] == if s == slot && r == round then walk else audit.base.acceptanceLengths[r]
    {
      assert rows[s] in rows;
    }
    assert forall r: nat :: r < Rounds(audit) && Throttled(longer, r) ==> r == round;
    assert Throttled(longer, round);
    assert ThrottledRounds(longer) == {round};
    if |rows| == 1 {
      assert BudgetTruncated(longer, round);
      assert BudgetTruncatedRounds(longer) == {round};
    } else {
      var other := if slot == 0 then 1 else 0;
      assert forall r: nat :: r < Rounds(audit) ==> walks[other][r] == audit.base.acceptanceLengths[r];
      assert BudgetTruncatedRounds(longer) == {};
    }
  }
}
