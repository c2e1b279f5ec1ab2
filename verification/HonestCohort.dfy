/**
 A closed cohort engine modelled as rounds: every row walks, the cohort commits the minimum walk
 capped by the remaining budget, and streams only ever leave. Its response is what the cohort
 verifier is for (bench-core, free_run.rs).
 */
module HonestCohort {
  import opened Wrappers
  import opened Sums
  import opened FreeRun
  import opened CohortMetrics

  /** `walk(round, slot)` is how far a row would walk; `active(round)` is how many streams still run. */
  datatype Engine = Engine(width: u32, walk: (nat, nat) -> u32, active: nat -> u32)

  /** Rows always make progress, some stream is active, and streams never rejoin. */
  ghost predicate Honest(e: Engine) {
    && 1 <= e.width
    && (forall round: nat, slot: nat {:trigger e.walk(round, slot)} :: slot < e.width ==> 1 <= e.walk(round, slot))
    && (forall round: nat {:trigger e.active(round)} :: 1 <= e.active(round) <= e.width)
    && (forall r: nat, s: nat {:trigger e.active(r), e.active(s)} :: r <= s ==> e.active(s) <= e.active(r))
  }

  /** The shortest of the first `slots` walks in a round. */
  ghost function MinWalk(e: Engine, round: nat, slots: nat): (m: u32)
    requires Honest(e) && 1 <= slots <= e.width
    ensures 1 <= m
    ensures forall slot: nat :: slot < slots ==> m <= e.walk(round, slot)
    ensures exists slot: nat :: slot < slots && e.walk(round, slot) == m
  {
    var last := e.walk(round, slots - 1);
    if slots == 1 then last
    else
      var rest := MinWalk(e, round, slots - 1);
      if last <= rest then last else rest
  }

  /** The width committed in a round: the minimum walk, capped by the remaining budget. */
  ghost function Committed(e: Engine, round: nat, remaining: u32): (c: u32)
    requires Honest(e) && 1 <= remaining
    ensures 1 <= c <= remaining
    ensures forall slot: nat :: slot < e.width ==> c <= e.walk(round, slot)
    ensures c < remaining ==> exists slot: nat :: slot < e.width && c == e.walk(round, slot)
  {
    Min(MinWalk(e, round, e.width), remaining)
  }

  /** The widths committed from `round` on with `remaining` tokens still to commit per stream. */
  ghost function Commits(e: Engine, round: nat, remaining: u32): (acc: seq<u32>)
    requires Honest(e)
    ensures Sum(acc) == remaining && |acc| <= remaining
    decreases remaining
  {
    if remaining == 0 then []
    else
      var c := Committed(e, round, remaining);
      [c] + Commits(e, round + 1, remaining - c)
  }

  /** A width never exceeds a row's walk in that round, and is at least one. */
  ghost predicate BelowWalks(e: Engine, round: nat, c: u32) {
    1 <= c && forall slot: nat :: slot < e.width ==> c <= e.walk(round, slot)
  }

  /** Some row's whole walk was committed in that round. */
  ghost predicate WholeWalk(e: Engine, round: nat, c: u32) {
    exists slot: nat :: slot < e.width && c == e.walk(round, slot)
  }

  /** The first round's width, and the widths of the rounds after it. */
  lemma CommitsUnfold(e: Engine, round: nat, remaining: u32) returns (c: u32, rest: seq<u32>)
    requires Honest(e) && Commits(e, round, remaining) != []
    ensures 1 <= c <= remaining && rest == Commits(e, round + 1, remaining - c)
    ensures Commits(e, round, remaining) == [c] + rest
    ensures BelowWalks(e, round, c) && (rest != [] ==> WholeWalk(e, round, c))
  {
    hide MinWalk;
    c := Committed(e, round, remaining);
    rest := Commits(e, round + 1, remaining - c);
    assert rest != [] ==> c < remaining;
  }

  /** No committed width exceeds a row's walk, and every round but the last commits some row's
      whole walk: only the last one can be cut short by the budget. */
  lemma {:induction false} CommitsFollowWalks(e: Engine, round: nat, remaining: u32, k: nat)
    requires Honest(e) && k < |Commits(e, round, remaining)|
    ensures BelowWalks(e, round + k, Commits(e, round, remaining)[k])
    ensures k + 1 < |Commits(e, round, remaining)| ==> WholeWalk(e, round + k, Commits(e, round, remaining)[k])
    decreases k
  {
    hide Honest, Committed, BelowWalks, WholeWalk, Commits;
    var c, rest := CommitsUnfold(e, round, remaining);
    assert k > 0 ==> ([c] + rest)[k] == rest[k - 1];
    if k > 0 {
      CommitsFollowWalks(e, round + 1, remaining - c, k - 1);
      assert (round + 1) + (k - 1) == round + k;
    }
  }

  /** What the engine reports for n tokens per stream. */
  ghost function Respond(e: Engine, n: u32, drafted: u64, accepted: u64): CohortFreeRunResponse
    requires Honest(e)
  {
    var acc := Commits(e, 0, n);
    ProductFits(e.width, n);
    CohortFreeRunResponse(
      e.width,
      seq(e.width, slot => n),
      acc,
      seq(e.width, slot requires 0 <= slot => seq(|acc|, round requires 0 <= round => e.walk(round, slot))),
      seq(|acc|, round requires 0 <= round => e.active(round)),
      |acc|,
      drafted,
      accepted,
      e.width * n,
      map[])
  }

  /** The parts of the response the cohort verifier looks at. */
  lemma ResponseShape(e: Engine, n: u32, drafted: u64, accepted: u64)
    requires Honest(e)
    ensures var resp := Respond(e, n, drafted, accepted);
            && resp.batchSize == e.width && resp.acceptanceLengths == Commits(e, 0, n)
            && |resp.naturalAcceptedByStream| == e.width
            && |resp.activeStreamsByRound| == |Commits(e, 0, n)|
            && (forall round: nat :: round < |resp.activeStreamsByRound|
                                     ==> resp.activeStreamsByRound[round] == e.active(round))
            && (forall slot: nat :: slot < e.width ==> |resp.naturalAcceptedByStream[slot]| == |Commits(e, 0, n)|)
            && (forall slot: nat, round: nat :: slot < e.width && round < |Commits(e, 0, n)|
                                                ==> resp.naturalAcceptedByStream[slot][round] == e.walk(round, slot))
  {
    hide Commits, Honest;
  }

  lemma HonestScalars(e: Engine, n: u32, drafted: u64, accepted: u64)
    requires Honest(e) && accepted <= drafted
    ensures CohortScalarsConsistent(Respond(e, n, drafted, accepted), n, |Commits(e, 0, n)| + 1)
  {
    hide Commits, Honest;
  }

  lemma HonestRectangle(e: Engine, n: u32, drafted: u64, accepted: u64)
    requires Honest(e)
    ensures NaturalRectangle(Respond(e, n, drafted, accepted))
  {
    hide Commits, Honest, Respond;
    ResponseShape(e, n, drafted, accepted);
    var resp := Respond(e, n, drafted, accepted);
    forall slot | 0 <= slot < e.width ensures NaturalRowOk(resp, slot) {
      forall round | 0 <= round < |resp.acceptanceLengths|
        ensures resp.acceptanceLengths[round] <= resp.naturalAcceptedByStream[slot][round]
      {
        CommitsFollowWalks(e, 0, n, round);
        assert BelowWalks(e, round, resp.acceptanceLengths[round]);
      }
    }
  }

  lemma HonestTail(e: Engine, n: u32, drafted: u64, accepted: u64)
    requires Honest(e)
    ensures ActiveTail(Respond(e, n, drafted, accepted))
  {
    hide Commits, Respond;
    ResponseShape(e, n, drafted, accepted);
  }

  /** Every honest run terminates in a response the cohort verifier accepts, with the forward
      counter at R+1. */
  lemma HonestCohortAccepted(e: Engine, n: u32, drafted: u64, accepted: u64)
    requires Honest(e) && accepted <= drafted
    ensures CohortConsistent(Respond(e, n, drafted, accepted), n, |Commits(e, 0, n)| + 1)
  {
    hide Commits, Honest, Respond, CohortScalarsConsistent, NaturalRectangle, ActiveTail;
    HonestScalars(e, n, drafted, accepted);
    HonestRectangle(e, n, drafted, accepted);
    HonestTail(e, n, drafted, accepted);
  }

  /** A round that committed some row's whole walk was not cut short by the budget. */
  lemma WholeWalkNotTruncated(e: Engine, n: u32, drafted: u64, accepted: u64, round: nat)
    requires Honest(e)
    requires round < |Commits(e, 0, n)| && WholeWalk(e, round, Commits(e, 0, n)[round])
    ensures !BudgetTruncated(CohortAuditOf(Respond(e, n, drafted, accepted), n), round)
  {
    hide Commits, Honest, Respond;
    ResponseShape(e, n, drafted, accepted);
    var audit := CohortAuditOf(Respond(e, n, drafted, accepted), n);
    var slot: nat :| slot < e.width && Commits(e, 0, n)[round] == e.walk(round, slot);
    assert audit.naturalAcceptedByStream[slot][round] == e.walk(round, slot);
  }

  lemma TruncatedIsLast(e: Engine, n: u32, drafted: u64, accepted: u64, round: nat)
    requires Honest(e) && BudgetTruncated(CohortAuditOf(Respond(e, n, drafted, accepted), n), round)
    ensures round + 1 == |Commits(e, 0, n)|
  {
    hide Commits, Honest, Respond, WholeWalk, BelowWalks;
    ResponseShape(e, n, drafted, accepted);
    CommitsFollowWalks(e, 0, n, round);
    if round + 1 < |Commits(e, 0, n)| {
      WholeWalkNotTruncated(e, n, drafted, accepted, round);
    }
  }

  /** An honest run has at most one budget-truncated round, and it is the last. */
  lemma OnlyLastRoundTruncated(e: Engine, n: u32, drafted: u64, accepted: u64)
    requires Honest(e)
    ensures var audit := CohortAuditOf(Respond(e, n, drafted, accepted), n);
            && (forall round: nat :: BudgetTruncated(audit, round) ==> round + 1 == Rounds(audit))
            && BudgetTruncatedRoundCount(audit) <= 1
  {
    hide Commits, Honest, Respond, BudgetTruncated;
    ResponseShape(e, n, drafted, accepted);
    var audit := CohortAuditOf(Respond(e, n, drafted, accepted), n);
    forall round: nat | BudgetTruncated(audit, round) ensures round + 1 == Rounds(audit) {
      TruncatedIsLast(e, n, drafted, accepted, round);
    }
    SubsetSize(BudgetTruncatedRounds(audit), {Rounds(audit) - 1});
  }
}
