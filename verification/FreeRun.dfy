/**
 The consistency checks on a free-run decode response, single-stream and cohort, and the audit view
 they return (bench-core, free_run.rs).
 */
module FreeRun {
  import opened Wrappers
  import opened Sums

  datatype FreeRunResponse = FreeRunResponse(
    tokensLen: nat,
    acceptanceLengths: seq<u32>,
    draftedTotal: u64,
    acceptedTotal: u64,
    committedTotal: u64)

  datatype CohortFreeRunResponse = CohortFreeRunResponse(
    batchSize: u32,
    tokensLenByStream: seq<nat>,
    acceptanceLengths: seq<u32>,
    naturalAcceptedByStream: seq<seq<u32>>,
    activeStreamsByRound: seq<u32>,
    rounds: u32,
    draftedTotal: u64,
    acceptedTotal: u64,
    committedTotal: u64,
    depthClampReasons: map<string, u32>)

  datatype FreeRunAudit = FreeRunAudit(
    acceptanceLengths: seq<u32>,
    draftedTotal: u64,
    acceptedTotal: u64,
    verifiedTokenCount: nat)

  datatype CohortFreeRunAudit = CohortFreeRunAudit(
    base: FreeRunAudit,
    batchSize: u32,
    cohortCommittedTotal: nat,
    naturalAcceptedByStream: seq<seq<u32>>,
    activeStreamsByRound: seq<u32>,
    depthClampReasons: map<string, u32>)

  datatype ConsistencyError =
    | TokenCount(expected: nat, got: nat)
    | CommittedTotal(n: u32, committedTotal: u64)
    | AcceptanceSum(n: u32, sum: nat)
    | RoundCounter(rounds: nat, completedWork: int)
    | DraftedLessThanAccepted(drafted: u64, accepted: u64)
    | CohortWidth(batchSize: u32, got: nat)
    | CohortStreamTokenCount(slot: nat, expected: nat, got: nat)
    | CohortCommittedTotal(expected: nat, committedTotal: u64)
    | CohortRoundsDisagree(reported: u32, acceptanceLengths: nat)
    | CohortNaturalWidth(batchSize: u32, got: nat)
    | CohortNaturalRoundCount(slot: nat, expected: nat, got: nat)
    | CohortNaturalBelowCommitted(round: nat, slot: nat, natural: u32, committed: u32)
    | CohortActiveStreamsLength(rounds: nat, got: nat)
    | CohortActiveStreamsOutOfRange(round: nat, active: u32, batchSize: u32)
    | CohortActiveStreamsIncreased(round: nat, previous: u32, active: u32)

  // ---- the declarative predicates ----------------------------------------

  /** The scalar equations both verifiers share. */
  predicate SharedConsistent(acceptanceLengths: seq<u32>, n: u32, drafted: u64, accepted: u64, completedWork: int) {
    accepted <= drafted && Sum(acceptanceLengths) == n && completedWork == |acceptanceLengths| + 1
  }

  /** What an acceptable single-stream response is. */
  predicate Consistent(resp: FreeRunResponse, n: u32, completedWork: int) {
    && resp.tokensLen == n
    && resp.committedTotal == n
    && SharedConsistent(resp.acceptanceLengths, n, resp.draftedTotal, resp.acceptedTotal, completedWork)
  }

  /** Every stream committed exactly n tokens, and there are batchSize streams. */
  predicate Rectangle(resp: CohortFreeRunResponse, n: u32) {
    && |resp.tokensLenByStream| == resp.batchSize
    && forall slot :: 0 <= slot < resp.batchSize ==> resp.tokensLenByStream[slot] == n
  }

  /** Slot's natural walk covers every round and never falls below the committed width. */
  predicate NaturalRowOk(resp: CohortFreeRunResponse, slot: nat)
    requires slot < |resp.naturalAcceptedByStream|
  {
    var row := resp.naturalAcceptedByStream[slot];
    && |row| == |resp.acceptanceLengths|
    && forall round :: 0 <= round < |row| ==> resp.acceptanceLengths[round] <= row[round]
  }

  predicate NaturalRectangle(resp: CohortFreeRunResponse) {
    && |resp.naturalAcceptedByStream| == resp.batchSize
    && forall slot :: 0 <= slot < resp.batchSize ==> NaturalRowOk(resp, slot)
  }

  /** The first `upto` active counts stay within 1..=B and never rise. */
  predicate ActiveTailUpTo(resp: CohortFreeRunResponse, upto: nat)
    requires upto <= |resp.activeStreamsByRound|
  {
    var active := resp.activeStreamsByRound;
    && (forall round :: 0 <= round < upto ==> 1 <= active[round] <= resp.batchSize)
    && (forall r, s :: 0 <= r < s < upto ==> active[s] <= active[r])
  }

  predicate ActiveTail(resp: CohortFreeRunResponse) {
    && |resp.activeStreamsByRound| == |resp.acceptanceLengths|
    && ActiveTailUpTo(resp, |resp.activeStreamsByRound|)
  }

  /** The scalar half of cohort consistency: the rectangle, the cohort sum, the shared equations. */
  predicate CohortScalarsConsistent(resp: CohortFreeRunResponse, n: u32, completedWork: int) {
    && Rectangle(resp, n)
    && resp.committedTotal == resp.batchSize * n
    && SharedConsistent(resp.acceptanceLengths, n, resp.draftedTotal, resp.acceptedTotal, completedWork)
    && resp.rounds == |resp.acceptanceLengths|
  }

  /** What an acceptable cohort response is. */
  predicate CohortConsistent(resp: CohortFreeRunResponse, n: u32, completedWork: int) {
    && CohortScalarsConsistent(resp, n, completedWork)
    && NaturalRectangle(resp)
    && ActiveTail(resp)
  }

  /** The error is the first of the shared faults, in checking order, with its true witnesses. */
  predicate SharedFault(acceptanceLengths: seq<u32>, n: u32, drafted: u64, accepted: u64, completedWork: int,
                        e: ConsistencyError) {
    match e
    case DraftedLessThanAccepted(d, a) => d == drafted && a == accepted && d < a
    case AcceptanceSum(m, sum) => accepted <= drafted && m == n && sum == Sum(acceptanceLengths) && sum != n
    case RoundCounter(rounds, work) =>
      && accepted <= drafted && Sum(acceptanceLengths) == n
      && rounds == |acceptanceLengths| && work == completedWork && work != rounds + 1
    case _ => false
  }

  /** The error is the first fault of a single-stream response, in checking order. */
  predicate FirstFault(resp: FreeRunResponse, n: u32, completedWork: int, e: ConsistencyError) {
    match e
    case TokenCount(expected, got) => expected == n && got == resp.tokensLen && got != n
    case CommittedTotal(m, total) => resp.tokensLen == n && m == n && total == resp.committedTotal && total != n
    case _ =>
      && resp.tokensLen == n && resp.committedTotal == n
      && SharedFault(resp.acceptanceLengths, n, resp.draftedTotal, resp.acceptedTotal, completedWork, e)
  }

  /** Everything checked before the natural rows at `slot` holds. */
  predicate NaturalRowsBefore(resp: CohortFreeRunResponse, n: u32, completedWork: int, slot: nat) {
    && CohortScalarsConsistent(resp, n, completedWork)
    && |resp.naturalAcceptedByStream| == resp.batchSize
    && slot < resp.batchSize
    && forall s :: 0 <= s < slot ==> NaturalRowOk(resp, s)
  }

  /** Everything checked before the active count at `round` holds. */
  predicate ActiveBefore(resp: CohortFreeRunResponse, n: u32, completedWork: int, round: nat) {
    && CohortScalarsConsistent(resp, n, completedWork) && NaturalRectangle(resp)
    && |resp.activeStreamsByRound| == |resp.acceptanceLengths|
    && round < |resp.activeStreamsByRound|
    && ActiveTailUpTo(resp, round)
  }

  /** The error is the first fault of a cohort response, in checking order, with its true witnesses. */
  predicate CohortFirstFault(resp: CohortFreeRunResponse, n: u32, completedWork: int, e: ConsistencyError) {
    var b := resp.batchSize;
    match e
    case CohortWidth(batch, got) => batch == b && got == |resp.tokensLenByStream| && got != b
    case CohortStreamTokenCount(slot, expected, got) =>
      && |resp.tokensLenByStream| == b && slot < b && expected == n
      && got == resp.tokensLenByStream[slot] && got != n
      && (forall s :: 0 <= s < slot ==> resp.tokensLenByStream[s] == n)
    case CohortCommittedTotal(expected, total) =>
      Rectangle(resp, n) && expected == b * n && total == resp.committedTotal && total != expected
    case CohortRoundsDisagree(rounds, len) =>
      && Rectangle(resp, n) && resp.committedTotal == b * n
      && SharedConsistent(resp.acceptanceLengths, n, resp.draftedTotal, resp.acceptedTotal, completedWork)
      && rounds == resp.rounds && len == |resp.acceptanceLengths| && rounds != len
    case CohortNaturalWidth(batch, got) =>
      && CohortScalarsConsistent(resp, n, completedWork)
      && batch == b && got == |resp.naturalAcceptedByStream| && got != b
    case CohortNaturalRoundCount(slot, expected, got) =>
      && NaturalRowsBefore(resp, n, completedWork, slot)
      && expected == |resp.acceptanceLengths| && got == |resp.naturalAcceptedByStream[slot]| && got != expected
    case CohortNaturalBelowCommitted(round, slot, natural, committed) =>
      && NaturalRowsBefore(resp, n, completedWork, slot)
      && var row := resp.naturalAcceptedByStream[slot];
      && |row| == |resp.acceptanceLengths| && round < |row|
      && natural == row[round] && committed == resp.acceptanceLengths[round] && natural < committed
      && (forall r :: 0 <= r < round ==> resp.acceptanceLengths[r] <= row[r])
    case CohortActiveStreamsLength(rounds, got) =>
      && CohortScalarsConsistent(resp, n, completedWork) && NaturalRectangle(resp)
      && rounds == |resp.acceptanceLengths| && got == |resp.activeStreamsByRound| && got != rounds
    case CohortActiveStreamsOutOfRange(round, active, batch) =>
      && ActiveBefore(resp, n, completedWork, round)
      && batch == b && active == resp.activeStreamsByRound[round] && !(1 <= active <= b)
    case CohortActiveStreamsIncreased(round, previous, active) =>
      && ActiveBefore(resp, n, completedWork, round) && 0 < round
      && previous == resp.activeStreamsByRound[round - 1] && active == resp.activeStreamsByRound[round]
      && 1 <= active <= b && previous < active
    case _ =>
      && Rectangle(resp, n) && resp.committedTotal == b * n
      && SharedFault(resp.acceptanceLengths, n, resp.draftedTotal, resp.acceptedTotal, completedWork, e)
  }

  // ---- the verifiers ------------------------------------------------------

  function CheckSharedInvariants(acceptanceLengths: seq<u32>, n: u32, drafted: u64, accepted: u64, completedWork: int)
    : (r: Result<nat, ConsistencyError>)
    ensures r.Ok? <==> SharedConsistent(acceptanceLengths, n, drafted, accepted, completedWork)
    ensures r.Ok? ==> r.value == |acceptanceLengths|
    ensures r.Err? ==> SharedFault(acceptanceLengths, n, drafted, accepted, completedWork, r.error)
  {
    var sum := Sum(acceptanceLengths);
    var rounds := |acceptanceLengths|;
    if drafted < accepted then Err(DraftedLessThanAccepted(drafted, accepted))
    else if sum != n then Err(AcceptanceSum(n, sum))
    else if completedWork != rounds + 1 then Err(RoundCounter(rounds, completedWork))
    else Ok(rounds)
  }

  function AuditOf(resp: FreeRunResponse, n: u32): FreeRunAudit {
    FreeRunAudit(resp.acceptanceLengths, resp.draftedTotal, resp.acceptedTotal, n)
  }

  function VerifyConsistency(resp: FreeRunResponse, n: u32, completedWork: int)
    : (r: Result<FreeRunAudit, ConsistencyError>)
    ensures r.Ok? <==> Consistent(resp, n, completedWork)
    ensures r.Ok? ==> r.value == AuditOf(resp, n)
    ensures r.Err? ==> FirstFault(resp, n, completedWork, r.error)
  {
    if resp.tokensLen != n then Err(TokenCount(n, resp.tokensLen))
    else if resp.committedTotal != n then Err(CommittedTotal(n, resp.committedTotal))
    else
      match CheckSharedInvariants(resp.acceptanceLengths, n, resp.draftedTotal, resp.acceptedTotal, completedWork)
      case Err(e) => Err(e)
      case Ok(_) => Ok(AuditOf(resp, n))
  }

  function CohortAuditOf(resp: CohortFreeRunResponse, n: u32): CohortFreeRunAudit {
    CohortFreeRunAudit(
      FreeRunAudit(resp.acceptanceLengths, resp.draftedTotal, resp.acceptedTotal, n),
      resp.batchSize, resp.batchSize * n, resp.naturalAcceptedByStream, resp.activeStreamsByRound,
      resp.depthClampReasons)
  }

  /** The token-count loop: the first stream not exactly n tokens long, if any. */
  method CheckStreamLengths(resp: CohortFreeRunResponse, n: u32) returns (e: Option<ConsistencyError>)
    requires |resp.tokensLenByStream| == resp.batchSize
    ensures e.None? <==> Rectangle(resp, n)
    ensures e.Some? ==> e.value.CohortStreamTokenCount? && forall work :: CohortFirstFault(resp, n, work, e.value)
  {
    for slot := 0 to |resp.tokensLenByStream|
      invariant forall s :: 0 <= s < slot ==> resp.tokensLenByStream[s] == n
    {
      if resp.tokensLenByStream[slot] != n {
        return Some(CohortStreamTokenCount(slot, n, resp.tokensLenByStream[slot]));
      }
    }
    return None;
  }

  /** One slot's natural walk against the committed widths. */
  method CheckNaturalRow(resp: CohortFreeRunResponse, slot: nat) returns (e: Option<ConsistencyError>)
    requires slot < |resp.naturalAcceptedByStream| == resp.batchSize
    ensures e.None? <==> NaturalRowOk(resp, slot)
    ensures e.Some? ==>
      forall n, work :: NaturalRowsBefore(resp, n, work, slot) ==> CohortFirstFault(resp, n, work, e.value)
  {
    var natural := resp.naturalAcceptedByStream[slot];
    var rounds := |resp.acceptanceLengths|;
    if |natural| != rounds {
      return Some(CohortNaturalRoundCount(slot, rounds, |natural|));
    }
    for round := 0 to rounds
      invariant forall k :: 0 <= k < round ==> resp.acceptanceLengths[k] <= natural[k]
    {
      if natural[round] < resp.acceptanceLengths[round] {
        return Some(CohortNaturalBelowCommitted(round, slot, natural[round], resp.acceptanceLengths[round]));
      }
    }
    return None;
  }

  /** The closed-cohort tail: within 1..=B and never rising. */
  method CheckActiveTail(resp: CohortFreeRunResponse) returns (e: Option<ConsistencyError>)
    requires |resp.activeStreamsByRound| == |resp.acceptanceLengths|
    ensures e.None? <==> ActiveTail(resp)
    ensures e.Some? ==>
      forall n, work :: CohortScalarsConsistent(resp, n, work) && NaturalRectangle(resp)
                        ==> CohortFirstFault(resp, n, work, e.value)
  {
    var previous: Option<u32> := None;
    for round := 0 to |resp.activeStreamsByRound|
      invariant ActiveTailUpTo(resp, round)
      invariant previous == if round == 0 then None else Some(resp.activeStreamsByRound[round - 1])
    {
      var active := resp.activeStreamsByRound[round];
      if active == 0 || resp.batchSize < active {
        return Some(CohortActiveStreamsOutOfRange(round, active, resp.batchSize));
      }
      if previous.Some? && previous.value < active {
        return Some(CohortActiveStreamsIncreased(round, previous.value, active));
      }
      previous := Some(active);
    }
    return None;
  }

  method VerifyCohortConsistency(resp: CohortFreeRunResponse, n: u32, completedWork: int)
    returns (r: Result<CohortFreeRunAudit, ConsistencyError>)
    ensures r.Ok? <==> CohortConsistent(resp, n, completedWork)
    ensures r.Ok? ==> r.value == CohortAuditOf(resp, n)
    ensures r.Err? ==> CohortFirstFault(resp, n, completedWork, r.error)
  {
    var b := resp.batchSize;
    if |resp.tokensLenByStream| != b {
      return Err(CohortWidth(b, |resp.tokensLenByStream|));
    }
    var e := CheckStreamLengths(resp, n);
    if e.Some? {
      return Err(e.value);
    }
    var expectedCommitted := b * n;
    if resp.committedTotal != expectedCommitted {
      return Err(CohortCommittedTotal(expectedCommitted, resp.committedTotal));
    }
    var shared :=
      CheckSharedInvariants(resp.acceptanceLengths, n, resp.draftedTotal, resp.acceptedTotal, completedWork);
    if shared.Err? {
      return Err(shared.error);
    }
    var rounds := shared.value;
    if resp.rounds != rounds {
      return Err(CohortRoundsDisagree(resp.rounds, rounds));
    }
    if |resp.naturalAcceptedByStream| != b {
      return Err(CohortNaturalWidth(b, |resp.naturalAcceptedByStream|));
    }
    for slot := 0 to |resp.naturalAcceptedByStream|
      invariant forall s :: 0 <= s < slot ==> NaturalRowOk(resp, s)
    {
      e := CheckNaturalRow(resp, slot);
      if e.Some? {
        return Err(e.value);
      }
    }
    if |resp.activeStreamsByRound| != rounds {
      return Err(CohortActiveStreamsLength(rounds, |resp.activeStreamsByRound|));
    }
    e := CheckActiveTail(resp);
    if e.Some? {
      return Err(e.value);
    }
    return Ok(CohortAuditOf(resp, n));
  }

  // ---- what acceptance means ----------------------------------------------

  lemma SomeStreamActive(resp: CohortFreeRunResponse)
    requires ActiveTail(resp) && resp.activeStreamsByRound != []
    ensures 1 <= resp.batchSize
  {
    assert 1 <= resp.activeStreamsByRound[0] <= resp.batchSize;
  }

  /** An empty cohort is accepted only when nothing at all was asked for or run. */
  lemma EmptyCohort(resp: CohortFreeRunResponse, n: u32, completedWork: int)
    requires resp.batchSize == 0 && CohortConsistent(resp, n, completedWork)
    ensures n == 0 && resp.rounds == 0 && completedWork == 1
  {
    if resp.activeStreamsByRound != [] {
      SomeStreamActive(resp);
    }
  }

  /** A width-one cohort response carrying the same counts as a single-stream response. */
  predicate WidensTo(resp: FreeRunResponse, cohort: CohortFreeRunResponse) {
    && cohort.batchSize == 1
    && cohort.tokensLenByStream == [resp.tokensLen]
    && cohort.acceptanceLengths == resp.acceptanceLengths
    && cohort.draftedTotal == resp.draftedTotal
    && cohort.acceptedTotal == resp.acceptedTotal
    && cohort.committedTotal == resp.committedTotal
  }

  /** The cohort-only vectors of a width-one response are well shaped. */
  predicate WellShapedAudit(cohort: CohortFreeRunResponse) {
    && cohort.rounds == |cohort.acceptanceLengths|
    && NaturalRectangle(cohort)
    && ActiveTail(cohort)
  }

  /** At width one the cohort verifier is the single-stream verifier, and audits the same base. */
  lemma WidthOneAgrees(resp: FreeRunResponse, cohort: CohortFreeRunResponse, n: u32, completedWork: int)
    requires WidensTo(resp, cohort) && WellShapedAudit(cohort)
    ensures CohortConsistent(cohort, n, completedWork) <==> Consistent(resp, n, completedWork)
    ensures CohortAuditOf(cohort, n).base == AuditOf(resp, n)
  {
    assert cohort.tokensLenByStream[0] == resp.tokensLen;
  }

  /** With every acceptance length at least one, the round count cannot exceed the token count;
      without it, acceptance alone does not bound the rounds (see ZeroWidthRounds). */
  lemma RoundsAtMostTokens(resp: FreeRunResponse, n: u32, completedWork: int)
    requires Consistent(resp, n, completedWork)
    ensures (forall i :: 0 <= i < |resp.acceptanceLengths| ==> 1 <= resp.acceptanceLengths[i])
            ==> |resp.acceptanceLengths| <= n
  {
    if forall i :: 0 <= i < |resp.acceptanceLengths| ==> 1 <= resp.acceptanceLengths[i] {
      LengthAtMostSum(resp.acceptanceLengths);
    }
  }

  /** Accepted responses exist with any number of zero-width rounds. */
  lemma {:induction false} ZeroWidthRounds(extra: nat) returns (resp: FreeRunResponse)
    ensures |resp.acceptanceLengths| == extra + 1 && Consistent(resp, 1, extra + 2)
  {
    var zeros := seq(extra, i => 0);
    SumOfConstant(zeros, 0);
    SumConcat(zeros, [1]);
    assert Sum([1]) == 1;
    resp := FreeRunResponse(1, zeros + [1], 0, 0, 1);
  }
}
