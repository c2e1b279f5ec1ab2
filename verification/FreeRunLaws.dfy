/**
 What an accepted free-run response pins down, and which fault is reported when there are several (bench-core,
 free_run.rs).
 */
module FreeRunLaws {
  import opened Wrappers
  import opened Sums
  import opened FreeRun

  // ---- the audit of an accepted response ------------------------------------------------

  /** What the single-stream audit says of its own numbers. */
  lemma AuditAddsUp(resp: FreeRunResponse, n: u32, completedWork: int)
    requires Consistent(resp, n, completedWork)
    ensures var audit := AuditOf(resp, n);
            && audit.acceptedTotal <= audit.draftedTotal
            && Sum(audit.acceptanceLengths) == audit.verifiedTokenCount == resp.tokensLen == resp.committedTotal
            && |audit.acceptanceLengths| == completedWork - 1
            && audit.draftedTotal + audit.acceptedTotal == resp.draftedTotal + resp.acceptedTotal
  {
  }

  /** What the cohort audit says of its own numbers: the committed total is the streams' own sum. */
  lemma CohortAuditAddsUp(resp: CohortFreeRunResponse, n: u32, completedWork: int)
    requires CohortConsistent(resp, n, completedWork)
    ensures var base := CohortAuditOf(resp, n).base;
            && base.acceptedTotal <= base.draftedTotal
            && base.draftedTotal + base.acceptedTotal == resp.draftedTotal + resp.acceptedTotal
            && Sum(base.acceptanceLengths) == base.verifiedTokenCount
            && |base.acceptanceLengths| == resp.rounds == completedWork - 1
    ensures var audit := CohortAuditOf(resp, n);
            && audit.cohortCommittedTotal == Sum(resp.tokensLenByStream)
            && audit.cohortCommittedTotal == resp.committedTotal
            && audit.batchSize == |resp.tokensLenByStream|
            && (forall slot :: 0 <= slot < audit.batchSize ==> resp.tokensLenByStream[slot] == audit.base.verifiedTokenCount)
            && audit.depthClampReasons == resp.depthClampReasons
  {
    SumOfConstant(resp.tokensLenByStream, n);
  }

  /** Its rows walk every round and nowhere below what was committed; its active counts never rise. */
  lemma CohortAuditShape(resp: CohortFreeRunResponse, n: u32, completedWork: int)
    requires CohortConsistent(resp, n, completedWork)
    ensures var audit := CohortAuditOf(resp, n);
            && |audit.naturalAcceptedByStream| == audit.batchSize && |audit.activeStreamsByRound| == resp.rounds
            && (forall slot :: 0 <= slot < audit.batchSize ==> |audit.naturalAcceptedByStream[slot]| == resp.rounds)
    ensures var audit := CohortAuditOf(resp, n);
            forall slot, round :: 0 <= slot < audit.batchSize && 0 <= round < resp.rounds ==>
              audit.base.acceptanceLengths[round] <= audit.naturalAcceptedByStream[slot][round]
    ensures var active := CohortAuditOf(resp, n).activeStreamsByRound;
            && (forall round :: 0 <= round < |active| ==> 1 <= active[round] <= resp.batchSize)
            && (forall r, s :: 0 <= r < s < |active| ==> active[s] <= active[r])
  {
    forall slot | 0 <= slot < resp.batchSize
      ensures NaturalRowOk(resp, slot) && |resp.naturalAcceptedByStream[slot]| == resp.rounds
    {
      assert NaturalRowOk(resp, slot);
    }
  }

  // ---- no count can change alone -----------------------------------------------------------

  /** From an accepted single-stream response, which one change keeps it accepted. */
  lemma OneChange(resp: FreeRunResponse, n: u32, completedWork: int, k: nat, m: u32, t: u64, w: int, lens: seq<u32>)
    requires Consistent(resp, n, completedWork)
    ensures Consistent(resp.(tokensLen := k), n, completedWork) <==> k == resp.tokensLen
    ensures Consistent(resp.(committedTotal := t), n, completedWork) <==> t == resp.committedTotal
    ensures Consistent(resp.(draftedTotal := t), n, completedWork) <==> resp.acceptedTotal <= t
    ensures Consistent(resp.(acceptedTotal := t), n, completedWork) <==> t <= resp.draftedTotal
    ensures Consistent(resp, m, completedWork) <==> m == n
    ensures Consistent(resp, n, w) <==> w == completedWork
    ensures Consistent(resp.(acceptanceLengths := lens), n, completedWork)
            <==> |lens| == |resp.acceptanceLengths| && Sum(lens) == Sum(resp.acceptanceLengths)
  {
  }

  /** The same of a cohort's scalars. */
  lemma OneCohortScalar(resp: CohortFreeRunResponse, n: u32, completedWork: int, b: u32, t: u64, w: int)
    requires CohortConsistent(resp, n, completedWork)
    ensures CohortConsistent(resp.(committedTotal := t), n, completedWork) <==> t == resp.committedTotal
    ensures CohortConsistent(resp.(draftedTotal := t), n, completedWork) <==> resp.acceptedTotal <= t
    ensures CohortConsistent(resp.(acceptedTotal := t), n, completedWork) <==> t <= resp.draftedTotal
    ensures CohortConsistent(resp.(rounds := b), n, completedWork) <==> b == resp.rounds
    ensures CohortConsistent(resp.(batchSize := b), n, completedWork) <==> b == resp.batchSize
    ensures CohortConsistent(resp, n, w) <==> w == completedWork
    ensures resp.batchSize != 0 ==> (CohortConsistent(resp, b, completedWork) <==> b == n)
  {
    hide ActiveTailUpTo;
    SameRows(resp, resp.(committedTotal := t));
    SameRows(resp, resp.(draftedTotal := t));
    SameRows(resp, resp.(acceptedTotal := t));
    SameRows(resp, resp.(rounds := b));
    SameTail(resp, resp.(committedTotal := t));
    SameTail(resp, resp.(draftedTotal := t));
    SameTail(resp, resp.(acceptedTotal := t));
    SameTail(resp, resp.(rounds := b));
    if resp.batchSize != 0 {
      assert resp.tokensLenByStream[0] == n;
    }
  }

  lemma SameRows(a: CohortFreeRunResponse, b: CohortFreeRunResponse)
    requires a.batchSize == b.batchSize && a.acceptanceLengths == b.acceptanceLengths
    requires a.naturalAcceptedByStream == b.naturalAcceptedByStream
    ensures NaturalRectangle(a) <==> NaturalRectangle(b)
  {
    if |a.naturalAcceptedByStream| == a.batchSize {
      forall slot | 0 <= slot < a.batchSize ensures NaturalRowOk(a, slot) <==> NaturalRowOk(b, slot) {
      }
    }
  }

  lemma SameTail(a: CohortFreeRunResponse, b: CohortFreeRunResponse)
    requires a.batchSize == b.batchSize && a.activeStreamsByRound == b.activeStreamsByRound
    requires a.acceptanceLengths == b.acceptanceLengths
    ensures ActiveTail(a) <==> ActiveTail(b)
  {
  }

  /** The same of its vectors: a stream's length, a row of walks, the active counts. */
  lemma OneCohortVector(resp: CohortFreeRunResponse, n: u32, completedWork: int, slot: nat, k: nat, row: seq<u32>,
                        active: seq<u32>)
    requires CohortConsistent(resp, n, completedWork) && slot < resp.batchSize
    ensures CohortConsistent(resp.(tokensLenByStream := resp.tokensLenByStream[slot := k]), n, completedWork) <==> k == n
    ensures CohortConsistent(resp.(naturalAcceptedByStream := resp.naturalAcceptedByStream[slot := row]), n, completedWork)
            <==> |row| == resp.rounds && forall r :: 0 <= r < |row| ==> resp.acceptanceLengths[r] <= row[r]
    ensures CohortConsistent(resp.(activeStreamsByRound := active), n, completedWork)
            <==> |active| == resp.rounds && (forall r :: 0 <= r < |active| ==> 1 <= active[r] <= resp.batchSize)
                 && forall r :: 0 < r < |active| ==> active[r] <= active[r - 1]
  {
    OneStreamLength(resp, n, completedWork, slot, k);
    OneRow(resp, n, completedWork, slot, row);
    OneTail(resp, n, completedWork, active);
  }

  lemma OneStreamLength(resp: CohortFreeRunResponse, n: u32, completedWork: int, slot: nat, k: nat)
    requires CohortConsistent(resp, n, completedWork) && slot < resp.batchSize
    ensures CohortConsistent(resp.(tokensLenByStream := resp.tokensLenByStream[slot := k]), n, completedWork) <==> k == n
  {
    hide NaturalRowOk, ActiveTailUpTo;
    var changed := resp.(tokensLenByStream := resp.tokensLenByStream[slot := k]);
    SameRows(resp, changed);
    SameTail(resp, changed);
    assert changed.tokensLenByStream[slot] == k;
    if k == n {
      assert changed.tokensLenByStream == resp.tokensLenByStream;
    }
  }

  lemma OneRow(resp: CohortFreeRunResponse, n: u32, completedWork: int, slot: nat, row: seq<u32>)
    requires CohortConsistent(resp, n, completedWork) && slot < resp.batchSize
    ensures CohortConsistent(resp.(naturalAcceptedByStream := resp.naturalAcceptedByStream[slot := row]), n, completedWork)
            <==> |row| == resp.rounds && forall r :: 0 <= r < |row| ==> resp.acceptanceLengths[r] <= row[r]
  {
    hide ActiveTailUpTo;
    var changed := resp.(naturalAcceptedByStream := resp.naturalAcceptedByStream[slot := row]);
    SameTail(resp, changed);
    assert NaturalRowOk(changed, slot) <==>
             |row| == resp.rounds && forall r :: 0 <= r < |row| ==> resp.acceptanceLengths[r] <= row[r];
    forall s | 0 <= s < resp.batchSize && s != slot ensures NaturalRowOk(changed, s) {
      assert NaturalRowOk(resp, s);
    }
  }

  lemma {:induction false} NeverRises(active: seq<u32>, r: nat, s: nat)
    requires r <= s < |active| && forall k :: 0 < k < |active| ==> active[k] <= active[k - 1]
    ensures active[s] <= active[r]
  {
    if r < s {
      NeverRises(active, r, s - 1);
    }
  }

  lemma OneTail(resp: CohortFreeRunResponse, n: u32, completedWork: int, active: seq<u32>)
    requires CohortConsistent(resp, n, completedWork)
    ensures CohortConsistent(resp.(activeStreamsByRound := active), n, completedWork)
            <==> |active| == resp.rounds && (forall r :: 0 <= r < |active| ==> 1 <= active[r] <= resp.batchSize)
                 && forall r :: 0 < r < |active| ==> active[r] <= active[r - 1]
  {
    hide NaturalRowOk;
    var changed := resp.(activeStreamsByRound := active);
    SameRows(resp, changed);
    if forall r :: 0 < r < |active| ==> active[r] <= active[r - 1] {
      forall r, s | 0 <= r < s < |active| ensures active[s] <= active[r] {
        NeverRises(active, r, s);
      }
    }
  }

  // ---- which fault is reported ---------------------------------------------------------------

  datatype Check =
    | Width | StreamLength | Committed | Drafted | AcceptedSum | Counter | RoundsField | RowCount | RowLength | RowValue
    | TailLength | TailRange | TailRise

  function CheckOf(e: ConsistencyError): Option<Check> {
    match e
    case CohortWidth(_, _) => Some(Width)
    case CohortStreamTokenCount(_, _, _) => Some(StreamLength)
    case CohortCommittedTotal(_, _) => Some(Committed)
    case DraftedLessThanAccepted(_, _) => Some(Drafted)
    case AcceptanceSum(_, _) => Some(AcceptedSum)
    case RoundCounter(_, _) => Some(Counter)
    case CohortRoundsDisagree(_, _) => Some(RoundsField)
    case CohortNaturalWidth(_, _) => Some(RowCount)
    case CohortNaturalRoundCount(_, _, _) => Some(RowLength)
    case CohortNaturalBelowCommitted(_, _, _, _) => Some(RowValue)
    case CohortActiveStreamsLength(_, _) => Some(TailLength)
    case CohortActiveStreamsOutOfRange(_, _, _) => Some(TailRange)
    case CohortActiveStreamsIncreased(_, _, _) => Some(TailRise)
    case _ => None
  }

  /** Does the response pass this check, whatever else is wrong with it? */
  predicate PassesScalar(resp: CohortFreeRunResponse, n: u32, completedWork: int, c: Check) {
    match c
    case Width => |resp.tokensLenByStream| == resp.batchSize
    case StreamLength => forall slot :: 0 <= slot < |resp.tokensLenByStream| ==> resp.tokensLenByStream[slot] == n
    case Committed => resp.committedTotal == resp.batchSize * n
    case Drafted => resp.acceptedTotal <= resp.draftedTotal
    case AcceptedSum => Sum(resp.acceptanceLengths) == n
    case Counter => completedWork == |resp.acceptanceLengths| + 1
    case RoundsField => resp.rounds == |resp.acceptanceLengths|
    case RowCount => |resp.naturalAcceptedByStream| == resp.batchSize
    case TailLength => |resp.activeStreamsByRound| == |resp.acceptanceLengths|
    case _ => true
  }

  const IN_ORDER: seq<Check> := [
    Width, StreamLength, Committed, Drafted, AcceptedSum, Counter, RoundsField, RowCount, RowLength, RowValue, TailLength,
    TailRange, TailRise]

  /** A reported fault is a check that fails, and every check before it in the source's order passes. */
  lemma FaultIsFirst(resp: CohortFreeRunResponse, n: u32, completedWork: int, e: ConsistencyError, k: nat)
    requires CohortFirstFault(resp, n, completedWork, e) && k < |IN_ORDER| && CheckOf(e) == Some(IN_ORDER[k])
    ensures forall j :: 0 <= j < k ==> PassesScalar(resp, n, completedWork, IN_ORDER[j])
    ensures IN_ORDER[k] !in [RowLength, RowValue, TailRange, TailRise]
            ==> !PassesScalar(resp, n, completedWork, IN_ORDER[k])
    ensures 10 <= k ==> NaturalRectangle(resp)
    ensures !CohortConsistent(resp, n, completedWork)
  {
    hide ActiveTailUpTo;
    if e.CohortNaturalRoundCount? || e.CohortNaturalBelowCommitted? {
      assert !NaturalRowOk(resp, e.slot);
    } else if e.CohortActiveStreamsOutOfRange? || e.CohortActiveStreamsIncreased? {
      TailFails(resp, e);
    }
  }

  lemma TailFails(resp: CohortFreeRunResponse, e: ConsistencyError)
    requires e.CohortActiveStreamsOutOfRange? || e.CohortActiveStreamsIncreased?
    requires var active := resp.activeStreamsByRound;
             e.round < |active| && if e.CohortActiveStreamsOutOfRange? then !(1 <= active[e.round] <= resp.batchSize)
                                   else 0 < e.round && active[e.round - 1] < active[e.round]
    ensures !ActiveTail(resp)
  {
  }

  /** A reported fault carries the numbers that are at fault, and points at the first place that is. */
  lemma FaultPointsAtFirst(resp: CohortFreeRunResponse, n: u32, completedWork: int, e: ConsistencyError)
    requires CohortFirstFault(resp, n, completedWork, e)
    ensures match e
            case CohortStreamTokenCount(slot, expected, got) =>
              && slot < |resp.tokensLenByStream| && got == resp.tokensLenByStream[slot] != expected == n
              && forall s :: 0 <= s < slot ==> resp.tokensLenByStream[s] == n
            case CohortNaturalRoundCount(slot, expected, got) =>
              && slot < |resp.naturalAcceptedByStream| && got == |resp.naturalAcceptedByStream[slot]|
              && expected == |resp.acceptanceLengths| != got
              && forall s :: 0 <= s < slot ==> |resp.naturalAcceptedByStream[s]| == expected
            case CohortNaturalBelowCommitted(round, slot, natural, committed) =>
              && slot < |resp.naturalAcceptedByStream|
              && round < |resp.naturalAcceptedByStream[slot]| == |resp.acceptanceLengths|
              && natural == resp.naturalAcceptedByStream[slot][round] < resp.acceptanceLengths[round] == committed
              && forall r :: 0 <= r < round ==> resp.acceptanceLengths[r] <= resp.naturalAcceptedByStream[slot][r]
            case CohortActiveStreamsOutOfRange(round, active, b) =>
              && round < |resp.activeStreamsByRound| && active == resp.activeStreamsByRound[round]
              && b == resp.batchSize && (active == 0 || b < active)
              && forall r :: 0 <= r < round ==> 1 <= resp.activeStreamsByRound[r] <= b
            case CohortActiveStreamsIncreased(round, previous, active) =>
              && 0 < round < |resp.activeStreamsByRound|
              && previous == resp.activeStreamsByRound[round - 1] < resp.activeStreamsByRound[round] == active
              && forall r :: 0 < r < round ==> resp.activeStreamsByRound[r] <= resp.activeStreamsByRound[r - 1]
            case CohortWidth(b, got) => b == resp.batchSize && got == |resp.tokensLenByStream|
            case CohortCommittedTotal(expected, total) => expected == resp.batchSize * n && total == resp.committedTotal
            case CohortRoundsDisagree(rounds, len) => rounds == resp.rounds && len == |resp.acceptanceLengths|
            case CohortNaturalWidth(b, got) => b == resp.batchSize && got == |resp.naturalAcceptedByStream|
            case CohortActiveStreamsLength(rounds, got) =>
              rounds == |resp.acceptanceLengths| && got == |resp.activeStreamsByRound|
            case DraftedLessThanAccepted(d, a) => d == resp.draftedTotal && a == resp.acceptedTotal
            case AcceptanceSum(m, sum) => m == n && sum == Sum(resp.acceptanceLengths)
            case RoundCounter(rounds, work) => rounds == |resp.acceptanceLengths| && work == completedWork
            case _ => false
  {
    hide ActiveTailUpTo, NaturalRowOk;
    if e.CohortNaturalRoundCount? || e.CohortNaturalBelowCommitted? {
      forall s | 0 <= s < e.slot ensures |resp.naturalAcceptedByStream[s]| == |resp.acceptanceLengths| {
        RowLengthIs(resp, s);
      }
    } else if e.CohortActiveStreamsOutOfRange? || e.CohortActiveStreamsIncreased? {
      TailMeans(resp, e.round);
    }
  }

  lemma RowLengthIs(resp: CohortFreeRunResponse, slot: nat)
    requires slot < |resp.naturalAcceptedByStream| && NaturalRowOk(resp, slot)
    ensures |resp.naturalAcceptedByStream[slot]| == |resp.acceptanceLengths|
  {
  }

  lemma TailMeans(resp: CohortFreeRunResponse, upto: nat)
    requires upto <= |resp.activeStreamsByRound| && ActiveTailUpTo(resp, upto)
    ensures forall r :: 0 <= r < upto ==> 1 <= resp.activeStreamsByRound[r] <= resp.batchSize
    ensures forall r :: 0 < r < upto ==> resp.activeStreamsByRound[r] <= resp.activeStreamsByRound[r - 1]
  {
  }

  /** Of a single stream: the token count first, then the committed total, drafts, the sum, and the counter last. */
  lemma VerdictInOrder(resp: FreeRunResponse, n: u32, completedWork: int)
    ensures VerifyConsistency(resp, n, completedWork)
            == if resp.tokensLen != n then Err(TokenCount(n, resp.tokensLen))
               else if resp.committedTotal != n then Err(CommittedTotal(n, resp.committedTotal))
               else if resp.draftedTotal < resp.acceptedTotal then
                 Err(DraftedLessThanAccepted(resp.draftedTotal, resp.acceptedTotal))
               else if Sum(resp.acceptanceLengths) != n then Err(AcceptanceSum(n, Sum(resp.acceptanceLengths)))
               else if completedWork - 1 != |resp.acceptanceLengths| then
                 Err(RoundCounter(|resp.acceptanceLengths|, completedWork))
               else Ok(FreeRunAudit(resp.acceptanceLengths, resp.draftedTotal, resp.acceptedTotal, resp.tokensLen))
  {
  }
}
