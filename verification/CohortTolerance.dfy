/** The per-stream token tolerance: the echo precondition and the strict per-mille gate (bench-core, cohort_tolerance.rs). */
module CohortTolerance {
  import opened Wrappers
  import opened Sums

  datatype StreamCount = StreamCount(slot: nat, mismatches: nat, committed: nat)

  /** Strictly more than the tolerated share; exactly the threshold passes. */
  predicate Fails(count: StreamCount, tolerance: nat) {
    tolerance * count.committed < count.mismatches * 1000
  }

  datatype Verdict = Verdict(tolerance: nat, perStream: seq<StreamCount>, firstFailing: Option<StreamCount>)

  datatype ToleranceError =
    | StreamCountMismatch(committed: nat, reference: nat)
    | StreamLengthMismatch(slot: nat, committed: nat, reference: nat)
    | EmptyStream(slot: nat)

  datatype ReplayError =
    | EchoCountMismatch(committed: nat, echoed: nat)
    | EchoLengthMismatch(slot: nat, committed: nat, echoed: nat)
    | TokenMismatch(slot: nat, position: nat, committedToken: int, echoedToken: int)

  // ---- the replay echo -----------------------------------------------------------------

  /** The first place where two rectangles of tokens differ, in slot and then position order. */
  predicate FirstDifference(committed: seq<seq<int>>, echoed: seq<seq<int>>, e: ReplayError) {
    match e
    case EchoCountMismatch(c, r) => c == |committed| && r == |echoed| && c != r
    case EchoLengthMismatch(slot, c, r) =>
      && |committed| == |echoed| && slot < |committed| && committed[..slot] == echoed[..slot]
      && c == |committed[slot]| && r == |echoed[slot]| && c != r
    case TokenMismatch(slot, position, c, r) =>
      && |committed| == |echoed| && slot < |committed| && committed[..slot] == echoed[..slot]
      && |committed[slot]| == |echoed[slot]| && position < |committed[slot]|
      && committed[slot][..position] == echoed[slot][..position]
      && c == committed[slot][position] && r == echoed[slot][position] && c != r
  }

  predicate IsReplayOutcome(committed: seq<seq<int>>, echoed: seq<seq<int>>, r: Result<(), ReplayError>) {
    (r.Ok? <==> committed == echoed) && (r.Err? ==> FirstDifference(committed, echoed, r.error))
  }

  /** The oracle replayed the candidate's own journal, or the error points at the first divergence. */
  method VerifyReplayEcho(committed: seq<seq<int>>, echoed: seq<seq<int>>) returns (r: Result<(), ReplayError>)
    ensures IsReplayOutcome(committed, echoed, r)
  {
    if |committed| != |echoed| {
      return Err(EchoCountMismatch(|committed|, |echoed|));
    }
    for slot := 0 to |committed|
      invariant committed[..slot] == echoed[..slot]
    {
      var c, e := committed[slot], echoed[slot];
      if |c| != |e| {
        return Err(EchoLengthMismatch(slot, |c|, |e|));
      }
      for position := 0 to |c|
        invariant c[..position] == e[..position]
      {
        if c[position] != e[position] {
          return Err(TokenMismatch(slot, position, c[position], e[position]));
        }
      }
      assert c == c[..|c|] && e == e[..|e|];
    }
    assert committed == committed[..|committed|] && echoed == echoed[..|echoed|];
    return Ok(());
  }

  // ---- the gate ------------------------------------------------------------------------------

  function Mismatches(committed: seq<int>, reference: seq<int>): nat
    requires |committed| == |reference|
  {
    if committed == [] then 0
    else
      var last := |committed| - 1;
      Mismatches(committed[..last], reference[..last]) + if committed[last] != reference[last] then 1 else 0
  }

  lemma {:induction false} MismatchesAtMostLength(committed: seq<int>, reference: seq<int>)
    requires |committed| == |reference|
    ensures Mismatches(committed, reference) <= |committed|
    ensures Mismatches(committed, reference) == 0 <==> committed == reference
  {
    if committed != [] {
      var last := |committed| - 1;
      MismatchesAtMostLength(committed[..last], reference[..last]);
      assert committed == committed[..last] + [committed[last]];
      assert reference == reference[..last] + [reference[last]];
    }
  }

  /** Streams the gate can judge: one reference token per committed one, and at least one of them. */
  predicate Judgeable(committed: seq<seq<int>>, reference: seq<seq<int>>) {
    && |committed| == |reference|
    && forall s :: 0 <= s < |committed| ==> |committed[s]| == |reference[s]| && 0 < |committed[s]|
  }

  function Tally(committed: seq<seq<int>>, reference: seq<seq<int>>, s: nat): StreamCount
    requires Judgeable(committed, reference) && s < |committed|
  {
    StreamCount(s, Mismatches(committed[s], reference[s]), |committed[s]|)
  }

  predicate FirstStructuralFault(committed: seq<seq<int>>, reference: seq<seq<int>>, e: ToleranceError) {
    match e
    case StreamCountMismatch(c, r) => c == |committed| && r == |reference| && c != r
    case StreamLengthMismatch(slot, c, r) =>
      && |committed| == |reference| && slot < |committed| && Judgeable(committed[..slot], reference[..slot])
      && c == |committed[slot]| && r == |reference[slot]| && c != r
    case EmptyStream(slot) =>
      && |committed| == |reference| && slot < |committed| && Judgeable(committed[..slot], reference[..slot])
      && |committed[slot]| == |reference[slot]| == 0
  }

  /** `first` is the tally of the lowest failing slot, if any slot fails. */
  predicate IsFirstFailing(perStream: seq<StreamCount>, tolerance: nat, first: Option<StreamCount>) {
    match first
    case None => forall s :: 0 <= s < |perStream| ==> !Fails(perStream[s], tolerance)
    case Some(count) =>
      exists s :: 0 <= s < |perStream| && count == perStream[s] && Fails(perStream[s], tolerance)
                  && forall t :: 0 <= t < s ==> !Fails(perStream[t], tolerance)
  }

  /** Exactly the judgeable inputs are judged, every slot is tallied, and the lowest one that fails is reported. */
  predicate IsGateOutcome(committed: seq<seq<int>>, reference: seq<seq<int>>, tolerance: nat,
                          r: Result<Verdict, ToleranceError>)
  {
    match r
    case Ok(verdict) =>
      && Judgeable(committed, reference)
      && verdict.tolerance == tolerance && |verdict.perStream| == |committed|
      && (forall s :: 0 <= s < |committed| ==> verdict.perStream[s] == Tally(committed, reference, s))
      && IsFirstFailing(verdict.perStream, tolerance, verdict.firstFailing)
    case Err(e) => !Judgeable(committed, reference) && FirstStructuralFault(committed, reference, e)
  }

  method EvaluateCohortTokenTolerance(committed: seq<seq<int>>, reference: seq<seq<int>>, tolerance: nat)
    returns (r: Result<Verdict, ToleranceError>)
    ensures IsGateOutcome(committed, reference, tolerance, r)
  {
    if |committed| != |reference| {
      return Err(StreamCountMismatch(|committed|, |reference|));
    }
    var perStream: seq<StreamCount> := [];
    var firstFailing: Option<StreamCount> := None;
    for slot := 0 to |committed|
      invariant Judgeable(committed[..slot], reference[..slot])
      invariant |perStream| == slot
      invariant forall s :: 0 <= s < slot ==>
                  perStream[s] == StreamCount(s, Mismatches(committed[s], reference[s]), |committed[s]|)
      invariant IsFirstFailing(perStream, tolerance, firstFailing)
    {
      var c, e := committed[slot], reference[slot];
      if |c| != |e| {
        return Err(StreamLengthMismatch(slot, |c|, |e|));
      }
      if |c| == 0 {
        return Err(EmptyStream(slot));
      }
      var mismatches := CountMismatches(c, e);
      var count := StreamCount(slot, mismatches, |c|);
      ghost var before := perStream;
      perStream := perStream + [count];
      assert perStream[slot] == count && forall s :: 0 <= s < slot ==> perStream[s] == before[s];
      if firstFailing.None? && Fails(count, tolerance) {
        firstFailing := Some(count);
      }
      assert committed[..slot + 1] == committed[..slot] + [c] && reference[..slot + 1] == reference[..slot] + [e];
    }
    assert committed[..|committed|] == committed && reference[..|reference|] == reference;
    return Ok(Verdict(tolerance, perStream, firstFailing));
  }

  method CountMismatches(committed: seq<int>, reference: seq<int>) returns (n: nat)
    requires |committed| == |reference|
    ensures n == Mismatches(committed, reference)
  {
    n := 0;
    for i := 0 to |committed|
      invariant n == Mismatches(committed[..i], reference[..i])
    {
      assert committed[..i + 1][..i] == committed[..i] && reference[..i + 1][..i] == reference[..i];
      if committed[i] != reference[i] {
        n := n + 1;
      }
    }
    assert committed[..|committed|] == committed && reference[..|reference|] == reference;
  }

  // ---- per stream implies pooled -----------------------------------------------------------------

  function MismatchList(counts: seq<StreamCount>): seq<nat> {
    seq(|counts|, i requires 0 <= i < |counts| => counts[i].mismatches)
  }

  function CommittedList(counts: seq<StreamCount>): seq<nat> {
    seq(|counts|, i requires 0 <= i < |counts| => counts[i].committed)
  }

  /** When every stream passes, the pooled rate passes too. */
  lemma {:induction false} PooledPasses(counts: seq<StreamCount>, tolerance: nat)
    requires forall s :: 0 <= s < |counts| ==> !Fails(counts[s], tolerance)
    ensures Sum(MismatchList(counts)) * 1000 <= tolerance * Sum(CommittedList(counts))
  {
    if counts != [] {
      PooledPasses(counts[1..], tolerance);
      assert MismatchList(counts)[1..] == MismatchList(counts[1..]);
      assert CommittedList(counts)[1..] == CommittedList(counts[1..]);
      Distributes(tolerance, counts[0].committed, Sum(CommittedList(counts[1..])));
    }
  }

  lemma Distributes(t: nat, x: nat, y: nat)
    ensures t * (x + y) == t * x + t * y
  {
  }
}
