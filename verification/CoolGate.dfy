/** The local cool-down gate: a poll loop that always ends, and when each of its ends can happen (benchctl, coolgate.rs). */
module CoolGate {
  import opened Wrappers
  import opened Floats

  const TARGET := 40.0
  const POLL := 10
  const ABORT := 180
  const STALL := 90
  const MAX_WAIT := 900
  const EPSILON := 0.25
  const RETRY := 2

  /** How the loop ends; the two aborts are the source's errors. */
  datatype Outcome =
    | Passed(waited: nat)
    | Skipped
    | Stalled(waited: nat, current: real, coolest: real)
    | Ceiling(current: real)

  /** What the k-th call of the reader yields; nothing where it has no sample. */
  type Reader = nat -> Option<Float>

  /** A usable sample is present and finite. */
  function Usable(sample: Option<Float>): Option<real> {
    if sample.Some? && sample.value.Finite? then Some(sample.value.value) else None
  }

  // ---- what the first reads amount to ------------------------------------------------

  /** The usable samples above the target among the first `n` reads, in read order. */
  function HotReads(read: Reader, n: nat): seq<real> {
    if n == 0 then []
    else
      var sample := Usable(read(n - 1));
      HotReads(read, n - 1) + if sample.Some? && TARGET < sample.value then [sample.value] else []
  }

  /** How many unusable reads in a row the first `n` end with. */
  function BadRun(read: Reader, n: nat): (bad: nat)
    ensures bad <= n && forall k :: n - bad <= k < n ==> Usable(read(k)).None?
  {
    if n == 0 || Usable(read(n - 1)).Some? then 0 else BadRun(read, n - 1) + 1
  }

  /** The seconds slept after the first `n` reads, when none of them ends the loop. */
  function SleptAfter(read: Reader, n: nat): nat {
    if n == 0 then 0
    else SleptAfter(read, n - 1) + if Usable(read(n - 1)).None? then RETRY else POLL
  }

  /** The last sample that dropped a quarter degree below the progress before it. */
  function ProgressIndex(hot: seq<real>): (p: nat)
    requires hot != []
    ensures p < |hot|
  {
    var last := |hot| - 1;
    if last == 0 then 0
    else
      var before := ProgressIndex(hot[..last]);
      if hot[last] <= hot[before] - EPSILON then last else before
  }

  /** Progress is colder than all before it, and nothing since has dropped a quarter degree below it. */
  lemma {:induction false} ProgressIsColdest(hot: seq<real>)
    requires hot != []
    ensures var p := ProgressIndex(hot);
            && (forall i :: 0 <= i < p ==> hot[p] < hot[i])
            && (forall i :: 0 <= i < |hot| ==> hot[p] - EPSILON < hot[i])
  {
    var last := |hot| - 1;
    if last != 0 {
      var before := hot[..last];
      ProgressIsColdest(before);
      assert forall i :: 0 <= i < last ==> hot[i] == before[i];
    }
  }

  /** Hot, waited long enough, and no progress for a whole stall window. */
  predicate IsStalled(hot: seq<real>)
    requires hot != []
  {
    var waited := POLL * (|hot| - 1);
    ABORT <= waited && STALL <= waited - POLL * ProgressIndex(hot)
  }

  /** How the n-th read ends the loop, if it does: every hot sample before it cost one poll of waiting. */
  function Verdict(read: Reader, n: nat): Option<Outcome>
    requires 0 < n
  {
    var hot := HotReads(read, n);
    match Usable(read(n - 1))
    case None => if 3 <= BadRun(read, n) then Some(Skipped) else None
    case Some(temp) =>
      if temp <= TARGET then Some(Passed(POLL * |hot|))
      else if IsStalled(hot) then Some(Stalled(POLL * (|hot| - 1), temp, hot[ProgressIndex(hot)]))
      else if MAX_WAIT <= POLL * (|hot| - 1) then Some(Ceiling(temp))
      else None
  }

  /** None of the first `n` reads ends the loop. */
  ghost predicate Waiting(read: Reader, n: nat) {
    forall k :: 1 <= k <= n ==> Verdict(read, k).None?
  }

  // ---- one more read --------------------------------------------------------------------

  lemma ReadUnusable(read: Reader, n: nat)
    requires Usable(read(n)).None?
    ensures HotReads(read, n + 1) == HotReads(read, n) && BadRun(read, n + 1) == BadRun(read, n) + 1
    ensures Verdict(read, n + 1) == if 3 <= BadRun(read, n + 1) then Some(Skipped) else None
  {
  }

  lemma ReadCool(read: Reader, n: nat, temp: real)
    requires Usable(read(n)) == Some(temp) && temp <= TARGET
    ensures HotReads(read, n + 1) == HotReads(read, n)
    ensures Verdict(read, n + 1) == Some(Passed(POLL * |HotReads(read, n)|))
  {
  }

  lemma ProgressOrNot(hot: seq<real>, temp: real)
    ensures ProgressIndex(hot + [temp])
            == if hot == [] || temp <= hot[ProgressIndex(hot)] - EPSILON then |hot| else ProgressIndex(hot)
  {
    assert (hot + [temp])[..|hot|] == hot;
  }

  lemma ReadHot(read: Reader, n: nat, temp: real)
    requires Usable(read(n)) == Some(temp) && TARGET < temp
    ensures var more, waited := HotReads(read, n) + [temp], POLL * |HotReads(read, n)|;
            && HotReads(read, n + 1) == more && BadRun(read, n + 1) == 0
            && Verdict(read, n + 1) == if IsStalled(more) then Some(Stalled(waited, temp, more[ProgressIndex(more)]))
                                       else if MAX_WAIT <= waited then Some(Ceiling(temp))
                                       else None
  {
    hide IsStalled, ProgressIndex;
    assert HotReads(read, n + 1) == HotReads(read, n) + [temp];
  }

  // ---- the loop ------------------------------------------------------------------------

  /**
   While no read has ended the loop: at most 90 hot polls, each with at most two unusable reads before it,
   and the last progress not yet stale.
   */
  lemma {:induction false} WaitingIsBounded(read: Reader, n: nat)
    requires Waiting(read, n)
    ensures var hot, bad := HotReads(read, n), BadRun(read, n);
            && |hot| <= 90 && bad <= 2
            && n <= 3 * |hot| + bad
            && SleptAfter(read, n) <= 14 * |hot| + 2 * bad
            && (hot != [] ==> !IsStalled(hot))
  {
    if n != 0 {
      hide Verdict, IsStalled;
      var m: nat := n - 1;
      WaitingIsBounded(read, m);
      match Usable(read(m)) {
        case None => ReadUnusable(read, m);
        case Some(temp) =>
          if temp <= TARGET {
            ReadCool(read, m, temp);
          } else {
            ReadHot(read, m, temp);
          }
      }
      assert Verdict(read, n).None?;
    }
  }

  /** The sample that stalls the gate is exactly the first one late enough: at 180 s, or 90 s after the last progress. */
  lemma StallTime(hot: seq<real>)
    requires hot != [] && IsStalled(hot)
    requires |hot| == 1 || !IsStalled(hot[..|hot| - 1])
    ensures var progress := POLL * ProgressIndex(hot);
            POLL * (|hot| - 1) == if progress + STALL <= ABORT then ABORT else progress + STALL
  {
  }

  lemma StalledMeans(hot: seq<real>)
    requires hot != []
    ensures IsStalled(hot)
            <==> ABORT <= POLL * (|hot| - 1) && STALL <= POLL * (|hot| - 1) - POLL * ProgressIndex(hot)
  {
  }

  /** The loop's variables after `n` reads that did not end it. */
  datatype State = State(waited: nat, lastProgress: nat, badSamples: nat, coolest: Option<real>, slept: nat)

  ghost predicate Tracks(read: Reader, n: nat, s: State) {
    var hot := HotReads(read, n);
    && Waiting(read, n)
    && s.waited == POLL * |hot| && s.badSamples == BadRun(read, n) && s.slept == SleptAfter(read, n)
    && (s.coolest.None? <==> hot == [])
    && (hot != [] ==> s.lastProgress == POLL * ProgressIndex(hot) && s.coolest.value == hot[ProgressIndex(hot)])
  }

  lemma TracksFromStart(read: Reader)
    ensures Tracks(read, 0, State(0, 0, 0, None, 0))
  {
  }

  /** Time and sleep are bounded in every state the loop can be in. */
  lemma TracksBounded(read: Reader, n: nat, s: State)
    requires Tracks(read, n, s)
    ensures s.waited <= 900 && s.waited % 10 == 0 && s.badSamples <= 2 && n <= 272 && s.slept <= 1264
  {
    WaitingIsBounded(read, n);
  }

  lemma OneMoreWaits(read: Reader, n: nat)
    requires Waiting(read, n) && Verdict(read, n + 1).None?
    ensures Waiting(read, n + 1)
  {
    hide Verdict;
  }

  lemma TracksUnusable(read: Reader, n: nat, s: State)
    requires Tracks(read, n, s) && Usable(read(n)).None?
    ensures s.badSamples == 2 ==> Verdict(read, n + 1) == Some(Skipped)
    ensures s.badSamples < 2 ==>
              Tracks(read, n + 1, s.(badSamples := s.badSamples + 1, slept := s.slept + RETRY))
  {
    hide Verdict, ProgressIndex;
    ReadUnusable(read, n);
    if s.badSamples < 2 {
      OneMoreWaits(read, n);
    }
  }

  lemma TracksCool(read: Reader, n: nat, s: State, temp: real)
    requires Tracks(read, n, s) && Usable(read(n)) == Some(temp) && temp <= TARGET
    ensures Verdict(read, n + 1) == Some(Passed(s.waited))
  {
    hide Verdict, ProgressIndex;
    ReadCool(read, n, temp);
  }

  predicate IsProgress(s: State, temp: real) {
    s.coolest.None? || temp <= s.coolest.value - EPSILON
  }

  /** A hot sample either ends the loop, at the exact time a stall or the ceiling can, or is one more poll. */
  lemma TracksHot(read: Reader, n: nat, s: State, temp: real)
    requires Tracks(read, n, s) && Usable(read(n)) == Some(temp) && TARGET < temp
    ensures var coolest := if IsProgress(s, temp) then temp else s.coolest.value;
            var progress := if IsProgress(s, temp) then s.waited else s.lastProgress;
            var hot := HotReads(read, n + 1);
            && hot != [] && POLL * ProgressIndex(hot) == progress
            && if ABORT <= s.waited && STALL <= s.waited - progress then
                 && Verdict(read, n + 1) == Some(Stalled(s.waited, temp, coolest))
                 && s.waited == if progress + STALL <= ABORT then ABORT else progress + STALL
               else if MAX_WAIT <= s.waited then
                 Verdict(read, n + 1) == Some(Ceiling(temp)) && |hot| == 91
               else
                 Tracks(read, n + 1, State(s.waited + POLL, progress, 0, Some(coolest), s.slept + POLL))
  {
    hide Verdict, IsStalled, ProgressIndex;
    var before := HotReads(read, n);
    var hot := before + [temp];
    WaitingIsBounded(read, n);
    ReadHot(read, n, temp);
    ProgressOrNot(before, temp);
    StalledMeans(hot);
    assert hot[..|hot| - 1] == before;
    if IsStalled(hot) {
      StallTime(hot);
    } else if s.waited < MAX_WAIT {
      OneMoreWaits(read, n);
    }
  }

  /**
   For every reader the loop ends with the verdict of the first read that has one, having slept exactly what the
   reads before it ask for: within 273 reads and 1264 seconds of sleep.
   */
  method CoolGateLoop(read: Reader) returns (r: Outcome, polls: nat, slept: nat)
    ensures 1 <= polls <= 273 && slept <= 1264
    ensures Waiting(read, polls - 1) && Verdict(read, polls) == Some(r)
    ensures slept == SleptAfter(read, polls - 1)
    ensures r.Passed? ==> r.waited % 10 == 0 && r.waited <= 900
    ensures r.Stalled? ==>
              var hot := HotReads(read, polls);
              && hot != []
              && r.waited == if POLL * ProgressIndex(hot) + 90 <= 180 then 180 else POLL * ProgressIndex(hot) + 90
    ensures r.Ceiling? ==> |HotReads(read, polls)| == 91
  {
    hide Verdict, HotReads, ProgressIndex, BadRun, Usable;
    var waited: nat, lastProgress: nat, badSamples: nat := 0, 0, 0;
    var coolest: Option<real> := None;
    polls, slept := 0, 0;
    TracksFromStart(read);
    while true
      invariant Tracks(read, polls, State(waited, lastProgress, badSamples, coolest, slept))
      decreases 273 - polls
    {
      ghost var here := State(waited, lastProgress, badSamples, coolest, slept);
      TracksBounded(read, polls, here);
      var sample := Usable(read(polls));
      polls := polls + 1;
      if sample.None? {
        TracksUnusable(read, polls - 1, here);
        badSamples := badSamples + 1;
        if 3 <= badSamples {
          return Skipped, polls, slept;
        }
        slept := slept + RETRY;
        continue;
      }
      badSamples := 0;
      var temp := sample.value;
      if temp <= TARGET {
        TracksCool(read, polls - 1, here, temp);
        return Passed(waited), polls, slept;
      }
      TracksHot(read, polls - 1, here, temp);
      if coolest.None? || temp <= coolest.value - EPSILON {
        coolest := Some(temp);
        lastProgress := waited;
      }
      if ABORT <= waited && STALL <= waited - lastProgress {
        return Stalled(waited, temp, coolest.value), polls, slept;
      }
      if MAX_WAIT <= waited {
        return Ceiling(temp), polls, slept;
      }
      slept := slept + POLL;
      waited := waited + POLL;
    }
  }

  // ---- what the gate promises a cooling GPU ------------------------------------------------

  predicate DropsAfter(hot: seq<real>, i: nat)
    requires i < |hot|
  {
    exists k :: i < k < |hot| && k <= i + 9 && hot[k] <= hot[i] - EPSILON
  }

  /** The temperature drops by a quarter degree at least once in any 90 counted seconds. */
  predicate KeepsCooling(hot: seq<real>) {
    forall i: nat :: i + 9 < |hot| ==> DropsAfter(hot, i)
  }

  /** A reader whose hot samples keep cooling is never told that its GPU has stalled. */
  lemma CoolingNeverStalls(read: Reader, n: nat, r: Outcome)
    requires 0 < n && Verdict(read, n) == Some(r) && KeepsCooling(HotReads(read, n))
    ensures !r.Stalled?
  {
    var hot := HotReads(read, n);
    if hot != [] {
      ProgressIsColdest(hot);
      var p := ProgressIndex(hot);
      assert !DropsAfter(hot, p);
    }
  }

  /** Conversely, a stall is reported only to a GPU that did not drop a quarter degree in the 90 seconds before it. */
  lemma StallMeansNoCooling(read: Reader, n: nat, r: Outcome)
    requires 0 < n && Verdict(read, n) == Some(r) && r.Stalled?
    ensures var hot := HotReads(read, n);
            && 10 <= |hot| && r.current == hot[|hot| - 1]
            && forall i :: |hot| - 10 <= i < |hot| ==> r.coolest - EPSILON < hot[i]
  {
    ProgressIsColdest(HotReads(read, n));
  }
}
