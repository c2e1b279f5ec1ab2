/** What the cool-down gate tells readers of known behaviour (benchctl, coolgate.rs). */
module CoolGateLaws {
  import opened Wrappers
  import opened Floats
  import opened CoolGate

  // ---- the first read --------------------------------------------------------------------

  /** A first sample of 40 degrees or less passes at once; a hotter one never ends the gate by itself. */
  lemma FirstReadDecides(read: Reader, temp: real)
    requires read(0) == Some(Finite(temp))
    ensures temp <= 40.0 ==> Verdict(read, 1) == Some(Passed(0))
    ensures 40.0 < temp ==> Verdict(read, 1).None?
  {
    assert HotReads(read, 0) == [];
  }

  // ---- a reader without samples ------------------------------------------------------------

  /** Three reads in a row without a finite sample skip the gate, two do not, and two seconds are slept after each. */
  lemma SilentReaderIsSkipped(read: Reader)
    requires forall k :: 0 <= k < 3 ==> read(k) in {None, Some(NaN), Some(PositiveInfinity), Some(NegativeInfinity)}
    ensures Waiting(read, 2) && Verdict(read, 3) == Some(Skipped) && SleptAfter(read, 2) == 4
  {
    assert Usable(read(0)).None? && Usable(read(1)).None? && Usable(read(2)).None?;
    assert BadRun(read, 0) == 0 && BadRun(read, 1) == 1 && BadRun(read, 2) == 2 && BadRun(read, 3) == 3;
    assert SleptAfter(read, 0) == 0 && SleptAfter(read, 1) == 2;
  }

  // ---- a reader whose temperature stands still -----------------------------------------------

  /** Hot at `first`, then hot at `rest` for ever. */
  ghost predicate Steps(read: Reader, first: real, rest: real) {
    read(0) == Some(Finite(first)) && forall k: nat :: 0 < k ==> read(k) == Some(Finite(rest))
  }

  lemma {:induction false} StepsAreHot(read: Reader, first: real, rest: real, n: nat)
    requires Steps(read, first, rest) && 40.0 < first && 40.0 < rest
    ensures var hot := HotReads(read, n);
            |hot| == n && forall k :: 0 <= k < n ==> hot[k] == if k == 0 then first else rest
    ensures SleptAfter(read, n) == 10 * n
  {
    if n != 0 {
      StepsAreHot(read, first, rest, n - 1);
    }
  }

  lemma {:induction false} ProgressOfSteps(hot: seq<real>, first: real, rest: real)
    requires hot != [] && forall k :: 0 <= k < |hot| ==> hot[k] == if k == 0 then first else rest
    ensures ProgressIndex(hot) == if 1 < |hot| && rest <= first - 0.25 then 1 else 0
  {
    if 1 < |hot| {
      ProgressOfSteps(hot[..|hot| - 1], first, rest);
    }
  }

  lemma VerdictOfSteps(read: Reader, first: real, rest: real, n: nat)
    requires Steps(read, first, rest) && 40.0 < first && 40.0 < rest && 0 < n <= 19
    ensures Verdict(read, n)
            == if n < 19 then None
               else Some(Stalled(180, rest, if rest <= first - 0.25 then rest else first))
  {
    hide ProgressIndex, HotReads;
    StepsAreHot(read, first, rest, n);
    ProgressOfSteps(HotReads(read, n), first, rest);
    UsableIs(read, n - 1, if n == 1 then first else rest);
  }

  lemma UsableIs(read: Reader, k: nat, temp: real)
    requires read(k) == Some(Finite(temp))
    ensures Usable(read(k)) == Some(temp)
  {
  }

  /**
   A GPU that stands still above 40 degrees is given 180 seconds, in 19 reads; one drop of less than a quarter degree
   counts for nothing, and one of a quarter degree is the coolest reported.
   */
  lemma StillReaderStalls(read: Reader, first: real, rest: real)
    requires Steps(read, first, rest) && 40.0 < first && 40.0 < rest
    ensures Waiting(read, 18) && SleptAfter(read, 18) == 180
    ensures Verdict(read, 19) == Some(Stalled(180, rest, if rest <= first - 0.25 then rest else first))
  {
    hide Verdict, SleptAfter;
    StepsAreHot(read, first, rest, 18);
    forall k | 1 <= k <= 19
      ensures Verdict(read, k) == if k < 19 then None
                                  else Some(Stalled(180, rest, if rest <= first - 0.25 then rest else first))
    {
      VerdictOfSteps(read, first, rest, k);
    }
  }

  // ---- a reader that keeps cooling -------------------------------------------------------------

  /** A quarter degree down at every read, and still hot after 91 of them. */
  ghost predicate Cools(read: Reader, start: real) {
    62.5 < start && forall k: nat :: k <= 90 ==> read(k) == Some(Finite(start - 0.25 * k as real))
  }

  lemma {:induction false} CoolingReads(read: Reader, start: real, n: nat)
    requires Cools(read, start) && n <= 91
    ensures var hot := HotReads(read, n); |hot| == n && forall k :: 0 <= k < n ==> hot[k] == start - 0.25 * k as real
    ensures SleptAfter(read, n) == 10 * n
  {
    if n != 0 {
      CoolingReads(read, start, n - 1);
    }
  }

  lemma {:induction false} ProgressOfCooling(hot: seq<real>, start: real)
    requires hot != [] && forall k :: 0 <= k < |hot| ==> hot[k] == start - 0.25 * k as real
    ensures ProgressIndex(hot) == |hot| - 1
  {
    if 1 < |hot| {
      ProgressOfCooling(hot[..|hot| - 1], start);
    }
  }

  lemma VerdictOfCooling(read: Reader, start: real, n: nat)
    requires Cools(read, start) && 0 < n <= 91
    ensures Verdict(read, n) == if n < 91 then None else Some(Ceiling(start - 22.5))
  {
    hide ProgressIndex, HotReads;
    CoolingReads(read, start, n);
    ProgressOfCooling(HotReads(read, n), start);
    UsableIs(read, n - 1, start - 0.25 * (n - 1) as real);
  }

  /** It is never stalled, and given up only after 900 seconds, at the 91st read. */
  lemma CoolingReaderHitsCeiling(read: Reader, start: real)
    requires Cools(read, start)
    ensures Waiting(read, 90) && SleptAfter(read, 90) == 900 && Verdict(read, 91) == Some(Ceiling(start - 22.5))
  {
    hide Verdict, SleptAfter;
    CoolingReads(read, start, 90);
    forall k | 1 <= k <= 91 ensures Verdict(read, k) == if k < 91 then None else Some(Ceiling(start - 22.5)) {
      VerdictOfCooling(read, start, k);
    }
  }
}
