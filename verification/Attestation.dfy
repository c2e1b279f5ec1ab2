/**
 The report-only per-stream attestation of one leg, in exact arithmetic
 (bench-core, per_stream_attestation.rs).
 */
module Attestation {
  import opened Wrappers
  import opened Sums
  import opened FreeRun

  datatype Phase = Prefill | Decode

  /** A parent-measured window; the guard refuses the non-finite ones. */
  datatype Window = Finite(seconds: real) | NonFinite

  /** A raw ratio; a slot that committed nothing has an infinite one. */
  datatype Ratio = Finite(value: real) | Infinite

  datatype Clause = Clause(rawRatio: Ratio, flagged: bool)

  datatype AttestationError =
    | CapabilityAbsent
    | VectorMissing(phase: Phase)
    | VectorLength(phase: Phase, batchSize: u32, got: nat)
    | TokensLenByStreamWidth(batchSize: u32, got: nat)
    | ZeroDuration(phase: Phase, slot: nat)
    | NonPositiveWindow(phase: Phase, window: Window)
    | ZeroRounds

  datatype Inputs = Inputs(
    capabilityAdvertised: bool,
    batchSize: u32,
    prefillNs: Option<seq<u64>>,
    decodeNs: Option<seq<u64>>,
    tokensLenByStream: seq<nat>,
    prefillWindow: Window,
    decodeWindow: Window,
    rounds: nat)

  datatype PerStreamAttestation = PerStreamAttestation(
    batchSize: u32,
    prefillBounding: seq<Clause>,
    decodeBounding: seq<Clause>,
    prefillCoverage: Clause,
    decodeCoverage: Clause,
    tokenCountFloor: seq<Clause>,
    lockstepInterleave: seq<real>,
    prefillSumNs: nat,
    decodeSumNs: nat)

  const NANOS_PER_SECOND: real := 1000000000.0

  predicate PositiveWindow(w: Window) {
    w.Finite? && 0.0 < w.seconds
  }

  predicate AllPositive(ns: seq<nat>) {
    forall slot :: 0 <= slot < |ns| ==> 0 < ns[slot]
  }

  /** The structural guards, in the order they are checked. */
  datatype Guard =
    | Advertised
    | Present(phase: Phase)
    | Width(phase: Phase)
    | TokenWidth
    | Timed(phase: Phase)
    | Windowed(phase: Phase)
    | Stepped

  const GUARDS: seq<Guard> := [
    Advertised, Present(Prefill), Present(Decode), Width(Prefill), Width(Decode), TokenWidth,
    Timed(Prefill), Timed(Decode), Windowed(Prefill), Windowed(Decode), Stepped]

  function Vector(i: Inputs, phase: Phase): Option<seq<u64>> {
    if phase.Prefill? then i.prefillNs else i.decodeNs
  }

  function WindowOf(i: Inputs, phase: Phase): Window {
    if phase.Prefill? then i.prefillWindow else i.decodeWindow
  }

  predicate Passes(i: Inputs, guard: Guard) {
    match guard
    case Advertised => i.capabilityAdvertised
    case Present(phase) => Vector(i, phase).Some?
    case Width(phase) => Vector(i, phase).Some? && |Vector(i, phase).value| == i.batchSize
    case TokenWidth => |i.tokensLenByStream| == i.batchSize
    case Timed(phase) => Vector(i, phase).Some? && AllPositive(Vector(i, phase).value)
    case Windowed(phase) => PositiveWindow(WindowOf(i, phase))
    case Stepped => 0 < i.rounds
  }

  /** Every structural guard passes. */
  predicate WellFormed(i: Inputs) {
    forall guard :: guard in GUARDS ==> Passes(i, guard)
  }

  /** The first slot that reported zero time, if any. */
  method FirstZero(ns: seq<u64>) returns (slot: Option<nat>)
    ensures slot.None? <==> AllPositive(ns)
    ensures slot.Some? ==> slot.value < |ns| && ns[slot.value] == 0 && AllPositive(ns[..slot.value])
  {
    for s := 0 to |ns|
      invariant AllPositive(ns[..s])
    {
      if ns[s] == 0 {
        return Some(s);
      }
      assert ns[..s + 1] == ns[..s] + [ns[s]];
    }
    assert ns[..|ns|] == ns;
    return None;
  }

  function Max(ns: seq<nat>): (m: nat)
    ensures forall slot :: 0 <= slot < |ns| ==> ns[slot] <= m
    ensures ns != [] ==> m in ns
  {
    if ns == [] then 0
    else
      var rest := Max(ns[1..]);
      if rest <= ns[0] then ns[0] else rest
  }

  function Bounding(ns: seq<nat>, windowNs: real): seq<Clause>
    requires 0.0 < windowNs
  {
    seq(|ns|, slot requires 0 <= slot < |ns| =>
      var ratio := ns[slot] as real / windowNs;
      Clause(Ratio.Finite(ratio), 1.0 < ratio))
  }

  function Coverage(ns: seq<nat>, windowNs: real): Clause
    requires 0.0 < windowNs
  {
    Below(Max(ns) as real / windowNs)
  }

  function Below(ratio: real): Clause {
    Clause(Ratio.Finite(ratio), ratio < 1.0)
  }

  /** Clause (e): a slot's time against its own token count at the cohort's step time. */
  function FloorClause(ns: nat, kSlot: nat, stepNs: real): Clause {
    var floorNs := kSlot as real * stepNs;
    if 0.0 < floorNs then Below(ns as real / floorNs)
    else Clause(Infinite, false)
  }

  function TokenCountFloor(ns: seq<nat>, kSlots: seq<nat>, stepNs: real): seq<Clause>
    requires |ns| == |kSlots|
  {
    seq(|ns|, slot requires 0 <= slot < |ns| => FloorClause(ns[slot], kSlots[slot], stepNs))
  }

  function Scaled(ns: seq<nat>, mean: real): seq<real>
    requires 0.0 < mean
  {
    seq(|ns|, slot requires 0 <= slot < |ns| => ns[slot] as real / mean)
  }

  lemma QuotientPositive(x: real, y: real)
    requires 0.0 < x && 0.0 < y
    ensures 0.0 < x / y && (x / y) * y == x
  {
    var q := x / y;
    assert q * y == x;
    if q <= 0.0 {
      NotPositive(q, y);
    }
  }

  lemma NotPositive(q: real, y: real)
    requires q <= 0.0 && 0.0 < y
    ensures q * y <= 0.0
  {
  }

  function Lockstep(ns: seq<nat>): seq<real>
    requires AllPositive(ns)
  {
    if ns == [] then []
    else
      LengthAtMostSum(ns);
      QuotientPositive(Sum(ns) as real, |ns| as real);
      Scaled(ns, Sum(ns) as real / |ns| as real)
  }

  function WindowNs(w: Window): real
    requires PositiveWindow(w)
  {
    w.seconds * NANOS_PER_SECOND
  }

  lemma WellFormedMeans(i: Inputs)
    requires WellFormed(i)
    ensures i.prefillNs.Some? && i.decodeNs.Some?
    ensures |i.prefillNs.value| == |i.decodeNs.value| == |i.tokensLenByStream| == i.batchSize
    ensures AllPositive(i.prefillNs.value) && AllPositive(i.decodeNs.value)
    ensures PositiveWindow(i.prefillWindow) && PositiveWindow(i.decodeWindow) && 0 < i.rounds
  {
    assert forall k :: 0 <= k < |GUARDS| ==> GUARDS[k] in GUARDS;
    assert Passes(i, GUARDS[3]) && Passes(i, GUARDS[4]) && Passes(i, GUARDS[5]) && Passes(i, GUARDS[6]);
    assert Passes(i, GUARDS[7]) && Passes(i, GUARDS[8]) && Passes(i, GUARDS[9]) && Passes(i, GUARDS[10]);
  }

  /** The attestation of a leg that passed every guard. */
  function Attested(i: Inputs): PerStreamAttestation
    requires WellFormed(i)
  {
    WellFormedMeans(i);
    var prefill, decode := i.prefillNs.value, i.decodeNs.value;
    var prefillWindowNs, decodeWindowNs := WindowNs(i.prefillWindow), WindowNs(i.decodeWindow);
    var stepNs := decodeWindowNs / i.rounds as real;
    PerStreamAttestation(
      i.batchSize,
      Bounding(prefill, prefillWindowNs), Bounding(decode, decodeWindowNs),
      Coverage(prefill, prefillWindowNs), Coverage(decode, decodeWindowNs),
      TokenCountFloor(decode, i.tokensLenByStream, stepNs),
      Lockstep(decode), Sum(prefill), Sum(decode))
  }

  /** The error of a guard that fails, naming what it found; a zero duration is that of the first such slot. */
  predicate Names(i: Inputs, guard: Guard, e: AttestationError) {
    match guard
    case Advertised => e == CapabilityAbsent
    case Present(phase) => e == VectorMissing(phase)
    case Width(phase) => Vector(i, phase).Some? && e == VectorLength(phase, i.batchSize, |Vector(i, phase).value|)
    case TokenWidth => e == TokensLenByStreamWidth(i.batchSize, |i.tokensLenByStream|)
    case Timed(phase) =>
      && Vector(i, phase).Some? && e.ZeroDuration? && e.phase == phase
      && var ns := Vector(i, phase).value; e.slot < |ns| && ns[e.slot] == 0 && AllPositive(ns[..e.slot])
    case Windowed(phase) => e == NonPositiveWindow(phase, WindowOf(i, phase))
    case Stepped => e == ZeroRounds
  }

  /** `e` is the error of the first guard that fails. */
  predicate FirstRefusal(i: Inputs, e: AttestationError) {
    exists k :: 0 <= k < |GUARDS| && RefusedAt(i, k, e)
  }

  predicate RefusedAt(i: Inputs, k: nat, e: AttestationError)
    requires k < |GUARDS|
  {
    !Passes(i, GUARDS[k]) && Names(i, GUARDS[k], e) && forall j :: 0 <= j < k ==> Passes(i, GUARDS[j])
  }

  lemma FirstZeroIsUnique(ns: seq<nat>, slot: nat, slot': nat)
    requires slot < |ns| && ns[slot] == 0 && AllPositive(ns[..slot])
    requires slot' < |ns| && ns[slot'] == 0 && AllPositive(ns[..slot'])
    ensures slot == slot'
  {
    if slot < slot' {
      EarlierIsPositive(ns, slot', slot);
    } else if slot' < slot {
      EarlierIsPositive(ns, slot, slot');
    }
  }

  lemma EarlierIsPositive(ns: seq<nat>, n: nat, slot: nat)
    requires slot < n <= |ns| && AllPositive(ns[..n])
    ensures 0 < ns[slot]
  {
    assert ns[..n][slot] == ns[slot];
  }

  /** There is one first refusal at most, so it fixes the error down to its payload, and none for a leg that passes. */
  lemma RefusalIsUnique(i: Inputs, e: AttestationError, e': AttestationError)
    requires FirstRefusal(i, e)
    ensures !WellFormed(i)
    ensures FirstRefusal(i, e') ==> e == e'
  {
    hide Passes, Names;
    var k :| 0 <= k < |GUARDS| && RefusedAt(i, k, e);
    assert GUARDS[k] in GUARDS;
    if FirstRefusal(i, e') {
      var k' :| 0 <= k' < |GUARDS| && RefusedAt(i, k', e');
      assert k == k';
      NamesOne(i, GUARDS[k], e, e');
    }
  }

  lemma NamesOne(i: Inputs, guard: Guard, e: AttestationError, e': AttestationError)
    requires Names(i, guard, e) && Names(i, guard, e')
    ensures e == e'
  {
    if guard.Timed? {
      FirstZeroIsUnique(Vector(i, guard.phase).value, e.slot, e'.slot);
    }
  }

  /** Refuse at guard `k`, every earlier one having passed. */
  lemma Refuses(i: Inputs, k: nat, e: AttestationError)
    requires k < |GUARDS| && RefusedAt(i, k, e)
    ensures FirstRefusal(i, e) && !WellFormed(i)
  {
    assert GUARDS[k] in GUARDS;
  }

  lemma AllGuards(i: Inputs)
    requires forall k :: 0 <= k < |GUARDS| ==> Passes(i, GUARDS[k])
    ensures WellFormed(i)
  {
  }

  method AttestLeg(i: Inputs) returns (r: Result<PerStreamAttestation, AttestationError>)
    ensures r.Ok? <==> WellFormed(i)
    ensures r.Ok? ==> r.value == Attested(i)
    ensures r.Err? ==> FirstRefusal(i, r.error)
  {
    hide FirstRefusal, WellFormed, Attested;
    if !i.capabilityAdvertised { Refuses(i, 0, CapabilityAbsent); return Err(CapabilityAbsent); }
    if i.prefillNs.None? { Refuses(i, 1, VectorMissing(Prefill)); return Err(VectorMissing(Prefill)); }
    if i.decodeNs.None? { Refuses(i, 2, VectorMissing(Decode)); return Err(VectorMissing(Decode)); }
    var prefill, decode := i.prefillNs.value, i.decodeNs.value;
    if |prefill| != i.batchSize {
      Refuses(i, 3, VectorLength(Prefill, i.batchSize, |prefill|));
      return Err(VectorLength(Prefill, i.batchSize, |prefill|));
    }
    if |decode| != i.batchSize {
      Refuses(i, 4, VectorLength(Decode, i.batchSize, |decode|));
      return Err(VectorLength(Decode, i.batchSize, |decode|));
    }
    if |i.tokensLenByStream| != i.batchSize {
      Refuses(i, 5, TokensLenByStreamWidth(i.batchSize, |i.tokensLenByStream|));
      return Err(TokensLenByStreamWidth(i.batchSize, |i.tokensLenByStream|));
    }
    var zero := FirstZero(prefill);
    if zero.Some? {
      Refuses(i, 6, ZeroDuration(Prefill, zero.value));
      return Err(ZeroDuration(Prefill, zero.value));
    }
    zero := FirstZero(decode);
    if zero.Some? {
      Refuses(i, 7, ZeroDuration(Decode, zero.value));
      return Err(ZeroDuration(Decode, zero.value));
    }
    if !PositiveWindow(i.prefillWindow) {
      Refuses(i, 8, NonPositiveWindow(Prefill, i.prefillWindow));
      return Err(NonPositiveWindow(Prefill, i.prefillWindow));
    }
    if !PositiveWindow(i.decodeWindow) {
      Refuses(i, 9, NonPositiveWindow(Decode, i.decodeWindow));
      return Err(NonPositiveWindow(Decode, i.decodeWindow));
    }
    if i.rounds == 0 { Refuses(i, 10, ZeroRounds); return Err(ZeroRounds); }
    AllGuards(i);
    return Ok(Attested(i));
  }

  // ---- what the clauses mean together ----------------------------------------

  predicate Unflagged(clauses: seq<Clause>) {
    forall slot :: 0 <= slot < |clauses| ==> !clauses[slot].flagged
  }

  lemma RatioAgainstOne(x: real, y: real)
    requires 0.0 < y
    ensures 1.0 < x / y <==> y < x
    ensures x / y < 1.0 <==> x < y
  {
    assert (x / y) * y == x;
    if 1.0 < x / y { assert 1.0 * y < (x / y) * y; }
    if x / y < 1.0 { assert (x / y) * y < 1.0 * y; }
  }

  /** Bounding is unflagged exactly when no stream outlasts the window. */
  lemma BoundingMeans(ns: seq<nat>, windowNs: real)
    requires 0.0 < windowNs
    ensures Unflagged(Bounding(ns, windowNs))
            <==> forall slot :: 0 <= slot < |ns| ==> ns[slot] as real <= windowNs
  {
    forall slot | 0 <= slot < |ns|
      ensures Bounding(ns, windowNs)[slot].flagged <==> windowNs < ns[slot] as real
    {
      RatioAgainstOne(ns[slot] as real, windowNs);
    }
    assert |Bounding(ns, windowNs)| == |ns|;
    if forall slot :: 0 <= slot < |ns| ==> ns[slot] as real <= windowNs {
      assert forall slot :: 0 <= slot < |ns| ==> !Bounding(ns, windowNs)[slot].flagged;
    }
  }

  lemma FloorAgainstStep(ns: nat, kSlot: nat, stepNs: real)
    requires 0.0 < stepNs
    ensures FloorClause(ns, kSlot, stepNs).flagged <==> ns as real < kSlot as real * stepNs
  {
    var floorNs := kSlot as real * stepNs;
    if 0 < kSlot {
      PositiveProduct(kSlot as real, stepNs);
      RatioAgainstOne(ns as real, floorNs);
    }
  }

  lemma StepScales(x: real, k: real, w: real, r: real)
    requires 0.0 < r
    ensures x < k * (w / r) <==> x * r < k * w
  {
    assert (w / r) * r == w;
    MulAssoc(k, w / r, r);
    ScaleStrict(x, k * (w / r), r);
  }

  /** A floor is flagged exactly when the stream ran shorter than its tokens' share of the window. */
  lemma FloorMeans(ns: nat, kSlot: nat, windowNs: real, rounds: nat)
    requires 0.0 < windowNs && 0 < rounds
    ensures FloorClause(ns, kSlot, windowNs / rounds as real).flagged
            <==> ns as real * rounds as real < kSlot as real * windowNs
  {
    QuotientPositive(windowNs, rounds as real);
    FloorAgainstStep(ns, kSlot, windowNs / rounds as real);
    StepScales(ns as real, kSlot as real, windowNs, rounds as real);
  }

  lemma MulAssoc(x: real, y: real, z: real)
    ensures (x * y) * z == x * (y * z)
  {
  }

  lemma PositiveProduct(x: real, y: real)
    requires 0.0 < x && 0.0 < y
    ensures 0.0 < x * y
  {
  }

  lemma ScaleStrict(x: real, y: real, r: real)
    requires 0.0 < r
    ensures x < y <==> x * r < y * r
  {
    assert y * r - x * r == (y - x) * r;
    if x < y { PositiveProduct(y - x, r); }
    if y < x { PositiveProduct(x - y, r); }
  }

  /** A stream that committed more tokens than there were rounds cannot be inside the window and
      above its own floor at once. */
  lemma MoreTokensThanRounds(ns: nat, kSlot: nat, windowNs: real, rounds: nat)
    requires 0.0 < windowNs && 0 < rounds < kSlot
    requires ns as real <= windowNs
    ensures FloorClause(ns, kSlot, windowNs / rounds as real).flagged
  {
    FloorMeans(ns, kSlot, windowNs, rounds);
    var r, k := rounds as real, kSlot as real;
    ScaleStrict(r, k, windowNs);
    assert ns as real * r <= windowNs * r by {
      if windowNs * r < ns as real * r { ScaleStrict(windowNs, ns as real, r); }
    }
  }

  /** The leg attested is the leg the cohort verifier accepted: same width, token counts and rounds. */
  predicate AttestsCohort(i: Inputs, resp: CohortFreeRunResponse) {
    && i.batchSize == resp.batchSize
    && i.tokensLenByStream == resp.tokensLenByStream
    && i.rounds == resp.rounds
  }

  lemma SqueezeToWindow(x: real, w: real, r: real, n: real)
    requires 0.0 < w && 0.0 < r <= n
    ensures x <= w && n * w <= x * r <==> r == n && x == w
  {
    ScaleStrict(x, w, r);
    ScaleStrict(r, n, w);
  }

  /** One slot: inside the window and above the floor exactly when it fills the window and there was
      one round per token. */
  lemma SlotExact(x: nat, n: nat, w: real, rounds: nat)
    requires 0.0 < w && 0 < rounds <= n
    ensures x as real <= w && !FloorClause(x, n, w / rounds as real).flagged
            <==> rounds == n && x as real == w
  {
    FloorMeans(x, n, w, rounds);
    SqueezeToWindow(x as real, w, rounds as real, n as real);
  }

  lemma StreamsExact(ns: seq<nat>, kSlots: seq<nat>, n: nat, w: real, rounds: nat)
    requires 0.0 < w && 0 < rounds <= n && |ns| == |kSlots| && ns != []
    requires forall slot :: 0 <= slot < |kSlots| ==> kSlots[slot] == n
    ensures Unflagged(Bounding(ns, w)) && Unflagged(TokenCountFloor(ns, kSlots, w / rounds as real))
            <==> rounds == n && forall slot :: 0 <= slot < |ns| ==> ns[slot] as real == w
  {
    var step := w / rounds as real;
    var floor := TokenCountFloor(ns, kSlots, step);
    BoundingMeans(ns, w);
    forall slot | 0 <= slot < |ns|
      ensures ns[slot] as real <= w && !floor[slot].flagged <==> rounds == n && ns[slot] as real == w
    {
      SlotExact(ns[slot], n, w, rounds);
    }
    assert |floor| == |ns|;
    assert Unflagged(floor) ==> !floor[0].flagged;
    assert Unflagged(Bounding(ns, w)) ==> ns[0] as real <= w;
    if rounds == n && forall slot :: 0 <= slot < |ns| ==> ns[slot] as real == w {
      assert forall slot :: 0 <= slot < |floor| ==> !floor[slot].flagged;
    }
  }

  /** On a verified cohort whose rounds all committed something, decode bounding and the token-count
      floor are both unflagged exactly when every round committed one token and every stream filled
      the window to the nanosecond. */
  lemma BoundedAndFlooredExactly(resp: CohortFreeRunResponse, n: u32, completedWork: int, i: Inputs)
    requires CohortConsistent(resp, n, completedWork) && 0 < n
    requires forall round :: 0 <= round < |resp.acceptanceLengths| ==> 1 <= resp.acceptanceLengths[round]
    requires WellFormed(i) && AttestsCohort(i, resp)
    ensures i.decodeNs.Some? && |i.decodeNs.value| == i.batchSize && PositiveWindow(i.decodeWindow)
    ensures Unflagged(Attested(i).decodeBounding) && Unflagged(Attested(i).tokenCountFloor)
            <==> i.rounds == n && forall slot :: 0 <= slot < i.batchSize
                                                 ==> i.decodeNs.value[slot] as real == WindowNs(i.decodeWindow)
  {
    hide WellFormed;
    WellFormedMeans(i);
    LengthAtMostSum(resp.acceptanceLengths);
    if resp.batchSize == 0 {
      EmptyCohort(resp, n, completedWork);
    } else {
      PositiveProduct(i.decodeWindow.seconds, NANOS_PER_SECOND);
      StreamsExact(i.decodeNs.value, i.tokensLenByStream, n, WindowNs(i.decodeWindow), i.rounds);
    }
  }

  lemma {:induction false} ScaledSum(s: seq<nat>, ratios: seq<real>, d: real)
    requires 0.0 < d && |ratios| == |s|
    requires forall i :: 0 <= i < |s| ==> ratios[i] == s[i] as real / d
    ensures RealSum(ratios) * d == Sum(s) as real
  {
    if s != [] {
      ScaledSum(s[1..], ratios[1..], d);
      assert ratios[0] * d == s[0] as real;
      assert (ratios[0] + RealSum(ratios[1..])) * d == ratios[0] * d + RealSum(ratios[1..]) * d;
    }
  }

  lemma MeanRatioCancels(total: real, b: real, mean: real, ratios: real)
    requires 0.0 < mean && mean * b == total && ratios * mean == total
    ensures ratios == b
  {
    ScaleStrict(ratios, b, mean);
    ScaleStrict(b, ratios, mean);
  }

  lemma ScaledBack(ns: seq<nat>, mean: real)
    requires 0.0 < mean
    ensures RealSum(Scaled(ns, mean)) * mean == Sum(ns) as real
  {
    ScaledSum(ns, Scaled(ns, mean), mean);
  }

  /** The lockstep ratios always sum to the cohort width, so none can be compressed alone. */
  lemma LockstepSumsToWidth(ns: seq<nat>)
    requires AllPositive(ns)
    ensures RealSum(Lockstep(ns)) == |ns| as real
  {
    hide Scaled, RealSum, Sum;
    if ns == [] {
      NoLockstep();
    } else {
      LengthAtMostSum(ns);
      QuotientPositive(Sum(ns) as real, |ns| as real);
      var mean := Sum(ns) as real / |ns| as real;
      ScaledBack(ns, mean);
      MeanRatioCancels(Sum(ns) as real, |ns| as real, mean, RealSum(Lockstep(ns)));
    }
  }

  lemma NoLockstep()
    ensures RealSum(Lockstep([])) == 0.0
  {
  }

  /** Bounding and coverage of a phase are both unflagged exactly when the slowest stream fills the
      window and no stream outlasts it. */
  lemma BoundedAndCoveredExactly(ns: seq<nat>, windowNs: real)
    requires 0.0 < windowNs && ns != []
    ensures Unflagged(Bounding(ns, windowNs)) && !Coverage(ns, windowNs).flagged
            <==> Max(ns) as real == windowNs
  {
    BoundingMeans(ns, windowNs);
    RatioAgainstOne(Max(ns) as real, windowNs);
    var slowest :| 0 <= slowest < |ns| && ns[slowest] == Max(ns);
  }
}
