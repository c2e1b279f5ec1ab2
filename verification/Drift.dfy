/**
 Every sequence of calls against the engine: which of them the session survives, and the drift between the
 two counters that its closes compare (bench-runner, session.rs and mock.rs).
 */
module Drift {
  import opened Wrappers
  import opened Protocol
  import opened Wire
  import opened Mock
  import opened FreeRun
  import opened SessionSpec
  import opened Coupling

  /** The timed steps the session issued and the forwards the engine counted since either was last reset. */
  datatype Tally = Tally(issued: int, work: int)

  function TallyOf(w: World): Tally
    requires w.peer.engine.Some?
  {
    Tally(w.session.issuedSteps, EngineWork(w))
  }

  /** How far the engine's counter has run ahead of the session's. */
  function DriftOf(t: Tally): int {
    t.work - t.issued
  }

  // ---- the bookkeeping, without a session --------------------------------------------

  predicate SpecRuns(config: MockConfig, spec: Option<SpecConfig>) {
    spec.Some? ==> Resolved(spec.value) && (spec.value.mode == SPEC_MODE_SERIAL || spec.value.mode in config.specModes)
  }

  predicate Drained(config: MockConfig) {
    config.cacheMemory.Some? ==> config.cacheMemory.value == 0
  }

  predicate IsClose(c: Call) {
    c.ClosePhase? || c.CloseFreeRunPhase? || c.CloseBatchedFreeRunPhase?
  }

  /** Does the session live on after this call? */
  predicate Survives(config: MockConfig, t: Tally, c: Call) {
    match c
    case DecodeBegin(_, spec) => SpecRuns(config, spec)
    case FreeDecodeBegin(_, spec) => CAPABILITY_FREE_RUN_DECODE in config.capabilities && SpecRuns(config, spec)
    case FreeDecodeRun(_) => CAPABILITY_FREE_RUN_DECODE in config.capabilities
    case FreeDecodeBeginBatched(_, _, spec) =>
      CAPABILITY_BATCHED_FREE_RUN_DECODE in config.capabilities && SpecRuns(config, spec)
    case FreeDecodeRunBatched(_, _) => CAPABILITY_BATCHED_FREE_RUN_DECODE in config.capabilities
    case CohortReferenceReplay(_, _) => CAPABILITY_COHORT_REFERENCE_REPLAY in config.capabilities
    case ClosePhase => Drained(config) && DriftOf(t) + config.completedWorkDelta == 0
    case CloseFreeRunPhase(run, n) => Drained(config) && Consistent(run, n, t.work + config.completedWorkDelta)
    case CloseBatchedFreeRunPhase(cohort, n) =>
      Drained(config) && CohortConsistent(cohort, n, t.work + config.completedWorkDelta)
    case _ => true
  }

  /** What a call the session survives does to the two counters. */
  function After(config: MockConfig, t: Tally, c: Call): Tally {
    match c
    case DecodeBegin(_, _) => Tally(t.issued + 1, t.work + 1)
    case DecodeStep(_) => Tally(t.issued + 1, t.work + 1)
    case CorrectnessBegin(_) => Tally(t.issued + 1, t.work + 1)
    case CorrectnessStep(_) => Tally(t.issued + 1, t.work + 1)
    case FreeDecodeBegin(_, _) => t.(work := t.work + 1)
    case FreeDecodeBeginBatched(_, _, _) => t.(work := t.work + 1)
    case FreeDecodeRun(n) => t.(work := t.work + |AcceptanceFor(config, n)|)
    case FreeDecodeRunBatched(n, _) => t.(work := t.work + |AcceptanceFor(config, n)|)
    case PhaseDiagnosticsRaw => t.(work := 0)
    case BeginPhase => t.(issued := 0)
    case _ => if IsClose(c) then Tally(0, 0) else t
  }

  predicate AllSurvive(config: MockConfig, t: Tally, calls: seq<Call>)
    decreases |calls|
  {
    calls != [] ==> Survives(config, t, calls[0]) && AllSurvive(config, After(config, t, calls[0]), calls[1..])
  }

  function Tallied(config: MockConfig, t: Tally, calls: seq<Call>): Tally
    decreases |calls|
  {
    if calls == [] then t else Tallied(config, After(config, t, calls[0]), calls[1..])
  }

  // ---- one call ----------------------------------------------------------------------

  /** The call left the two sides as the bookkeeping says: linked with these counters, or discarded. */
  predicate AsTallied(w: World, c: Call, after: World)
    requires w.peer.engine.Some?
  {
    if Survives(Config(w), TallyOf(w), c) then
      Linked(after) && Config(after) == Config(w) && TallyOf(after) == After(Config(w), TallyOf(w), c)
    else after.session.discarded
  }

  lemma RefusedIsTallied(w: World, c: Call)
    requires Linked(w) && Refusal(w.session, c).Some?
    ensures AsTallied(w, c, Exec(w, c).0)
  {
    hide Consistent, CohortConsistent, SendStep, SpecEchoHonorsRequest, JsonSubset;
  }

  lemma BeginIsTallied(w: World, c: Call)
    requires Linked(w) && Refusal(w.session, c).None?
    requires c.DecodeBegin? || c.FreeDecodeBegin? || c.FreeDecodeBeginBatched?
    ensures AsTallied(w, c, Exec(w, c).0)
  {
    hide SendStep, Consistent, CohortConsistent, Resolved;
    ExchangeSucceeds(w, RequestFor(c));
    SpecGateAndEcho(w, c.spec, EngineAnswer(w, RequestFor(c)));
  }

  lemma RunIsTallied(w: World, c: Call)
    requires Linked(w) && Refusal(w.session, c).None? && (c.FreeDecodeRun? || c.FreeDecodeRunBatched?)
    ensures AsTallied(w, c, Exec(w, c).0)
  {
    hide SendStep, Consistent, CohortConsistent;
    ExchangeSucceeds(w, RequestFor(c));
  }

  lemma CloseIsTallied(w: World, c: Call)
    requires Linked(w) && IsClose(c)
    ensures AsTallied(w, c, Exec(w, c).0)
  {
    hide SendStep, Consistent, CohortConsistent, AuditOf, CohortAuditOf;
    ExchangeSucceeds(w, RequestFor(c));
  }

  lemma PlainIsTallied(w: World, c: Call)
    requires Linked(w) && !IsLocal(c) && Refusal(w.session, c).None? && !IsClose(c)
    requires !(c.DecodeBegin? || c.FreeDecodeBegin? || c.FreeDecodeBeginBatched?)
    requires !(c.FreeDecodeRun? || c.FreeDecodeRunBatched?)
    ensures AsTallied(w, c, Exec(w, c).0)
  {
    hide SendStep, Consistent, CohortConsistent;
    ExchangeSucceeds(w, RequestFor(c));
  }

  lemma CallIsTallied(w: World, c: Call)
    requires Linked(w)
    ensures AsTallied(w, c, Exec(w, c).0)
  {
    if IsLocal(c) {
      LocalIsTallied(w, c);
    } else {
      hide AsTallied, Exec, Refusal;
      if Refusal(w.session, c).Some? {
        RefusedIsTallied(w, c);
      } else if IsClose(c) {
        CloseIsTallied(w, c);
      } else if c.DecodeBegin? || c.FreeDecodeBegin? || c.FreeDecodeBeginBatched? {
        BeginIsTallied(w, c);
      } else if c.FreeDecodeRun? || c.FreeDecodeRunBatched? {
        RunIsTallied(w, c);
      } else {
        PlainIsTallied(w, c);
      }
    }
  }

  lemma LocalIsTallied(w: World, c: Call)
    requires Linked(w) && IsLocal(c)
    ensures AsTallied(w, c, Exec(w, c).0)
  {
    hide SendStep, Consistent, CohortConsistent;
  }

  // ---- every run ---------------------------------------------------------------------

  /**
   For every engine and every sequence of calls, free runs, raw diagnostics, mid-phase begin_phase and closes in any
   order: the session is live at the end exactly when the bookkeeping lets it survive every call, and then both
   counters are the tallied ones.
   */
  lemma {:induction false} EveryRunIsTallied(w: World, calls: seq<Call>)
    requires Linked(w)
    ensures !Run(w, calls).session.discarded <==> AllSurvive(Config(w), TallyOf(w), calls)
    ensures AllSurvive(Config(w), TallyOf(w), calls) ==>
              && Linked(Run(w, calls)) && Config(Run(w, calls)) == Config(w)
              && TallyOf(Run(w, calls)) == Tallied(Config(w), TallyOf(w), calls)
    decreases |calls|
  {
    hide Exec, Survives, After;
    if calls != [] {
      var after := Exec(w, calls[0]).0;
      CallIsTallied(w, calls[0]);
      if Survives(Config(w), TallyOf(w), calls[0]) {
        EveryRunIsTallied(after, calls[1..]);
      } else {
        DiscardIsForever(after, calls[1..]);
      }
    }
  }

  /**
   After any such run the next close succeeds exactly when the drift is zero, as the engine reports it with a drained
   cache; a drained engine's refusal names both counters and discards the session.
   */
  lemma DriftDecidesClose(w: World, calls: seq<Call>)
    requires Linked(w) && AllSurvive(Config(w), TallyOf(w), calls)
    ensures var config, t := Config(w), Tallied(Config(w), TallyOf(w), calls);
            var (after, r) := Exec(Run(w, calls), ClosePhase);
            && (r.Ok? <==> Drained(config) && DriftOf(t) + config.completedWorkDelta == 0)
            && (r.Ok? ==> Coupled(after) && after.session.issuedSteps == 0)
            && (r.Err? ==> after.session.discarded)
            && (r.Err? && Drained(config) ==>
                  r == Err(CompletedWorkMismatch(t.issued, Some(t.work + config.completedWorkDelta))))
  {
    EveryRunIsTallied(w, calls);
    CloseOutcome(Run(w, calls));
  }

  lemma CloseOutcome(w: World)
    requires Linked(w)
    ensures var (after, r) := Exec(w, ClosePhase); var config := Config(w);
            && (r.Ok? <==> Drained(config) && DriftOf(TallyOf(w)) + config.completedWorkDelta == 0)
            && (r.Ok? ==> Coupled(after) && after.session.issuedSteps == 0)
            && (r.Err? ==> after.session.discarded)
            && (r.Err? && Drained(config) ==>
                  r == Err(CompletedWorkMismatch(w.session.issuedSteps, Some(EngineWork(w) + config.completedWorkDelta))))
  {
    hide SendStep;
    ExchangeSucceeds(w, RequestFor(ClosePhase));
  }

  // ---- where the drift comes from -------------------------------------------------------

  /** Calls that reset a counter. */
  predicate Resets(c: Call) {
    c.PhaseDiagnosticsRaw? || c.BeginPhase? || IsClose(c)
  }

  /** The forwards of the free-run calls, which the session does not count. */
  function UncountedForwards(config: MockConfig, calls: seq<Call>): nat {
    if calls == [] then 0
    else
      (match calls[0]
       case FreeDecodeBegin(_, _) => 1
       case FreeDecodeBeginBatched(_, _, _) => 1
       case FreeDecodeRun(n) => |AcceptanceFor(config, n)|
       case FreeDecodeRunBatched(n, _) => |AcceptanceFor(config, n)|
       case _ => 0)
      + UncountedForwards(config, calls[1..])
  }

  /** Between resets the drift grows by exactly the forwards of the free-run calls, in whatever order the rest comes. */
  lemma {:induction false} DriftIsUncounted(config: MockConfig, t: Tally, calls: seq<Call>)
    requires forall i :: 0 <= i < |calls| ==> !Resets(calls[i])
    ensures DriftOf(Tallied(config, t, calls)) == DriftOf(t) + UncountedForwards(config, calls)
    decreases |calls|
  {
    if calls != [] {
      DriftIsUncounted(config, After(config, t, calls[0]), calls[1..]);
    }
  }

  /**
   A phase that starts at a boundary and resets nothing closes by `close_phase` exactly when no free-run call cost a
   forward: mixing the two regimes in one phase is always caught.
   */
  lemma UnresetPhaseCloses(w: World, calls: seq<Call>)
    requires Coupled(w) && Conformant(Config(w)) && AllSurvive(Config(w), TallyOf(w), calls)
    requires forall i :: 0 <= i < |calls| ==> !Resets(calls[i])
    ensures Exec(Run(w, calls), ClosePhase).1.Ok? <==> UncountedForwards(Config(w), calls) == 0
  {
    hide Exec;
    DriftDecidesClose(w, calls);
    DriftIsUncounted(Config(w), TallyOf(w), calls);
  }
}
