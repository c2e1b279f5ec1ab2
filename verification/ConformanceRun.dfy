/**
 Running the gates against an adversarial engine: what is asked, in what order, and what is reported
 (bench-core, conformance.rs).
 */
module ConformanceRun {
  import opened Wrappers
  import opened Sums
  import opened Conformance
  import Golden

  // ---- the engine ---------------------------------------------------------------------

  datatype Call =
    | Drain
    | TeacherForced(prompt: seq<int>, forced: seq<int>, steps: nat)
    | AnchorForward(context: seq<int>)
    | FreeRun(prompt: seq<int>, count: nat)

  /** Any engine at all: each answer may depend on everything it was asked before. */
  class Engine {
    var calls: seq<Call>
    const onDrain: seq<Call> -> Result<(), int>
    const onTeacherForced: seq<Call> -> Result<seq<AnchorOutput>, int>
    const onAnchor: seq<Call> -> Result<AnchorOutput, int>
    const onFreeRun: seq<Call> -> Result<seq<int>, int>

    constructor (onDrain: seq<Call> -> Result<(), int>, onTeacherForced: seq<Call> -> Result<seq<AnchorOutput>, int>,
                 onAnchor: seq<Call> -> Result<AnchorOutput, int>, onFreeRun: seq<Call> -> Result<seq<int>, int>)
      ensures calls == []
      ensures this.onDrain == onDrain && this.onTeacherForced == onTeacherForced
      ensures this.onAnchor == onAnchor && this.onFreeRun == onFreeRun
    {
      calls := [];
      this.onDrain, this.onTeacherForced, this.onAnchor, this.onFreeRun := onDrain, onTeacherForced, onAnchor, onFreeRun;
    }

    /** The failure, if any, with which the engine answers the last call of `history`. */
    function Failure(history: seq<Call>): Option<int>
      requires history != []
    {
      match history[|history| - 1]
      case Drain => FailureOf(onDrain(history))
      case TeacherForced(_, _, _) => FailureOf(onTeacherForced(history))
      case AnchorForward(_) => FailureOf(onAnchor(history))
      case FreeRun(_, _) => FailureOf(onFreeRun(history))
    }

    method DrainAllocator() returns (r: Result<(), int>)
      modifies this
      ensures calls == old(calls) + [Drain] && r == onDrain(calls)
    {
      calls := calls + [Drain];
      return onDrain(calls);
    }

    method RunTeacherForced(prompt: seq<int>, forced: seq<int>, steps: nat) returns (r: Result<seq<AnchorOutput>, int>)
      modifies this
      ensures calls == old(calls) + [TeacherForced(prompt, forced, steps)] && r == onTeacherForced(calls)
    {
      calls := calls + [TeacherForced(prompt, forced, steps)];
      return onTeacherForced(calls);
    }

    method RunAnchor(context: seq<int>) returns (r: Result<AnchorOutput, int>)
      modifies this
      ensures calls == old(calls) + [AnchorForward(context)] && r == onAnchor(calls)
    {
      calls := calls + [AnchorForward(context)];
      return onAnchor(calls);
    }

    method RunFree(prompt: seq<int>, count: nat) returns (r: Result<seq<int>, int>)
      modifies this
      ensures calls == old(calls) + [FreeRun(prompt, count)] && r == onFreeRun(calls)
    {
      calls := calls + [FreeRun(prompt, count)];
      return onFreeRun(calls);
    }
  }

  function FailureOf<T>(r: Result<T, int>): Option<int> {
    if r.Ok? then None else Some(r.error)
  }

  // ---- the plan -----------------------------------------------------------------------

  /** Every sequence on a freshly drained allocator. */
  function Drained(asks: seq<Call>): seq<Call> {
    if asks == [] then [] else Drained(asks[..|asks| - 1]) + [Drain, asks[|asks| - 1]]
  }

  lemma {:induction false} DrainedAlternates(asks: seq<Call>)
    ensures |Drained(asks)| == 2 * |asks|
    ensures forall i :: 0 <= i < |asks| ==> Drained(asks)[2 * i] == Drain && Drained(asks)[2 * i + 1] == asks[i]
  {
    if asks != [] {
      DrainedAlternates(asks[..|asks| - 1]);
    }
  }

  lemma {:induction false} DrainedJoins(a: seq<Call>, b: seq<Call>)
    ensures Drained(a + b) == Drained(a) + Drained(b)
    decreases |b|
  {
    if b == [] {
      assert a + b == a;
    } else {
      var shorter := b[..|b| - 1];
      assert (a + b)[..|a + b| - 1] == a + shorter;
      DrainedJoins(a, shorter);
      assert Drained(a) + Drained(shorter) + [Drain, b[|b| - 1]] == Drained(a) + Drained(b);
    }
  }

  lemma DrainedOneMore(asks: seq<Call>, k: nat)
    requires k < |asks|
    ensures Drained(asks[..k + 1]) == Drained(asks[..k]) + [Drain] + [asks[k]]
  {
    assert asks[..k + 1][..k] == asks[..k];
  }

  function BaseAsks(cases: seq<Golden.BaseCase>, steps: nat): seq<Call> {
    seq(|cases|, i requires 0 <= i < |cases| => TeacherForced(cases[i].prompt, cases[i].expected, steps))
  }

  function AnchorAsks(cases: seq<Golden.AnchorCase>): seq<Call> {
    seq(|cases|, i requires 0 <= i < |cases| => AnchorForward(cases[i].context))
  }

  function FreeRunAsks(cases: seq<Golden.FreeRunCase>): seq<Call> {
    seq(|cases|, i requires 0 <= i < |cases| => FreeRun(cases[i].prompt, |cases[i].expected|))
  }

  /** `history` is `before` and the first `k` drained asks, perhaps with the drain of the next one. */
  predicate AtStep(before: seq<Call>, asks: seq<Call>, k: nat, drained: bool, history: seq<Call>) {
    && k <= |asks| && (drained ==> k < |asks|)
    && history == before + Drained(asks[..k]) + if drained then [Drain] else []
  }

  ghost predicate Underway(before: seq<Call>, asks: seq<Call>, history: seq<Call>) {
    exists k: nat, drained: bool :: AtStep(before, asks, k, drained, history)
  }

  lemma NothingAsked(before: seq<Call>, asks: seq<Call>)
    ensures AtStep(before, asks, 0, false, before)
  {
  }

  lemma UnderwayThenMore(before: seq<Call>, asks: seq<Call>, more: seq<Call>, history: seq<Call>)
    requires Underway(before, asks, history)
    ensures Underway(before, asks + more, history)
  {
    var k: nat, drained: bool :| AtStep(before, asks, k, drained, history);
    assert (asks + more)[..k] == asks[..k];
    assert AtStep(before, asks + more, k, drained, history);
  }

  lemma UnderwayAfter(before: seq<Call>, done: seq<Call>, asks: seq<Call>, history: seq<Call>)
    requires Underway(before + Drained(done), asks, history)
    ensures Underway(before, done + asks, history)
  {
    hide Drained;
    var k: nat, drained: bool :| AtStep(before + Drained(done), asks, k, drained, history);
    assert (done + asks)[..|done| + k] == done + asks[..k];
    DrainedJoins(done, asks[..k]);
    assert before + Drained(done) + Drained(asks[..k]) == before + (Drained(done) + Drained(asks[..k]));
    assert AtStep(before, done + asks, |done| + k, drained, history);
  }

  // ---- errors and reports ----------------------------------------------------------------

  datatype RunError =
    | ShortCase(name: string, have: nat)
    | WrongOutputCount(name: string, got: nat)
    | EngineFailed(code: int)

  datatype Report = Report(base: seq<TeacherForcedResult>, anchors: seq<AnchorResult>, freeRun: seq<FreeRunResult>,
                           passed: bool)
  {
    function EvaluatedCaseCount(): nat { |base| + |anchors| + |freeRun| }
  }

  datatype Scope = BaseCasesOnly | Full

  /** `call` is the last thing asked. */
  predicate EndsWith(history: seq<Call>, call: Call) {
    history != [] && history[|history| - 1] == call
  }

  /** Why a run stopped: the error matches the last thing asked, or the case it would not ask for. */
  ghost predicate Explained(engine: Engine, cases: seq<Golden.BaseCase>, steps: nat, history: seq<Call>, e: RunError) {
    match e
    case ShortCase(name, have) =>
      exists i :: 0 <= i < |cases| && cases[i].name == name && |cases[i].expected| == have && have < steps
    case WrongOutputCount(name, got) =>
      && got != steps && engine.onTeacherForced(history).Ok? && |engine.onTeacherForced(history).value| == got
      && exists i :: 0 <= i < |cases| && cases[i].name == name
                     && EndsWith(history, TeacherForced(cases[i].prompt, cases[i].expected, steps))
    case EngineFailed(code) => history != [] && engine.Failure(history) == Some(code)
  }

  /** A gate stops for one reason only: the engine failed the last call. */
  ghost predicate GateStopped(engine: Engine, history: seq<Call>, e: RunError) {
    e.EngineFailed? && history != [] && engine.Failure(history) == Some(e.code)
  }

  /** A base result is the verdict on what the engine answered to the golden's own prompt and forced tokens. */
  ghost predicate BaseVerdictAt(engine: Engine, before: seq<Call>, cases: seq<Golden.BaseCase>, steps: nat, i: nat,
                                result: TeacherForcedResult)
    requires i < |cases|
  {
    && steps <= |cases[i].expected|
    && var history := before + Drained(BaseAsks(cases, steps)[..i + 1]); var answer := engine.onTeacherForced(history);
       EndsWith(history, TeacherForced(cases[i].prompt, cases[i].expected, steps))
       && answer.Ok? && |answer.value| == steps && IsTeacherForcedVerdict(cases[i], answer.value, steps, result)
  }

  ghost predicate AnchorVerdictAt(engine: Engine, before: seq<Call>, cases: seq<Golden.AnchorCase>, i: nat,
                                  result: AnchorResult)
    requires i < |cases|
  {
    var history := before + Drained(AnchorAsks(cases)[..i + 1]);
    var answer := engine.onAnchor(history);
    EndsWith(history, AnchorForward(cases[i].context)) && answer.Ok? && result == EvaluateAnchorCase(cases[i], answer.value)
  }

  ghost predicate FreeRunVerdictAt(engine: Engine, before: seq<Call>, cases: seq<Golden.FreeRunCase>, i: nat,
                                   result: FreeRunResult)
    requires i < |cases|
  {
    var history := before + Drained(FreeRunAsks(cases)[..i + 1]);
    var answer := engine.onFreeRun(history);
    && EndsWith(history, FreeRun(cases[i].prompt, |cases[i].expected|))
    && answer.Ok? && IsFreeRunVerdict(cases[i], answer.value, result)
  }

  ghost predicate BaseFaithful(engine: Engine, before: seq<Call>, cases: seq<Golden.BaseCase>, steps: nat,
                               results: seq<TeacherForcedResult>)
  {
    && |results| <= |cases|
    && forall i :: 0 <= i < |results| ==> BaseVerdictAt(engine, before, cases, steps, i, results[i])
  }

  ghost predicate AnchorsFaithful(engine: Engine, before: seq<Call>, cases: seq<Golden.AnchorCase>,
                                  results: seq<AnchorResult>)
  {
    && |results| <= |cases|
    && forall i :: 0 <= i < |results| ==> AnchorVerdictAt(engine, before, cases, i, results[i])
  }

  ghost predicate FreeRunsFaithful(engine: Engine, before: seq<Call>, cases: seq<Golden.FreeRunCase>,
                                   results: seq<FreeRunResult>)
  {
    && |results| <= |cases|
    && forall i :: 0 <= i < |results| ==> FreeRunVerdictAt(engine, before, cases, i, results[i])
  }

  // ---- the three passes --------------------------------------------------------------------

  /** Ask one base case: drain, force the golden tokens, judge the answer. */
  method RunBaseCase(engine: Engine, cases: seq<Golden.BaseCase>, steps: nat, i: nat, ghost before: seq<Call>)
    returns (r: Result<TeacherForcedResult, RunError>)
    requires i < |cases| && AtStep(before, BaseAsks(cases, steps), i, false, engine.calls)
    modifies engine
    ensures Underway(before, BaseAsks(cases, steps), engine.calls)
    ensures r.Ok? ==> AtStep(before, BaseAsks(cases, steps), i + 1, false, engine.calls)
    ensures r.Ok? ==> BaseVerdictAt(engine, before, cases, steps, i, r.value)
    ensures r.Err? ==> Explained(engine, cases, steps, engine.calls, r.error)
    ensures r.Err? ==> r.error.ShortCase? || |old(engine.calls)| < |engine.calls|
  {
    hide IsTeacherForcedVerdict, Drained;
    var c := cases[i];
    ghost var asks := BaseAsks(cases, steps);
    if |c.expected| < steps {
      return Err(ShortCase(c.name, |c.expected|));
    }
    DrainedOneMore(asks, i);
    var drained := engine.DrainAllocator();
    assert AtStep(before, asks, i, true, engine.calls);
    if drained.Err? {
      return Err(EngineFailed(drained.error));
    }
    var outputs := engine.RunTeacherForced(c.prompt, c.expected, steps);
    assert engine.calls == before + Drained(asks[..i + 1]);
    assert AtStep(before, asks, i + 1, false, engine.calls);
    if outputs.Err? {
      return Err(EngineFailed(outputs.error));
    }
    if |outputs.value| != steps {
      return Err(WrongOutputCount(c.name, |outputs.value|));
    }
    var verdict := EvaluateTeacherForcedCase(c, outputs.value, steps);
    return Ok(verdict);
  }

  method RunBaseCases(engine: Engine, cases: seq<Golden.BaseCase>, steps: nat)
    returns (r: Result<seq<TeacherForcedResult>, RunError>)
    modifies engine
    ensures Underway(old(engine.calls), BaseAsks(cases, steps), engine.calls)
    ensures r.Ok? ==> engine.calls == old(engine.calls) + Drained(BaseAsks(cases, steps))
    ensures r.Ok? ==> |r.value| == |cases| && BaseFaithful(engine, old(engine.calls), cases, steps, r.value)
    ensures r.Err? ==> Explained(engine, cases, steps, engine.calls, r.error)
    ensures r.Err? ==> r.error.ShortCase? || |old(engine.calls)| < |engine.calls|
  {
    hide BaseVerdictAt, Explained;
    ghost var before := engine.calls;
    ghost var asks := BaseAsks(cases, steps);
    NothingAsked(before, asks);
    var results := [];
    for i := 0 to |cases|
      invariant |results| == i
      invariant AtStep(before, asks, i, false, engine.calls)
      invariant BaseFaithful(engine, before, cases, steps, results)
    {
      var verdict := RunBaseCase(engine, cases, steps, i, before);
      if verdict.Err? {
        return Err(verdict.error);
      }
      results := results + [verdict.value];
    }
    assert asks[..|cases|] == asks;
    return Ok(results);
  }

  method RunAnchors(engine: Engine, cases: seq<Golden.AnchorCase>) returns (r: Result<seq<AnchorResult>, RunError>)
    modifies engine
    ensures Underway(old(engine.calls), AnchorAsks(cases), engine.calls)
    ensures r.Ok? ==> engine.calls == old(engine.calls) + Drained(AnchorAsks(cases))
    ensures r.Ok? ==> |r.value| == |cases| && AnchorsFaithful(engine, old(engine.calls), cases, r.value)
    ensures r.Err? ==> GateStopped(engine, engine.calls, r.error) && |old(engine.calls)| < |engine.calls|
  {
    hide EvaluateAnchorCase, Drained;
    ghost var before := engine.calls;
    ghost var asks := AnchorAsks(cases);
    NothingAsked(before, asks);
    var results := [];
    for i := 0 to |cases|
      invariant |results| == i
      invariant AtStep(before, asks, i, false, engine.calls)
      invariant AnchorsFaithful(engine, before, cases, results)
    {
      DrainedOneMore(asks, i);
      var drained := engine.DrainAllocator();
      assert AtStep(before, asks, i, true, engine.calls);
      if drained.Err? {
        return Err(EngineFailed(drained.error));
      }
      var output := engine.RunAnchor(cases[i].context);
      assert engine.calls == before + Drained(asks[..i + 1]);
      assert AtStep(before, asks, i + 1, false, engine.calls);
      if output.Err? {
        return Err(EngineFailed(output.error));
      }
      var result := EvaluateAnchorCase(cases[i], output.value);
      assert AnchorVerdictAt(engine, before, cases, i, result);
      results := results + [result];
    }
    assert asks[..|cases|] == asks;
    return Ok(results);
  }

  method RunFreeRuns(engine: Engine, cases: seq<Golden.FreeRunCase>) returns (r: Result<seq<FreeRunResult>, RunError>)
    modifies engine
    ensures Underway(old(engine.calls), FreeRunAsks(cases), engine.calls)
    ensures r.Ok? ==> engine.calls == old(engine.calls) + Drained(FreeRunAsks(cases))
    ensures r.Ok? ==> |r.value| == |cases| && FreeRunsFaithful(engine, old(engine.calls), cases, r.value)
    ensures r.Err? ==> GateStopped(engine, engine.calls, r.error) && |old(engine.calls)| < |engine.calls|
  {
    hide IsFreeRunVerdict, Drained;
    ghost var before := engine.calls;
    ghost var asks := FreeRunAsks(cases);
    NothingAsked(before, asks);
    var results := [];
    for i := 0 to |cases|
      invariant |results| == i
      invariant AtStep(before, asks, i, false, engine.calls)
      invariant FreeRunsFaithful(engine, before, cases, results)
    {
      DrainedOneMore(asks, i);
      var drained := engine.DrainAllocator();
      assert AtStep(before, asks, i, true, engine.calls);
      if drained.Err? {
        return Err(EngineFailed(drained.error));
      }
      var generated := engine.RunFree(cases[i].prompt, |cases[i].expected|);
      assert engine.calls == before + Drained(asks[..i + 1]);
      assert AtStep(before, asks, i + 1, false, engine.calls);
      if generated.Err? {
        return Err(EngineFailed(generated.error));
      }
      var verdict := EvaluateFreeRunCase(cases[i], generated.value);
      assert FreeRunVerdictAt(engine, before, cases, i, verdict);
      results := results + [verdict];
    }
    assert asks[..|cases|] == asks;
    return Ok(results);
  }

  // ---- the whole run ---------------------------------------------------------------------

  function ScopedAnchors(golden: Golden.Fixture, scope: Scope): seq<Golden.AnchorCase> {
    if scope == Full && golden.gates.Some? then golden.gates.value.AnchorCases() else []
  }

  function ScopedFreeRuns(golden: Golden.Fixture, scope: Scope): seq<Golden.FreeRunCase> {
    if scope == Full && golden.gates.Some? then golden.gates.value.FreeRunCases() else []
  }

  function AllAsks(golden: Golden.Fixture, steps: nat, scope: Scope): seq<Call> {
    BaseAsks(golden.cases, steps) + AnchorAsks(ScopedAnchors(golden, scope))
    + FreeRunAsks(ScopedFreeRuns(golden, scope))
  }

  /** The verdicts of a report in the order they were reached: passed or not, and the steps it checked. */
  datatype Verdict = Verdict(passed: bool, steps: nat)

  function Verdicts(report: Report): (v: seq<Verdict>)
    ensures |v| == report.EvaluatedCaseCount()
  {
    seq(|report.base|, i requires 0 <= i < |report.base| => Verdict(report.base[i].passed, report.base[i].checkedSteps))
    + seq(|report.anchors|, i requires 0 <= i < |report.anchors| =>
            Verdict(report.anchors[i].passed, report.anchors[i].checkedSteps))
    + seq(|report.freeRun|, i requires 0 <= i < |report.freeRun| =>
            Verdict(report.freeRun[i].passed, report.freeRun[i].checkedSteps))
  }

  predicate AllPassed(verdicts: seq<Verdict>) {
    forall i :: 0 <= i < |verdicts| ==> verdicts[i].passed
  }

  /** The report of a run that asked everything: one verdict a case, each on the answer given at that point. */
  ghost predicate Reported(engine: Engine, before: seq<Call>, golden: Golden.Fixture, steps: nat, scope: Scope,
                           report: Report)
  {
    var afterBase := before + Drained(BaseAsks(golden.cases, steps));
    var afterAnchors := afterBase + Drained(AnchorAsks(ScopedAnchors(golden, scope)));
    && |report.base| == |golden.cases|
    && |report.anchors| == |ScopedAnchors(golden, scope)|
    && |report.freeRun| == |ScopedFreeRuns(golden, scope)|
    && BaseFaithful(engine, before, golden.cases, steps, report.base)
    && AnchorsFaithful(engine, afterBase, ScopedAnchors(golden, scope), report.anchors)
    && FreeRunsFaithful(engine, afterAnchors, ScopedFreeRuns(golden, scope), report.freeRun)
    && (report.passed <==> AllPassed(Verdicts(report)))
  }

  /** How a run can end, and what it has asked by then. */
  ghost predicate IsOutcome(engine: Engine, before: seq<Call>, golden: Golden.Fixture, steps: nat, scope: Scope,
                            history: seq<Call>, r: Result<Report, RunError>)
  {
    && Underway(before, AllAsks(golden, steps, scope), history)
    && match r
       case Ok(report) =>
         && history == before + Drained(AllAsks(golden, steps, scope))
         && Reported(engine, before, golden, steps, scope, report)
       case Err(e) =>
         && Explained(engine, golden.cases, steps, history, e)
         && (e.ShortCase? || |before| < |history|)
  }

  /**
   The engine is asked the golden's cases in order, each on a drained allocator, and nothing else. A run that
   ends well asked all of them, and every reported result is the verdict on the answer given at that point.
   */
  method RunConformance(engine: Engine, golden: Golden.Fixture, steps: nat, scope: Scope)
    returns (r: Result<Report, RunError>)
    modifies engine
    ensures IsOutcome(engine, old(engine.calls), golden, steps, scope, engine.calls, r)
  {
    hide BaseFaithful, AnchorsFaithful, FreeRunsFaithful, Explained, Underway, Drained, BaseAsks, AnchorAsks,
         FreeRunAsks, AllPassed, Verdicts, ScopedAnchors, ScopedFreeRuns, GateStopped;
    ghost var before := engine.calls;
    ghost var baseAsks := BaseAsks(golden.cases, steps);
    var anchorCases, freeRunCases := ScopedAnchors(golden, scope), ScopedFreeRuns(golden, scope);
    ghost var anchorAsks, freeRunAsks := AnchorAsks(anchorCases), FreeRunAsks(freeRunCases);
    ghost var asks := AllAsks(golden, steps, scope);
    assert asks == baseAsks + (anchorAsks + freeRunAsks);

    var base := RunBaseCases(engine, golden.cases, steps);
    if base.Err? {
      UnderwayThenMore(before, baseAsks, anchorAsks + freeRunAsks, engine.calls);
      return Err(base.error);
    }
    var anchors := RunAnchors(engine, anchorCases);
    UnderwayAfter(before, baseAsks, anchorAsks, engine.calls);
    if anchors.Err? {
      UnderwayThenMore(before, baseAsks + anchorAsks, freeRunAsks, engine.calls);
      StoppedIsExplained(engine, golden.cases, steps, engine.calls, anchors.error);
      return Err(anchors.error);
    }
    DrainedJoins(baseAsks, anchorAsks);
    Regroup(before, Drained(baseAsks), Drained(anchorAsks));
    var freeRun := RunFreeRuns(engine, freeRunCases);
    UnderwayAfter(before, baseAsks + anchorAsks, freeRunAsks, engine.calls);
    if freeRun.Err? {
      StoppedIsExplained(engine, golden.cases, steps, engine.calls, freeRun.error);
      return Err(freeRun.error);
    }
    DrainedJoins(baseAsks + anchorAsks, freeRunAsks);
    Regroup(before, Drained(baseAsks + anchorAsks), Drained(freeRunAsks));
    var passed := (forall i :: 0 <= i < |base.value| ==> base.value[i].passed)
                  && (forall i :: 0 <= i < |anchors.value| ==> anchors.value[i].passed)
                  && (forall i :: 0 <= i < |freeRun.value| ==> freeRun.value[i].passed);
    var report := Report(base.value, anchors.value, freeRun.value, passed);
    PassedMeans(report);
    return Ok(report);
  }

  lemma StoppedIsExplained(engine: Engine, cases: seq<Golden.BaseCase>, steps: nat, history: seq<Call>, e: RunError)
    requires GateStopped(engine, history, e)
    ensures Explained(engine, cases, steps, history, e)
  {
  }

  lemma Regroup(a: seq<Call>, b: seq<Call>, c: seq<Call>)
    ensures a + b + c == a + (b + c)
  {
  }

  lemma PassedMeans(report: Report)
    ensures AllPassed(Verdicts(report))
            <==> (forall i :: 0 <= i < |report.base| ==> report.base[i].passed)
                 && (forall i :: 0 <= i < |report.anchors| ==> report.anchors[i].passed)
                 && (forall i :: 0 <= i < |report.freeRun| ==> report.freeRun[i].passed)
  {
    var v, b, a := Verdicts(report), |report.base|, |report.anchors|;
    assert forall i :: 0 <= i < b ==> v[i].passed == report.base[i].passed;
    assert forall i :: 0 <= i < a ==> v[b + i].passed == report.anchors[i].passed;
    assert forall i :: 0 <= i < |report.freeRun| ==> v[b + a + i].passed == report.freeRun[i].passed;
  }

  // ---- what a loaded golden adds ---------------------------------------------------------

  /** A golden accepted for `steps` steps never trips the runner's own short-case guard. */
  lemma LoadedGoldenIsNeverShort(engine: Engine, doc: Golden.Document, sha256: string, byteLength: nat,
                                 demands: Golden.Demands, history: seq<Call>, e: RunError)
    requires Golden.Acceptable(doc, sha256, byteLength, demands)
    requires Explained(engine, doc.cases, demands.steps, history, e)
    ensures !e.ShortCase?
  {
    Golden.AcceptedGoldenIsUnambiguous(doc, sha256, byteLength, demands);
  }

  /** Full scope evaluates every declared case but the behavior ones; the base scope only the base cases. */
  lemma ScopeDecidesCount(golden: Golden.Fixture, steps: nat, scope: Scope)
    ensures var behavior := if golden.gates.Some? then |golden.gates.value.BehaviorCases()| else 0;
            |AllAsks(golden, steps, scope)|
            == if scope == Full then golden.TotalCorrectnessCaseCount() - behavior else |golden.cases|
  {
  }

  // ---- checked steps ----------------------------------------------------------------------

  function StepsOf(verdicts: seq<Verdict>): (steps: seq<nat>)
    ensures |steps| == |verdicts| && forall i :: 0 <= i < |verdicts| ==> steps[i] == verdicts[i].steps
  {
    seq(|verdicts|, i requires 0 <= i < |verdicts| => verdicts[i].steps)
  }

  /** `k` cases are reached: those before the last of them passed, and the last failed or nothing is left. */
  predicate ReachesThrough(verdicts: seq<Verdict>, k: nat) {
    && k <= |verdicts|
    && (forall i :: 0 <= i < k - 1 ==> verdicts[i].passed)
    && (k < |verdicts| ==> 0 < k && !verdicts[k - 1].passed)
  }

  /** The first `k` cases passed, and `total` is what they checked. */
  ghost predicate CountedSoFar(verdicts: seq<Verdict>, k: nat, total: nat) {
    && k <= |verdicts| && (forall i :: 0 <= i < k ==> verdicts[i].passed)
    && total == Sum(StepsOf(verdicts)[..k])
  }

  ghost predicate IsCheckedSum(verdicts: seq<Verdict>, total: nat) {
    exists k: nat :: ReachesThrough(verdicts, k) && total == Sum(StepsOf(verdicts)[..k])
  }

  /** One more case: it either fails and ends the sum, or is counted like the rest. */
  lemma CountOneMore(verdicts: seq<Verdict>, k: nat, total: nat)
    requires CountedSoFar(verdicts, k, total) && k < |verdicts|
    ensures verdicts[k].passed ==> CountedSoFar(verdicts, k + 1, total + verdicts[k].steps)
    ensures !verdicts[k].passed ==> IsCheckedSum(verdicts, total + verdicts[k].steps)
  {
    var steps := StepsOf(verdicts);
    assert steps[..k + 1] == steps[..k] + [steps[k]];
    SumConcat(steps[..k], [steps[k]]);
    assert !verdicts[k].passed ==> ReachesThrough(verdicts, k + 1);
  }

  lemma CountedEverything(verdicts: seq<Verdict>, total: nat)
    ensures CountedSoFar(verdicts, 0, 0)
    ensures CountedSoFar(verdicts, |verdicts|, total) ==> IsCheckedSum(verdicts, total)
  {
    assert CountedSoFar(verdicts, |verdicts|, total) ==> ReachesThrough(verdicts, |verdicts|);
  }

  lemma VerdictsInOrder(report: Report)
    ensures var v, b, a := Verdicts(report), |report.base|, |report.base| + |report.anchors|;
            && |v| == a + |report.freeRun|
            && (forall i :: 0 <= i < b ==> v[i] == Verdict(report.base[i].passed, report.base[i].checkedSteps))
            && (forall i :: b <= i < a ==>
                  v[i] == Verdict(report.anchors[i - b].passed, report.anchors[i - b].checkedSteps))
            && (forall i :: a <= i < |v| ==>
                  v[i] == Verdict(report.freeRun[i - a].passed, report.freeRun[i - a].checkedSteps))
  {
  }

  /** The steps checked up to and including the first failing case: base cases, then anchors, then free runs. */
  method CheckedSteps(report: Report) returns (total: nat)
    ensures IsCheckedSum(Verdicts(report), total)
  {
    hide Verdicts, CountedSoFar, IsCheckedSum;
    ghost var verdicts, b, a := Verdicts(report), |report.base|, |report.base| + |report.anchors|;
    VerdictsInOrder(report);
    total := 0;
    CountedEverything(verdicts, 0);
    for i := 0 to |report.base|
      invariant CountedSoFar(verdicts, i, total)
    {
      CountOneMore(verdicts, i, total);
      total := total + report.base[i].checkedSteps;
      if !report.base[i].passed {
        return;
      }
    }
    for i := 0 to |report.anchors|
      invariant CountedSoFar(verdicts, b + i, total)
    {
      CountOneMore(verdicts, b + i, total);
      total := total + report.anchors[i].checkedSteps;
      if !report.anchors[i].passed {
        return;
      }
    }
    for i := 0 to |report.freeRun|
      invariant CountedSoFar(verdicts, a + i, total)
    {
      CountOneMore(verdicts, a + i, total);
      total := total + report.freeRun[i].checkedSteps;
      if !report.freeRun[i].passed {
        return;
      }
    }
    CountedEverything(verdicts, total);
  }

  /**
   The sum covers the whole report exactly when no case but the last fails; in particular whenever the report
   passed. Every case checks at least one step.
   */
  lemma CompleteUnlessCutShort(verdicts: seq<Verdict>, k: nat)
    requires ReachesThrough(verdicts, k) && forall i :: 0 <= i < |verdicts| ==> 1 <= verdicts[i].steps
    ensures Sum(StepsOf(verdicts)[..k]) == Sum(StepsOf(verdicts))
            <==> forall i :: 0 <= i < |verdicts| - 1 ==> verdicts[i].passed
    ensures AllPassed(verdicts) ==> k == |verdicts|
  {
    var steps := StepsOf(verdicts);
    assert steps == steps[..k] + steps[k..];
    SumConcat(steps[..k], steps[k..]);
    if k < |verdicts| {
      LengthAtMostSum(steps[k..]);
      assert !verdicts[k - 1].passed;
    } else {
      assert steps[k..] == [];
    }
  }

  /** Every case of a report on a loaded golden checked at least one step. */
  lemma EveryCaseChecksSomething(engine: Engine, golden: Golden.Fixture, demands: Golden.Demands, scope: Scope,
                                 report: Report, h0: seq<Call>, h1: seq<Call>, h2: seq<Call>)
    requires Golden.Acceptable(Golden.Document(Some(1), golden.modelType, golden.provenance, golden.cases, golden.gates,
                                               golden.benchmark), golden.sha256, golden.byteLength, demands)
    requires BaseFaithful(engine, h0, golden.cases, demands.steps, report.base)
    requires AnchorsFaithful(engine, h1, ScopedAnchors(golden, scope), report.anchors)
    requires FreeRunsFaithful(engine, h2, ScopedFreeRuns(golden, scope), report.freeRun)
    ensures forall i :: 0 <= i < |Verdicts(report)| ==> 1 <= Verdicts(report)[i].steps
  {
    hide Verdicts, Drained, Golden.InVocabulary, Golden.ValidName, StepAccepted;
    VerdictsInOrder(report);
    forall i | 0 <= i < |report.base| ensures 1 <= report.base[i].checkedSteps {
      assert BaseVerdictAt(engine, h0, golden.cases, demands.steps, i, report.base[i]);
    }
    forall i | 0 <= i < |report.anchors| ensures 1 <= report.anchors[i].checkedSteps {
      assert AnchorVerdictAt(engine, h1, ScopedAnchors(golden, scope), i, report.anchors[i]);
    }
    forall i | 0 <= i < |report.freeRun| ensures 1 <= report.freeRun[i].checkedSteps {
      var cases := ScopedFreeRuns(golden, scope);
      assert FreeRunVerdictAt(engine, h2, cases, i, report.freeRun[i]);
      var answer := engine.onFreeRun(h2 + Drained(FreeRunAsks(cases)[..i + 1]));
      FreeRunPassMeans(cases[i], demands.promptTokens, answer.value, report.freeRun[i]);
    }
  }
}
