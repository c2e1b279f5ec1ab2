/** Loading a correctness golden: what an accepted fixture guarantees to the gate runner (bench-core, golden.rs). */
module Golden {
  import opened Wrappers
  import opened Floats
  import opened Text
  import opened Constants

  datatype BaseCase = BaseCase(name: string, prompt: seq<int>, expected: seq<int>)

  datatype AnchorCase = AnchorCase(name: string, context: seq<int>, expectedToken: int, accepted: Option<seq<int>>,
                                   maxRank: Option<nat>, maxDelta: Option<Float>)

  datatype FreeRunCase = FreeRunCase(name: string, prompt: seq<int>, expected: seq<int>, exactPrefix: Option<nat>)

  datatype BehaviorCase = BehaviorCase(name: string, prompt: seq<int>, acceptedSequences: seq<seq<int>>,
                                       maxNewTokens: nat)

  datatype Gates = Gates(anchors: Option<seq<AnchorCase>>, freeRun: Option<seq<FreeRunCase>>,
                         behavior: Option<seq<BehaviorCase>>)
  {
    function AnchorCases(): seq<AnchorCase> { if anchors.Some? then anchors.value else [] }
    function FreeRunCases(): seq<FreeRunCase> { if freeRun.Some? then freeRun.value else [] }
    function BehaviorCases(): seq<BehaviorCase> { if behavior.Some? then behavior.value else [] }
    function TotalCaseCount(): nat { |AnchorCases()| + |FreeRunCases()| + |BehaviorCases()| }
  }

  datatype Benchmark = Benchmark(prefillPrompt: seq<int>, prefillToken: int, decodeSeed: seq<int>, seedToken: int,
                                 expectedDecode: seq<int>, baselinePrefill: Option<Float>, baselineDecode: Option<Float>)

  datatype Provenance = Provenance(repository: string, revision: string)

  datatype IntegrityPin = IntegrityPin(sha256: string, bytes: nat)

  datatype Document = Document(version: Option<int>, modelType: Option<string>, provenance: Option<Provenance>,
                               cases: seq<BaseCase>, gates: Option<Gates>, benchmark: Option<Benchmark>)

  datatype Fixture = Fixture(modelType: Option<string>, provenance: Option<Provenance>, cases: seq<BaseCase>,
                             gates: Option<Gates>, benchmark: Option<Benchmark>, sha256: string, byteLength: nat)
  {
    function TotalCorrectnessCaseCount(): nat {
      |cases| + if gates.Some? then gates.value.TotalCaseCount() else 0
    }
  }

  /** The one way a load fails; the message is not part of this model. */
  datatype GoldenError = InvalidInput

  type Checked = Result<(), GoldenError>

  // ---- names and tokens ---------------------------------------------------------------

  /** Unicode White_Space. */
  predicate IsWhitespace(c: char) {
    '\U{9}' <= c <= '\U{D}' || c == ' ' || c == '\U{85}' || c == '\U{A0}' || c == '\U{1680}'
    || '\U{2000}' <= c <= '\U{200A}' || c == '\U{2028}' || c == '\U{2029}' || c == '\U{202F}' || c == '\U{205F}'
    || c == '\U{3000}'
  }

  /** Unicode general category Cc. */
  predicate IsCategoryCc(c: char) {
    c <= '\U{1F}' || '\U{7F}' <= c <= '\U{9F}'
  }

  predicate IsTrimmed(s: string) {
    Trim(s, IsWhitespace) != "" && s == Trim(s, IsWhitespace)
  }

  predicate ValidName(name: string) {
    IsTrimmed(name) && forall c :: c in name ==> !IsCategoryCc(c)
  }

  predicate InVocabulary(tokens: seq<int>) {
    forall i :: 0 <= i < |tokens| ==> 0 <= tokens[i] < VOCAB_SIZE
  }

  predicate Distinct(names: seq<string>) {
    forall i, j :: 0 <= i < j < |names| ==> names[i] != names[j]
  }

  predicate Apart(a: seq<string>, b: seq<string>) {
    forall i, j :: 0 <= i < |a| && 0 <= j < |b| ==> a[i] != b[j]
  }

  lemma DistinctJoin(a: seq<string>, b: seq<string>)
    ensures Distinct(a + b) <==> Distinct(a) && Distinct(b) && Apart(a, b)
  {
    if Distinct(a + b) {
      assert forall i :: 0 <= i < |a| ==> (a + b)[i] == a[i];
      assert forall j :: 0 <= j < |b| ==> (a + b)[|a| + j] == b[j];
    }
  }

  lemma ApartFromBoth(x: seq<string>, a: seq<string>, b: seq<string>)
    ensures Apart(x, a + b) <==> Apart(x, a) && Apart(x, b)
  {
    if Apart(x, a + b) {
      assert forall i :: 0 <= i < |a| ==> (a + b)[i] == a[i];
      assert forall j :: 0 <= j < |b| ==> (a + b)[|a| + j] == b[j];
    }
  }

  lemma ApartSplits(a: seq<string>, b: seq<string>, x: seq<string>)
    ensures Apart(a + b, x) <==> Apart(a, x) && Apart(b, x)
  {
    if Apart(a + b, x) {
      assert forall i :: 0 <= i < |a| ==> (a + b)[i] == a[i];
      assert forall j :: 0 <= j < |b| ==> (a + b)[|a| + j] == b[j];
    }
  }

  method ValidateTokens(tokens: seq<int>) returns (r: Checked)
    ensures r.Ok? <==> InVocabulary(tokens)
  {
    for i := 0 to |tokens|
      invariant InVocabulary(tokens[..i])
    {
      if tokens[i] < 0 || VOCAB_SIZE <= tokens[i] {
        return Err(InvalidInput);
      }
    }
    return Ok(());
  }

  // ---- base cases ------------------------------------------------------------------

  function BaseNames(cases: seq<BaseCase>): seq<string> {
    seq(|cases|, i requires 0 <= i < |cases| => cases[i].name)
  }

  predicate ValidBaseCase(c: BaseCase, steps: nat, promptTokens: nat) {
    && ValidName(c.name)
    && |c.prompt| == promptTokens && steps <= |c.expected|
    && InVocabulary(c.prompt) && InVocabulary(c.expected)
  }

  predicate ValidBaseCases(cases: seq<BaseCase>, steps: nat, promptTokens: nat) {
    && cases != []
    && (forall i :: 0 <= i < |cases| ==> ValidBaseCase(cases[i], steps, promptTokens))
    && Distinct(BaseNames(cases))
  }

  method ValidateGoldenCases(cases: seq<BaseCase>, steps: nat, promptTokens: nat) returns (r: Checked)
    ensures r.Ok? <==> ValidBaseCases(cases, steps, promptTokens)
  {
    if cases == [] {
      return Err(InvalidInput);
    }
    var names: set<string> := {};
    ghost var listed := BaseNames(cases);
    for i := 0 to |cases|
      invariant forall n :: n in names <==> n in listed[..i]
      invariant forall k :: 0 <= k < i ==> ValidBaseCase(cases[k], steps, promptTokens)
      invariant forall k, l :: 0 <= k < l < i ==> listed[k] != listed[l]
    {
      var c := cases[i];
      assert listed[..i + 1] == listed[..i] + [listed[i]] && listed[i] == c.name;
      if !ValidName(c.name) || c.name in names {
        return Err(InvalidInput);
      }
      names := names + {c.name};
      if |c.prompt| != promptTokens || |c.expected| < steps {
        return Err(InvalidInput);
      }
      var prompt := ValidateTokens(c.prompt);
      var expected := ValidateTokens(c.expected);
      if prompt.Err? || expected.Err? {
        return Err(InvalidInput);
      }
    }
    return Ok(());
  }

  // ---- anchors ---------------------------------------------------------------------

  function AnchorNames(cases: seq<AnchorCase>): seq<string> {
    seq(|cases|, i requires 0 <= i < |cases| => cases[i].name)
  }

  predicate ValidDelta(delta: Float) {
    delta.Finite? && 0.0 <= delta.value
  }

  predicate ValidAnchorCase(c: AnchorCase) {
    && ValidName(c.name)
    && 0 < |c.context| <= MAX_ANCHOR_CONTEXT_TOKENS && InVocabulary(c.context)
    && InVocabulary([c.expectedToken])
    && (c.accepted.Some? ==> c.accepted.value != [] && InVocabulary(c.accepted.value))
    && (c.maxRank.Some? ==> 1 <= c.maxRank.value <= TOP_LOGITS)
    && (c.maxDelta.Some? ==> ValidDelta(c.maxDelta.value) && c.maxRank.Some?)
  }

  predicate ValidAnchorCases(cases: seq<AnchorCase>) {
    && (forall i :: 0 <= i < |cases| ==> ValidAnchorCase(cases[i]))
    && Distinct(AnchorNames(cases))
  }

  method ValidateAnchorCase(c: AnchorCase) returns (r: Checked)
    requires ValidName(c.name)
    ensures r.Ok? <==> ValidAnchorCase(c)
  {
    if c.context == [] || MAX_ANCHOR_CONTEXT_TOKENS < |c.context| {
      return Err(InvalidInput);
    }
    var context := ValidateTokens(c.context);
    var expected := ValidateTokens([c.expectedToken]);
    if context.Err? || expected.Err? {
      return Err(InvalidInput);
    }
    if c.accepted.Some? {
      if c.accepted.value == [] {
        return Err(InvalidInput);
      }
      var accepted := ValidateTokens(c.accepted.value);
      if accepted.Err? {
        return Err(InvalidInput);
      }
    }
    if c.maxRank.Some? && (c.maxRank.value == 0 || TOP_LOGITS < c.maxRank.value) {
      return Err(InvalidInput);
    }
    if c.maxDelta.Some? {
      if !c.maxDelta.value.Finite? || c.maxDelta.value.value < 0.0 || c.maxRank.None? {
        return Err(InvalidInput);
      }
    }
    return Ok(());
  }

  method ValidateGoldenAnchorCases(cases: seq<AnchorCase>) returns (r: Checked)
    ensures r.Ok? <==> ValidAnchorCases(cases)
  {
    hide ValidName, InVocabulary;
    var names: set<string> := {};
    ghost var listed := AnchorNames(cases);
    for i := 0 to |cases|
      invariant forall n :: n in names <==> n in listed[..i]
      invariant forall k :: 0 <= k < i ==> ValidAnchorCase(cases[k])
      invariant forall k, l :: 0 <= k < l < i ==> listed[k] != listed[l]
    {
      var c := cases[i];
      assert listed[..i + 1] == listed[..i] + [listed[i]] && listed[i] == c.name;
      if !ValidName(c.name) || c.name in names {
        return Err(InvalidInput);
      }
      names := names + {c.name};
      var checked := ValidateAnchorCase(c);
      if checked.Err? {
        return checked;
      }
    }
    return Ok(());
  }

  // ---- free runs -------------------------------------------------------------------

  function FreeRunNames(cases: seq<FreeRunCase>): seq<string> {
    seq(|cases|, i requires 0 <= i < |cases| => cases[i].name)
  }

  predicate ValidFreeRunCase(c: FreeRunCase, promptTokens: nat) {
    && ValidName(c.name)
    && |c.prompt| == promptTokens && 0 < |c.expected| <= MAX_FREE_RUN_STEPS
    && (c.exactPrefix.Some? ==> 1 <= c.exactPrefix.value <= |c.expected|)
    && InVocabulary(c.prompt) && InVocabulary(c.expected)
  }

  predicate ValidFreeRunCases(cases: seq<FreeRunCase>, promptTokens: nat) {
    && (forall i :: 0 <= i < |cases| ==> ValidFreeRunCase(cases[i], promptTokens))
    && Distinct(FreeRunNames(cases))
  }

  method ValidateGoldenFreeRunCases(cases: seq<FreeRunCase>, promptTokens: nat) returns (r: Checked)
    ensures r.Ok? <==> ValidFreeRunCases(cases, promptTokens)
  {
    hide ValidName, InVocabulary;
    var names: set<string> := {};
    ghost var listed := FreeRunNames(cases);
    for i := 0 to |cases|
      invariant forall n :: n in names <==> n in listed[..i]
      invariant forall k :: 0 <= k < i ==> ValidFreeRunCase(cases[k], promptTokens)
      invariant forall k, l :: 0 <= k < l < i ==> listed[k] != listed[l]
    {
      var c := cases[i];
      assert listed[..i + 1] == listed[..i] + [listed[i]] && listed[i] == c.name;
      if !ValidName(c.name) || c.name in names {
        return Err(InvalidInput);
      }
      names := names + {c.name};
      if |c.prompt| != promptTokens || c.expected == [] || MAX_FREE_RUN_STEPS < |c.expected| {
        return Err(InvalidInput);
      }
      if c.exactPrefix.Some? && (c.exactPrefix.value == 0 || |c.expected| < c.exactPrefix.value) {
        return Err(InvalidInput);
      }
      var prompt := ValidateTokens(c.prompt);
      var expected := ValidateTokens(c.expected);
      if prompt.Err? || expected.Err? {
        return Err(InvalidInput);
      }
    }
    return Ok(());
  }

  // ---- behavior ----------------------------------------------------------------------

  function BehaviorNames(cases: seq<BehaviorCase>): seq<string> {
    seq(|cases|, i requires 0 <= i < |cases| => cases[i].name)
  }

  predicate ValidBehaviorCase(c: BehaviorCase) {
    && ValidName(c.name)
    && 0 < |c.prompt| <= MAX_BEHAVIOR_PROMPT_TOKENS && InVocabulary(c.prompt)
    && 1 <= c.maxNewTokens <= MAX_BEHAVIOR_STEPS
    && c.acceptedSequences != []
    && forall k :: 0 <= k < |c.acceptedSequences| ==>
         0 < |c.acceptedSequences[k]| <= c.maxNewTokens && InVocabulary(c.acceptedSequences[k])
  }

  predicate ValidBehaviorCases(cases: seq<BehaviorCase>) {
    && (forall i :: 0 <= i < |cases| ==> ValidBehaviorCase(cases[i]))
    && Distinct(BehaviorNames(cases))
  }

  method ValidateBehaviorCase(c: BehaviorCase) returns (r: Checked)
    requires ValidName(c.name)
    ensures r.Ok? <==> ValidBehaviorCase(c)
  {
    if c.prompt == [] || MAX_BEHAVIOR_PROMPT_TOKENS < |c.prompt| {
      return Err(InvalidInput);
    }
    if c.maxNewTokens == 0 || MAX_BEHAVIOR_STEPS < c.maxNewTokens || c.acceptedSequences == [] {
      return Err(InvalidInput);
    }
    for k := 0 to |c.acceptedSequences|
      invariant forall l :: 0 <= l < k ==>
                  0 < |c.acceptedSequences[l]| <= c.maxNewTokens && InVocabulary(c.acceptedSequences[l])
    {
      var accepted := c.acceptedSequences[k];
      if accepted == [] || c.maxNewTokens < |accepted| {
        return Err(InvalidInput);
      }
      var checked := ValidateTokens(accepted);
      if checked.Err? {
        return checked;
      }
    }
    r := ValidateTokens(c.prompt);
  }

  method ValidateGoldenBehaviorCases(cases: seq<BehaviorCase>) returns (r: Checked)
    ensures r.Ok? <==> ValidBehaviorCases(cases)
  {
    hide ValidName, InVocabulary;
    var names: set<string> := {};
    ghost var listed := BehaviorNames(cases);
    for i := 0 to |cases|
      invariant forall n :: n in names <==> n in listed[..i]
      invariant forall k :: 0 <= k < i ==> ValidBehaviorCase(cases[k])
      invariant forall k, l :: 0 <= k < l < i ==> listed[k] != listed[l]
    {
      var c := cases[i];
      assert listed[..i + 1] == listed[..i] + [listed[i]] && listed[i] == c.name;
      if !ValidName(c.name) || c.name in names {
        return Err(InvalidInput);
      }
      names := names + {c.name};
      var checked := ValidateBehaviorCase(c);
      if checked.Err? {
        return checked;
      }
    }
    return Ok(());
  }

  // ---- the gates together --------------------------------------------------------------

  function LayeredNames(gates: Gates): seq<string> {
    AnchorNames(gates.AnchorCases()) + FreeRunNames(gates.FreeRunCases()) + BehaviorNames(gates.BehaviorCases())
  }

  /** Layered names repeat neither each other nor a base name; repeated base names are not this check's concern. */
  method ValidateUniqueLayeredCaseNames(base: seq<BaseCase>, gates: Gates) returns (r: Checked)
    ensures r.Ok? <==> Distinct(LayeredNames(gates)) && Apart(BaseNames(base), LayeredNames(gates))
  {
    hide LayeredNames;
    var names: set<string> := {};
    ghost var before := BaseNames(base);
    for i := 0 to |base|
      invariant forall n :: n in names <==> n in before[..i]
    {
      assert before[..i + 1] == before[..i] + [before[i]];
      names := names + {base[i].name};
    }
    assert before[..|base|] == before;
    r := InsertEach(names, before, LayeredNames(gates));
  }

  /** Insert each name in turn, refusing the first that is there already. */
  method InsertEach(taken: set<string>, ghost before: seq<string>, layered: seq<string>) returns (r: Checked)
    requires forall n :: n in taken <==> n in before
    ensures r.Ok? <==> Distinct(layered) && Apart(before, layered)
  {
    var names := taken;
    for i := 0 to |layered|
      invariant forall n :: n in names <==> n in taken || n in layered[..i]
      invariant forall k, l :: 0 <= k < l < i ==> layered[k] != layered[l]
      invariant forall l :: 0 <= l < i ==> layered[l] !in taken
    {
      assert layered[..i + 1] == layered[..i] + [layered[i]];
      if layered[i] in names {
        return Err(InvalidInput);
      }
      names := names + {layered[i]};
    }
    return Ok(());
  }

  predicate ValidGates(gates: Gates, base: seq<BaseCase>, promptTokens: nat) {
    && (gates.anchors.Some? || gates.freeRun.Some? || gates.behavior.Some?)
    && gates.anchors != Some([]) && gates.freeRun != Some([]) && gates.behavior != Some([])
    && ValidAnchorCases(gates.AnchorCases())
    && ValidFreeRunCases(gates.FreeRunCases(), promptTokens)
    && ValidBehaviorCases(gates.BehaviorCases())
    && Distinct(LayeredNames(gates)) && Apart(BaseNames(base), LayeredNames(gates))
  }

  method ValidateGoldenCorrectnessGates(gates: Gates, base: seq<BaseCase>, promptTokens: nat) returns (r: Checked)
    ensures r.Ok? <==> ValidGates(gates, base, promptTokens)
  {
    if gates.anchors.None? && gates.freeRun.None? && gates.behavior.None? {
      return Err(InvalidInput);
    }
    if gates.anchors == Some([]) || gates.freeRun == Some([]) || gates.behavior == Some([]) {
      return Err(InvalidInput);
    }
    var anchors := ValidateGoldenAnchorCases(gates.AnchorCases());
    var freeRun := ValidateGoldenFreeRunCases(gates.FreeRunCases(), promptTokens);
    var behavior := ValidateGoldenBehaviorCases(gates.BehaviorCases());
    var layered := ValidateUniqueLayeredCaseNames(base, gates);
    if anchors.Err? || freeRun.Err? || behavior.Err? || layered.Err? {
      return Err(InvalidInput);
    }
    return Ok(());
  }

  // ---- the loader ----------------------------------------------------------------------

  predicate PositiveBaseline(x: Float) {
    x.Finite? && 0.0 < x.value
  }

  /** Both baselines or neither. */
  predicate ValidBaselines(b: Benchmark) {
    match (b.baselinePrefill, b.baselineDecode)
    case (None, None) => true
    case (Some(prefill), Some(decode)) => PositiveBaseline(prefill) && PositiveBaseline(decode)
    case _ => false
  }

  predicate ValidBenchmark(b: Benchmark) {
    && |b.prefillPrompt| == PREFILL_PROMPT_TOKENS && |b.decodeSeed| == DECODE_SEED_TOKENS
    && DECODE_STEPS <= |b.expectedDecode|
    && InVocabulary(b.prefillPrompt) && InVocabulary([b.prefillToken]) && InVocabulary(b.decodeSeed)
    && InVocabulary([b.seedToken]) && InVocabulary(b.expectedDecode)
    && ValidBaselines(b)
  }

  predicate IsRevision(s: string) {
    |s| == 40 && forall c :: c in s ==> '0' <= c <= '9' || 'a' <= c <= 'f'
  }

  predicate ValidProvenance(p: Provenance) {
    p.repository != "" && IsRevision(p.revision)
  }

  /** The pinned identity: exact byte count, digest up to ASCII case and padding around the pin's own copy. */
  predicate MatchesPin(sha256: string, byteLength: nat, pin: IntegrityPin) {
    byteLength == pin.bytes && Lower(sha256) == Lower(Trim(pin.sha256, IsWhitespace))
  }

  /** What the caller of a load asks for. */
  datatype Demands = Demands(steps: nat, promptTokens: nat, modelType: Option<string>, pin: Option<IntegrityPin>,
                             referenceModel: Option<Provenance>)

  predicate Acceptable(doc: Document, sha256: string, byteLength: nat, demands: Demands) {
    && (demands.pin.Some? ==> MatchesPin(sha256, byteLength, demands.pin.value))
    && 0 < demands.steps && 0 < demands.promptTokens
    && doc.version == Some(1)
    && (doc.modelType.Some? ==> IsTrimmed(doc.modelType.value))
    && (demands.modelType.Some? ==> doc.modelType == demands.modelType)
    && (doc.provenance.Some? ==> ValidProvenance(doc.provenance.value))
    && (doc.provenance.Some? && demands.referenceModel.Some? ==> doc.provenance == demands.referenceModel)
    && ValidBaseCases(doc.cases, demands.steps, demands.promptTokens)
    && (doc.gates.Some? ==> ValidGates(doc.gates.value, doc.cases, demands.promptTokens))
    && (doc.benchmark.Some? ==> ValidBenchmark(doc.benchmark.value))
  }

  /**
   Load a golden from its decoded document (`None` where the bytes do not decode), digest and byte count.
   A pinned load compares identity first; every other check follows in the source's order.
   */
  method LoadGoldenFixture(decoded: Option<Document>, sha256: string, byteLength: nat, demands: Demands)
    returns (r: Result<Fixture, GoldenError>)
    ensures r.Ok? <==> decoded.Some? && Acceptable(decoded.value, sha256, byteLength, demands)
    ensures r.Ok? ==>
              var doc := decoded.value;
              r.value == Fixture(doc.modelType, doc.provenance, doc.cases, doc.gates, doc.benchmark, sha256, byteLength)
  {
    if demands.pin.Some? && !MatchesPin(sha256, byteLength, demands.pin.value) {
      return Err(InvalidInput);
    }
    if demands.steps == 0 || demands.promptTokens == 0 || decoded.None? {
      return Err(InvalidInput);
    }
    var doc := decoded.value;
    if doc.version != Some(1) {
      return Err(InvalidInput);
    }
    if doc.modelType.Some? && !IsTrimmed(doc.modelType.value) {
      return Err(InvalidInput);
    }
    if doc.provenance.Some? && !ValidProvenance(doc.provenance.value) {
      return Err(InvalidInput);
    }
    if demands.modelType.Some? && doc.modelType != demands.modelType {
      return Err(InvalidInput);
    }
    if doc.provenance.Some? && demands.referenceModel.Some? && doc.provenance != demands.referenceModel {
      return Err(InvalidInput);
    }
    var cases := ValidateGoldenCases(doc.cases, demands.steps, demands.promptTokens);
    if cases.Err? {
      return Err(InvalidInput);
    }
    if doc.gates.Some? {
      var gates := ValidateGoldenCorrectnessGates(doc.gates.value, doc.cases, demands.promptTokens);
      if gates.Err? {
        return Err(InvalidInput);
      }
    }
    if doc.benchmark.Some? && !ValidBenchmark(doc.benchmark.value) {
      return Err(InvalidInput);
    }
    return Ok(Fixture(doc.modelType, doc.provenance, doc.cases, doc.gates, doc.benchmark, sha256, byteLength));
  }

  // ---- what acceptance guarantees --------------------------------------------------------

  /** Every case name of a document, across all its layers. */
  function AllNames(cases: seq<BaseCase>, gates: Option<Gates>): seq<string> {
    BaseNames(cases) + if gates.Some? then LayeredNames(gates.value) else []
  }

  /**
   An accepted golden names no two cases alike in any pair of layers, counts exactly its names, and has no
   case shorter than the window it was loaded for.
   */
  lemma AcceptedGoldenIsUnambiguous(doc: Document, sha256: string, byteLength: nat, demands: Demands)
    requires Acceptable(doc, sha256, byteLength, demands)
    ensures Distinct(AllNames(doc.cases, doc.gates))
    ensures var f := Fixture(doc.modelType, doc.provenance, doc.cases, doc.gates, doc.benchmark, sha256, byteLength);
            f.TotalCorrectnessCaseCount() == |AllNames(doc.cases, doc.gates)|
    ensures forall i :: 0 <= i < |doc.cases| ==> demands.steps <= |doc.cases[i].expected|
  {
    DistinctJoin(BaseNames(doc.cases), if doc.gates.Some? then LayeredNames(doc.gates.value) else []);
  }

  /** Without the layered check, per-section uniqueness would not be enough: this is what that check adds. */
  lemma LayersShareNoName(doc: Document, sha256: string, byteLength: nat, demands: Demands)
    requires Acceptable(doc, sha256, byteLength, demands) && doc.gates.Some?
    ensures var g := doc.gates.value; var base := BaseNames(doc.cases);
            var a, f, b := AnchorNames(g.AnchorCases()), FreeRunNames(g.FreeRunCases()), BehaviorNames(g.BehaviorCases());
            Apart(base, a) && Apart(base, f) && Apart(base, b) && Apart(a, f) && Apart(a, b) && Apart(f, b)
  {
    var g := doc.gates.value;
    var a, f, b := AnchorNames(g.AnchorCases()), FreeRunNames(g.FreeRunCases()), BehaviorNames(g.BehaviorCases());
    hide AnchorNames, FreeRunNames, BehaviorNames, BaseNames, Distinct, Apart;
    DistinctJoin(a + f, b);
    DistinctJoin(a, f);
    ApartSplits(a, f, b);
    var base := BaseNames(doc.cases);
    ApartFromBoth(base, a + f, b);
    ApartFromBoth(base, a, f);
  }
}
