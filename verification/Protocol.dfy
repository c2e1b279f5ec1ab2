/**
 The parts of the wire protocol with rules of their own: the speculative configuration, the rule that
 an engine's echo honors the request, and the request kinds (bench-protocol, lib.rs).
 */
module Protocol {
  import opened Wrappers

  /** A JSON number keeps the form it was written in: an unsigned or negative integer, or a float. */
  datatype Number = Unsigned(u: u64) | Negative(i: int) | Float(f: real)

  datatype Json =
    | Null
    | Bool(b: bool)
    | Num(n: Number)
    | Str(s: string)
    | Arr(elements: seq<Json>)
    | Obj(fields: map<string, Json>)

  datatype MtpSpec = MtpSpec(depth: Option<u32>)

  datatype SpecConfig = SpecConfig(
    mode: string,
    mtp: Option<MtpSpec>,
    dflash: Option<Json>,
    dspark: Option<Json>)

  const SPEC_MODE_SERIAL := "serial"
  const SPEC_MODE_MTP := "mtp"
  const SPEC_MODE_DFLASH := "dflash"

  const PROTOCOL_VERSION: u32 := 1
  const TOP_LOGITS_K: nat := 8
  const CAPABILITY_FREE_RUN_DECODE := "free_run_decode"
  const CAPABILITY_BATCHED_FREE_RUN_DECODE := "batched_free_run_decode"
  const CAPABILITY_COHORT_REFERENCE_REPLAY := "cohort_reference_replay"
  const REPLAY_WIDTH_COHORT := "cohort"

  datatype RequestKind =
    | Prefill | DecodeBegin | DecodeStep | Correctness | CorrectnessBegin | CorrectnessStep
    | PhaseDiagnostics | FreeDecodeBegin | FreeDecodeRun | CohortReferenceReplay

  /** The kinds the phase-close barrier counts. */
  predicate IsTimedStep(kind: RequestKind) {
    kind.DecodeBegin? || kind.DecodeStep? || kind.CorrectnessBegin? || kind.CorrectnessStep?
  }

  /** `a` is contained in `b`: objects key by key, everything else by equality. */
  predicate JsonSubset(a: Json, b: Json) {
    match a
    case Obj(fields) =>
      b.Obj? && forall k :: k in fields ==> k in b.fields && JsonSubset(fields[k], b.fields[k])
    case _ => a == b
  }

  /** A JSON value read as a u32. */
  function AsU32(v: Json): Option<u32> {
    if v.Num? && v.n.Unsigned? && v.n.u < 0x1_0000_0000 then Some(v.n.u) else None
  }

  /** The depth field of a dflash block: by key from an object, by position from a one-element array
      (the two forms the deserializer accepts for a one-field struct). */
  function BlockDepth(block: Json): Option<u32> {
    match block
    case Obj(fields) => if "depth" in fields then AsU32(fields["depth"]) else None
    case Arr(elements) => if |elements| == 1 then AsU32(elements[0]) else None
    case _ => None
  }

  function DflashDepth(spec: SpecConfig): Option<u32> {
    if spec.mode != SPEC_MODE_DFLASH || spec.dflash.None? then None
    else BlockDepth(spec.dflash.value)
  }

  /** Does the engine's echo honor the request? */
  predicate SpecEchoHonorsRequest(requested: SpecConfig, effective: SpecConfig) {
    && requested.mode == effective.mode
    && requested.mtp.Some? == effective.mtp.Some?
    && requested.dflash.Some? == effective.dflash.Some?
    && requested.dspark.Some? == effective.dspark.Some?
    && (requested.mtp.Some? && effective.mtp.Some? ==>
          match requested.mtp.value.depth
          case Some(d) => effective.mtp.value.depth == Some(d)
          case None => effective.mtp.value.depth.Some?)
    && (requested.dflash.Some? && effective.dflash.Some? ==>
          && JsonSubset(requested.dflash.value, effective.dflash.value)
          && (requested.mode == SPEC_MODE_DFLASH ==> DflashDepth(effective).Some?))
    && (requested.dspark.Some? && effective.dspark.Some? ==>
          JsonSubset(requested.dspark.value, effective.dspark.value))
  }

  // ---- the JSON containment order ------------------------------------------

  lemma {:induction false} JsonSubsetReflexive(a: Json)
    ensures JsonSubset(a, a)
  {
    match a
    case Obj(fields) =>
      forall k | k in fields ensures JsonSubset(fields[k], fields[k]) {
        JsonSubsetReflexive(fields[k]);
      }
    case _ =>
  }

  lemma {:induction false} JsonSubsetTransitive(a: Json, b: Json, c: Json)
    requires JsonSubset(a, b) && JsonSubset(b, c)
    ensures JsonSubset(a, c)
  {
    match a
    case Obj(fields) =>
      forall k | k in fields ensures k in c.fields && JsonSubset(fields[k], c.fields[k]) {
        JsonSubsetTransitive(fields[k], b.fields[k], c.fields[k]);
      }
    case _ =>
  }

  lemma {:induction false} JsonSubsetAntisymmetric(a: Json, b: Json)
    requires JsonSubset(a, b) && JsonSubset(b, a)
    ensures a == b
  {
    match a
    case Obj(fields) =>
      forall k | k in fields ensures k in b.fields && fields[k] == b.fields[k] {
        JsonSubsetAntisymmetric(fields[k], b.fields[k]);
      }
      assert fields.Keys == b.fields.Keys;
      assert fields == b.fields;
    case _ =>
  }

  // ---- the echo rule --------------------------------------------------------

  /** A depth the request stated survives any containing block. */
  lemma BlockDepthPreserved(a: Json, b: Json)
    requires JsonSubset(a, b) && BlockDepth(a).Some?
    ensures BlockDepth(b) == BlockDepth(a)
  {
    if a.Obj? {
      assert JsonSubset(a.fields["depth"], b.fields["depth"]);
    }
  }

  /** Every module block of the spec states the depth it runs at. */
  predicate Resolved(spec: SpecConfig) {
    && (spec.mtp.Some? ==> spec.mtp.value.depth.Some?)
    && (spec.mode == SPEC_MODE_DFLASH && spec.dflash.Some? ==> DflashDepth(spec).Some?)
  }

  /** A spec honors itself exactly when it is resolved: the verbatim echo of an engine-decides
      request is refused. */
  lemma SelfEchoIffResolved(spec: SpecConfig)
    ensures SpecEchoHonorsRequest(spec, spec) <==> Resolved(spec)
  {
    if spec.dflash.Some? { JsonSubsetReflexive(spec.dflash.value); }
    if spec.dspark.Some? { JsonSubsetReflexive(spec.dspark.value); }
  }

  lemma HonorsTransitive(a: SpecConfig, b: SpecConfig, c: SpecConfig)
    requires SpecEchoHonorsRequest(a, b) && SpecEchoHonorsRequest(b, c)
    ensures SpecEchoHonorsRequest(a, c)
  {
    if a.dflash.Some? { JsonSubsetTransitive(a.dflash.value, b.dflash.value, c.dflash.value); }
    if a.dspark.Some? { JsonSubsetTransitive(a.dspark.value, b.dspark.value, c.dspark.value); }
  }

  /** An accepted echo is resolved, so it honors itself. */
  lemma AcceptedEchoHonorsItself(requested: SpecConfig, effective: SpecConfig)
    requires SpecEchoHonorsRequest(requested, effective)
    ensures Resolved(effective) && SpecEchoHonorsRequest(effective, effective)
  {
    SelfEchoIffResolved(effective);
  }

  /** A request and echo that honor each other are the same spec. */
  lemma HonorsAntisymmetric(a: SpecConfig, b: SpecConfig)
    requires SpecEchoHonorsRequest(a, b) && SpecEchoHonorsRequest(b, a)
    ensures a == b
  {
    if a.dflash.Some? { JsonSubsetAntisymmetric(a.dflash.value, b.dflash.value); }
    if a.dspark.Some? { JsonSubsetAntisymmetric(a.dspark.value, b.dspark.value); }
  }

  /** A fully resolved mtp request accepts only itself. */
  lemma ResolvedMtpEchoExact(requested: SpecConfig, effective: SpecConfig)
    requires requested.mtp.Some? && requested.mtp.value.depth.Some?
    requires requested.dflash.None? && requested.dspark.None?
    ensures SpecEchoHonorsRequest(requested, effective) <==> effective == requested
  {
    if SpecEchoHonorsRequest(requested, effective) {
      assert effective.mtp.value == requested.mtp.value;
    }
  }

  /** A requested dflash depth is the depth of every accepted echo. */
  lemma DflashDepthPreserved(requested: SpecConfig, effective: SpecConfig)
    requires SpecEchoHonorsRequest(requested, effective) && DflashDepth(requested).Some?
    ensures DflashDepth(effective) == DflashDepth(requested)
  {
    BlockDepthPreserved(requested.dflash.value, effective.dflash.value);
  }

  // ---- what an engine may add, and what it may decide ----------------------------------------

  /** An object contains every object it extends, at any depth; what it drops or changes it does not contain. */
  lemma ExtensionIsContained(fields: map<string, Json>, key: string, value: Json, more: Json)
    ensures key !in fields ==> JsonSubset(Obj(fields), Obj(fields[key := value]))
    ensures key !in fields ==> !JsonSubset(Obj(fields[key := value]), Obj(fields))
    ensures key in fields ==> (JsonSubset(Obj(fields), Obj(fields[key := more])) <==> JsonSubset(fields[key], more))
    ensures !JsonSubset(Obj(fields), Arr([value])) && !JsonSubset(Arr([value]), Obj(fields))
  {
    forall k | k in fields ensures JsonSubset(fields[k], fields[k]) {
      JsonSubsetReflexive(fields[k]);
    }
    var extended, changed := fields[key := value], fields[key := more];
    assert key in extended && forall k :: k in fields && k != key ==> changed[k] == fields[k];
    if key in fields {
      assert changed[key] == more;
    }
  }

  /** Whatever is no object is contained in itself alone. */
  lemma ScalarIsExact(a: Json, b: Json)
    requires !a.Obj?
    ensures JsonSubset(a, b) <==> a == b
  {
  }

  /** The depth of a dflash block, by key or by position, where it is an unsigned integer of 32 bits. */
  lemma DepthIsRead(fields: map<string, Json>, v: Json, d: Option<u32>)
    requires d == (match v case Num(Unsigned(u)) => if u <= 0xFFFF_FFFF then Some(u) else None case _ => None)
    ensures BlockDepth(Obj(fields["depth" := v])) == d && BlockDepth(Arr([v])) == d
    ensures "depth" !in fields ==> BlockDepth(Obj(fields)) == None
    ensures BlockDepth(Arr([])) == None && BlockDepth(Arr([v, v])) == None && BlockDepth(Num(Unsigned(3))) == None
  {
  }

  /** The engine that is left to decide the mtp depth may state any, and must state one. */
  lemma EngineDecidesDepth(mode: string, depth: Option<u32>, dspark: Option<Json>)
    ensures var asked := SpecConfig(mode, Some(MtpSpec(None)), None, dspark);
            SpecEchoHonorsRequest(asked, asked.(mtp := Some(MtpSpec(depth)))) <==> depth.Some?
  {
    if dspark.Some? {
      JsonSubsetReflexive(dspark.value);
    }
  }

  /** An echo in another mode, with a block the request lacks, or without one it has, honors nothing. */
  lemma OtherShapeIsRefused(asked: SpecConfig, echo: SpecConfig)
    requires asked.mode != echo.mode || asked.mtp.Some? != echo.mtp.Some? || asked.dflash.Some? != echo.dflash.Some?
             || asked.dspark.Some? != echo.dspark.Some?
    ensures !SpecEchoHonorsRequest(asked, echo)
  {
  }

  /** A dflash echo may add to the requested block, and in its own mode must end up stating a depth. */
  lemma DflashEchoMayAdd(asked: SpecConfig, block: Json, more: Json)
    requires asked.mtp.None? && asked.dspark.None? && asked.dflash == Some(block)
    ensures SpecEchoHonorsRequest(asked, asked.(dflash := Some(more)))
            <==> JsonSubset(block, more) && (asked.mode == "dflash" ==> BlockDepth(more).Some?)
  {
  }
}
