/** What a pin buys, and the limits every loaded golden keeps and may reach (bench-core, golden.rs). */
module GoldenLimits {
  import opened Wrappers
  import opened Floats
  import opened Text
  import opened Golden

  // ---- the pinned identity ---------------------------------------------------------------

  function Unpinned(demands: Demands): Demands {
    demands.(pin := None)
  }

  /** Whitespace around the pin's own digest, and none at the digest's ends. */
  predicate Padded(pin: string, lead: string, digest: string, trail: string) {
    && pin == lead + digest + trail && AllIn(lead, IsWhitespace) && AllIn(trail, IsWhitespace)
    && (digest != "" ==> !IsWhitespace(digest[0]) && !IsWhitespace(digest[|digest| - 1]))
  }

  lemma PaddingTrims(pin: string, lead: string, digest: string, trail: string)
    requires Padded(pin, lead, digest, trail)
    ensures Trim(pin, IsWhitespace) == digest
  {
    TrimWrapped(lead, digest, trail, IsWhitespace);
  }

  /** A pin refuses exactly the files of another size or another digest, and nothing it does not pin. */
  lemma PinDecides(doc: Document, sha256: string, byteLength: nat, demands: Demands, lead: string, digest: string,
                   trail: string)
    requires demands.pin.Some? && Padded(demands.pin.value.sha256, lead, digest, trail)
    ensures Acceptable(doc, sha256, byteLength, demands)
            <==> Acceptable(doc, sha256, byteLength, Unpinned(demands))
                 && byteLength == demands.pin.value.bytes && SameUpToCase(sha256, digest)
  {
    PaddingTrims(demands.pin.value.sha256, lead, digest, trail);
    LowerForgetsCase(sha256, digest);
  }

  /** Two files accepted under one pin are of one size, and their digests are the same up to case. */
  lemma PinIdentifies(doc: Document, sha256: string, byteLength: nat, demands: Demands,
                      doc': Document, sha256': string, byteLength': nat, demands': Demands)
    requires demands.pin.Some? && demands'.pin == demands.pin
    requires Acceptable(doc, sha256, byteLength, demands) && Acceptable(doc', sha256', byteLength', demands')
    ensures byteLength == byteLength' && SameUpToCase(sha256, sha256')
  {
    LowerForgetsCase(sha256, sha256');
  }

  /** What loads without a pin loads under the pin of its own digest, upper case and padding included. */
  lemma OwnPinAccepts(doc: Document, sha256: string, byteLength: nat, demands: Demands, lead: string, digest: string,
                      trail: string)
    requires Acceptable(doc, sha256, byteLength, Unpinned(demands)) && SameUpToCase(sha256, digest)
    requires Padded(lead + digest + trail, lead, digest, trail)
    ensures Acceptable(doc, sha256, byteLength,
                       demands.(pin := Some(IntegrityPin(lead + digest + trail, byteLength))))
  {
    PinDecides(doc, sha256, byteLength, demands.(pin := Some(IntegrityPin(lead + digest + trail, byteLength))),
               lead, digest, trail);
  }

  // ---- the limits ------------------------------------------------------------------------

  /** The code points Unicode calls White_Space. */
  const WHITESPACE: string :=
    "\U{9}\U{A}\U{B}\U{C}\U{D}\U{20}\U{85}\U{A0}\U{1680}\U{2000}\U{2001}\U{2002}\U{2003}\U{2004}\U{2005}\U{2006}"
    + "\U{2007}\U{2008}\U{2009}\U{200A}\U{2028}\U{2029}\U{202F}\U{205F}\U{3000}"

  lemma WhitespaceIs(c: char)
    ensures IsWhitespace(c) <==> c in WHITESPACE
  {
    var first := "\U{9}\U{A}\U{B}\U{C}\U{D}\U{20}\U{85}\U{A0}\U{1680}\U{2000}\U{2001}\U{2002}\U{2003}\U{2004}\U{2005}\U{2006}";
    var second := "\U{2007}\U{2008}\U{2009}\U{200A}\U{2028}\U{2029}\U{202F}\U{205F}\U{3000}";
    assert WHITESPACE == first + second;
  }

  /** Nonempty, with no white space at either end. */
  predicate Tidy(s: string) {
    s != "" && s[0] !in WHITESPACE && s[|s| - 1] !in WHITESPACE
  }

  lemma TrimmedIsTidy(s: string)
    ensures IsTrimmed(s) <==> Tidy(s)
  {
    if s != "" {
      WhitespaceIs(s[0]);
      WhitespaceIs(s[|s| - 1]);
      if Tidy(s) {
        TrimStartStopsAt(s, IsWhitespace);
      }
      var started := TrimStart(s, IsWhitespace);
      TrimStartCuts(s, IsWhitespace);
      TrimEndCuts(started, IsWhitespace);
      assert IsTrimmed(s) ==> |started| == |s| && s[..0] == "";
    }
  }

  /** A name is tidy and holds no control character. */
  predicate Names(name: string) {
    Tidy(name) && forall c :: c in name ==> 0x20 <= c as int && !(0x7F <= c as int <= 0x9F)
  }

  lemma ValidNameIs(name: string)
    ensures ValidName(name) <==> Names(name)
  {
    TrimmedIsTidy(name);
  }

  predicate Tokens(tokens: seq<int>) {
    forall i :: 0 <= i < |tokens| ==> 0 <= tokens[i] <= 262143
  }

  lemma VocabularyIs(tokens: seq<int>)
    ensures InVocabulary(tokens) <==> Tokens(tokens)
  {
  }

  lemma BaseCaseLimits(c: BaseCase, steps: nat, promptTokens: nat)
    ensures ValidBaseCase(c, steps, promptTokens)
            <==> Names(c.name) && Tokens(c.prompt) && Tokens(c.expected) && |c.prompt| == promptTokens
                 && steps <= |c.expected|
  {
    hide ValidName, InVocabulary, Names, Tokens;
    ValidNameIs(c.name);
    VocabularyIs(c.prompt);
    VocabularyIs(c.expected);
  }

  lemma AnchorLimits(c: AnchorCase)
    ensures ValidAnchorCase(c)
            <==> Names(c.name) && Tokens(c.context + [c.expectedToken]) && 1 <= |c.context| <= 1024
                 && (c.accepted.Some? ==> Tokens(c.accepted.value) && 1 <= |c.accepted.value|)
                 && (c.maxRank.Some? ==> 1 <= c.maxRank.value <= 8)
                 && (c.maxDelta.Some? ==> c.maxRank.Some? && c.maxDelta.value.Finite? && 0.0 <= c.maxDelta.value.value)
  {
    hide ValidName, InVocabulary, Names, Tokens;
    ValidNameIs(c.name);
    VocabularyIs(c.context);
    VocabularyIs([c.expectedToken]);
    TokensJoin(c.context, [c.expectedToken]);
    if c.accepted.Some? {
      VocabularyIs(c.accepted.value);
    }
  }

  lemma TokensJoin(a: seq<int>, b: seq<int>)
    ensures Tokens(a + b) <==> Tokens(a) && Tokens(b)
  {
    if Tokens(a + b) {
      assert forall i :: 0 <= i < |a| ==> (a + b)[i] == a[i];
      assert forall i :: 0 <= i < |b| ==> (a + b)[|a| + i] == b[i];
    }
  }

  lemma FreeRunLimits(c: FreeRunCase, promptTokens: nat)
    ensures ValidFreeRunCase(c, promptTokens)
            <==> Names(c.name) && Tokens(c.prompt) && Tokens(c.expected) && |c.prompt| == promptTokens
                 && 1 <= |c.expected| <= 256
                 && (c.exactPrefix.Some? ==> 1 <= c.exactPrefix.value <= |c.expected|)
  {
    hide ValidName, InVocabulary, Names, Tokens;
    ValidNameIs(c.name);
    VocabularyIs(c.prompt);
    VocabularyIs(c.expected);
  }

  lemma BehaviorLimits(c: BehaviorCase)
    ensures ValidBehaviorCase(c)
            <==> Names(c.name) && Tokens(c.prompt) && 1 <= |c.prompt| <= 2048 && 1 <= c.maxNewTokens <= 64
                 && 1 <= |c.acceptedSequences|
                 && forall s :: s in c.acceptedSequences ==> Tokens(s) && 1 <= |s| <= c.maxNewTokens
  {
    hide ValidName, InVocabulary, Names, Tokens;
    ValidNameIs(c.name);
    VocabularyIs(c.prompt);
    forall k | 0 <= k < |c.acceptedSequences|
      ensures InVocabulary(c.acceptedSequences[k]) <==> Tokens(c.acceptedSequences[k])
    {
      VocabularyIs(c.acceptedSequences[k]);
    }
    if forall s :: s in c.acceptedSequences ==> Tokens(s) && 1 <= |s| <= c.maxNewTokens {
      assert forall k :: 0 <= k < |c.acceptedSequences| ==> c.acceptedSequences[k] in c.acceptedSequences;
    }
  }

  predicate Positive(x: Option<Float>) {
    x.Some? && x.value.Finite? && 0.0 < x.value.value
  }

  lemma BenchmarkLimits(b: Benchmark)
    ensures ValidBenchmark(b)
            <==> Tokens(b.prefillPrompt + [b.prefillToken]) && Tokens(b.decodeSeed + [b.seedToken])
                 && Tokens(b.expectedDecode)
                 && |b.prefillPrompt| == 1024 && |b.decodeSeed| == 1024 && 128 <= |b.expectedDecode|
                 && ((b.baselinePrefill.None? && b.baselineDecode.None?)
                     || (Positive(b.baselinePrefill) && Positive(b.baselineDecode)))
  {
    hide InVocabulary, Tokens;
    VocabularyIs(b.prefillPrompt);
    VocabularyIs([b.prefillToken]);
    VocabularyIs(b.decodeSeed);
    VocabularyIs([b.seedToken]);
    VocabularyIs(b.expectedDecode);
    TokensJoin(b.prefillPrompt, [b.prefillToken]);
    TokensJoin(b.decodeSeed, [b.seedToken]);
  }

  lemma ProvenanceLimits(p: Provenance)
    ensures ValidProvenance(p)
            <==> 1 <= |p.repository| && |p.revision| == 40 && forall c :: c in p.revision ==> c in "0123456789abcdef"
  {
    if forall c :: c in p.revision ==> c in "0123456789abcdef" {
      forall c | c in p.revision ensures '0' <= c <= '9' || 'a' <= c <= 'f' {
        assert c in "0123456789abcdef";
      }
    }
    if forall c :: c in p.revision ==> '0' <= c <= '9' || 'a' <= c <= 'f' {
      forall c | c in p.revision ensures c in "0123456789abcdef" {
        IsHexDigit(c);
      }
    }
  }

  lemma IsHexDigit(c: char)
    requires '0' <= c <= '9' || 'a' <= c <= 'f'
    ensures c in "0123456789abcdef"
  {
    var i := if c <= '9' then c as int - '0' as int else c as int - 'a' as int + 10;
    assert "0123456789abcdef"[i] == c;
  }

  // ---- a golden at every limit -----------------------------------------------------------

  /** One case of each layer, as large as it may be where the load does not ask for a size, and the highest tokens. */
  function EdgeDocument(revision: string): Document {
    Document(
      Some(1), Some("m"), Some(Provenance("r", revision)),
      [BaseCase("a", Highest(1), Highest(1))],
      Some(Gates(Some([AnchorCase("b", Highest(1024), 0, Some([262143]), Some(8), Some(Finite(0.0)))]),
                 Some([FreeRunCase("c", Highest(1), Highest(256), Some(256))]),
                 Some([BehaviorCase("d", Highest(2048), [Highest(64)], 64)]))),
      Some(Benchmark(Highest(1024), 0, Highest(1024), 0, Highest(128), Some(Finite(1.0)), Some(Finite(1.0)))))
  }

  function Highest(n: nat): seq<int> {
    seq(n, i => 262143)
  }

  lemma OneLetterName(name: string)
    requires name in ["a", "b", "c", "d", "m"]
    ensures Names(name)
  {
    assert |name| == 1 && 'a' <= name[0] <= 'z';
    WhitespaceIs(name[0]);
  }

  lemma EdgeCases(revision: string)
    ensures var doc := EdgeDocument(revision); var g := doc.gates.value;
            && ValidBaseCase(doc.cases[0], 1, 1) && ValidAnchorCase(g.anchors.value[0])
            && ValidFreeRunCase(g.freeRun.value[0], 1) && ValidBehaviorCase(g.behavior.value[0])
  {
    hide ValidBaseCase, ValidAnchorCase, ValidFreeRunCase, ValidBehaviorCase, Names;
    var doc := EdgeDocument(revision);
    var g := doc.gates.value;
    OneLetterName("a");
    OneLetterName("b");
    OneLetterName("c");
    OneLetterName("d");
    BaseCaseLimits(doc.cases[0], 1, 1);
    AnchorLimits(g.anchors.value[0]);
    FreeRunLimits(g.freeRun.value[0], 1);
    BehaviorLimits(g.behavior.value[0]);
  }

  lemma EdgeExtras(revision: string)
    requires |revision| == 40 && forall c :: c in revision ==> c in "0123456789abcdef"
    ensures var doc := EdgeDocument(revision);
            IsTrimmed("m") && ValidProvenance(doc.provenance.value) && ValidBenchmark(doc.benchmark.value)
  {
    hide ValidProvenance, ValidBenchmark, IsTrimmed;
    OneLetterName("m");
    TrimmedIsTidy("m");
    BenchmarkLimits(EdgeDocument(revision).benchmark.value);
    ProvenanceLimits(Provenance("r", revision));
  }

  lemma EdgeLayers(revision: string)
    ensures var doc := EdgeDocument(revision);
            ValidBaseCases(doc.cases, 1, 1) && ValidGates(doc.gates.value, doc.cases, 1)
  {
    hide ValidBaseCase, ValidAnchorCase, ValidFreeRunCase, ValidBehaviorCase, Distinct, Apart, BaseNames, AnchorNames,
         FreeRunNames, BehaviorNames, LayeredNames, Highest;
    EdgeCases(revision);
    EdgeNames(revision);
  }

  /** Every limit above may be reached, all at once. */
  lemma EdgeGoldenLoads(revision: string, sha256: string, byteLength: nat, pin: IntegrityPin)
    requires |revision| == 40 && forall c :: c in revision ==> c in "0123456789abcdef"
    requires pin.bytes == byteLength && Padded(pin.sha256, "", sha256, "")
    ensures Acceptable(EdgeDocument(revision), sha256, byteLength,
                       Demands(1, 1, Some("m"), Some(pin), Some(Provenance("r", revision))))
  {
    hide ValidBaseCases, ValidGates, ValidBenchmark, ValidProvenance, IsTrimmed, Trim, Lower, Highest, Padded;
    EdgeLayers(revision);
    EdgeExtras(revision);
    PaddingTrims(pin.sha256, "", sha256, "");
  }

  lemma EdgeNames(revision: string)
    ensures var doc := EdgeDocument(revision); var g := doc.gates.value;
            && Distinct(BaseNames(doc.cases)) && Distinct(AnchorNames(g.AnchorCases()))
            && Distinct(FreeRunNames(g.FreeRunCases())) && Distinct(BehaviorNames(g.BehaviorCases()))
            && Distinct(LayeredNames(g)) && Apart(BaseNames(doc.cases), LayeredNames(g))
  {
    var doc := EdgeDocument(revision);
    var g := doc.gates.value;
    assert BaseNames(doc.cases) == ["a"];
    assert AnchorNames(g.AnchorCases()) == ["b"] && FreeRunNames(g.FreeRunCases()) == ["c"];
    assert BehaviorNames(g.BehaviorCases()) == ["d"];
    assert LayeredNames(g) == ["b", "c", "d"];
    assert "a"[0] != "b"[0] && "b"[0] != "c"[0] && "b"[0] != "d"[0] && "c"[0] != "d"[0] && "a"[0] != "c"[0]
           && "a"[0] != "d"[0];
  }

  // ---- what a load asks for ----------------------------------------------------------------

  /** A golden that loads goes on loading under another demand exactly when it meets that one. */
  lemma DemandsDecide(doc: Document, sha256: string, byteLength: nat, demands: Demands, steps: nat, promptTokens: nat,
                      modelType: string, reference: Provenance)
    requires Acceptable(doc, sha256, byteLength, demands)
    ensures Acceptable(doc, sha256, byteLength, demands.(steps := steps))
            <==> 0 < steps && forall i :: 0 <= i < |doc.cases| ==> steps <= |doc.cases[i].expected|
    ensures Acceptable(doc, sha256, byteLength, demands.(promptTokens := promptTokens))
            <==> promptTokens == demands.promptTokens
    ensures Acceptable(doc, sha256, byteLength, demands.(modelType := Some(modelType)))
            <==> doc.modelType == Some(modelType)
    ensures Acceptable(doc, sha256, byteLength, demands.(referenceModel := Some(reference)))
            <==> doc.provenance in {None, Some(reference)}
  {
    hide ValidName, InVocabulary, ValidGates, ValidBenchmark, ValidProvenance, MatchesPin, IsTrimmed;
    assert ValidBaseCase(doc.cases[0], demands.steps, demands.promptTokens);
    if Acceptable(doc, sha256, byteLength, demands.(steps := steps)) {
      forall i | 0 <= i < |doc.cases| ensures steps <= |doc.cases[i].expected| {
        assert ValidBaseCase(doc.cases[i], steps, demands.promptTokens);
      }
    }
  }

  /** The format version is fixed, the optional parts may be missing, and a part that is there is not empty. */
  lemma PartsDecide(doc: Document, sha256: string, byteLength: nat, demands: Demands, version: Option<int>, gates: Gates)
    requires Acceptable(doc, sha256, byteLength, demands)
    ensures Acceptable(doc.(version := version), sha256, byteLength, demands) <==> version == Some(1)
    ensures Acceptable(doc.(gates := None), sha256, byteLength, demands)
    ensures Acceptable(doc.(benchmark := None), sha256, byteLength, demands)
    ensures Acceptable(doc.(provenance := None), sha256, byteLength, demands)
    ensures !Acceptable(doc.(cases := []), sha256, byteLength, demands)
    ensures gates in {Gates(None, None, None), gates.(anchors := Some([])), gates.(freeRun := Some([])),
                      gates.(behavior := Some([]))}
            ==> !Acceptable(doc.(gates := Some(gates)), sha256, byteLength, demands)
  {
    hide ValidName, InVocabulary, ValidBaseCase, ValidBenchmark, ValidProvenance, MatchesPin, IsTrimmed, Distinct,
         Apart, LayeredNames, ValidAnchorCases, ValidFreeRunCases, ValidBehaviorCases;
  }
}
