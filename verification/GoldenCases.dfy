/** One case more or less in a golden, at any place of any layer (bench-core, golden.rs). */
module GoldenCases {
  import opened Wrappers
  import opened Golden

  /** No case of the golden, of any layer, has this name. */
  predicate Fresh(doc: Document, name: string) {
    (forall c :: c in doc.cases ==> c.name != name) && (doc.gates.Some? ==> FreshInLayers(doc.gates.value, name))
  }

  predicate FreshInLayers(g: Gates, name: string) {
    && (g.anchors.Some? ==> forall c :: c in g.anchors.value ==> c.name != name)
    && (g.freeRun.Some? ==> forall c :: c in g.freeRun.value ==> c.name != name)
    && (g.behavior.Some? ==> forall c :: c in g.behavior.value ==> c.name != name)
  }

  // ---- lists of names ---------------------------------------------------------------------

  lemma ApartMeans(a: seq<string>, b: seq<string>)
    ensures Apart(a, b) <==> forall n :: n in a ==> n !in b
  {
    if forall n :: n in a ==> n !in b {
      assert forall i :: 0 <= i < |a| ==> a[i] in a;
    }
  }

  /** A list with one name more, anywhere in it. */
  lemma InsertedName(x: seq<string>, n: string, y: seq<string>, z: seq<string>)
    ensures Distinct(x + [n] + y) <==> Distinct(x + y) && n !in x + y
    ensures Apart(x + [n] + y, z) <==> Apart(x + y, z) && n !in z
    ensures Apart(z, x + [n] + y) <==> Apart(z, x + y) && n !in z
  {
    hide Apart;
    DistinctJoin(x + [n], y);
    DistinctJoin(x, [n]);
    DistinctJoin(x, y);
    ApartSplits(x, [n], y);
    ApartMeans(x, [n]);
    ApartMeans([n], y);
    ApartMeans([n], z);
    ApartMeans(z, [n]);
    ApartSplits(x + [n], y, z);
    ApartSplits(x, [n], z);
    ApartSplits(x, y, z);
    ApartFromBoth(z, x + [n], y);
    ApartFromBoth(z, x, [n]);
    ApartFromBoth(z, x, y);
    assert Distinct([n]);
  }

  // ---- base cases ---------------------------------------------------------------------------

  lemma BaseNamesOf(a: seq<BaseCase>, c: BaseCase, b: seq<BaseCase>)
    ensures BaseNames(a + [c] + b) == BaseNames(a) + [c.name] + BaseNames(b)
    ensures BaseNames(a + b) == BaseNames(a) + BaseNames(b)
  {
  }

  lemma InsertedBase(a: seq<BaseCase>, c: BaseCase, b: seq<BaseCase>, steps: nat, promptTokens: nat)
    requires a + b != []
    ensures ValidBaseCases(a + [c] + b, steps, promptTokens)
            <==> ValidBaseCases(a + b, steps, promptTokens) && ValidBaseCase(c, steps, promptTokens)
                 && c.name !in BaseNames(a + b)
  {
    hide ValidBaseCase, BaseNames, Distinct;
    var all, rest := a + [c] + b, a + b;
    BaseNamesOf(a, c, b);
    InsertedName(BaseNames(a), c.name, BaseNames(b), []);
    assert all[|a|] == c;
    assert forall i :: 0 <= i < |a| ==> all[i] == rest[i];
    assert forall i :: |a| <= i < |rest| ==> rest[i] == all[i + 1];
    assert forall i :: |a| < i < |all| ==> all[i] == rest[i - 1];
  }

  // ---- anchors -------------------------------------------------------------------------------

  lemma AnchorNamesOf(a: seq<AnchorCase>, c: AnchorCase, b: seq<AnchorCase>)
    ensures AnchorNames(a + [c] + b) == AnchorNames(a) + [c.name] + AnchorNames(b)
    ensures AnchorNames(a + b) == AnchorNames(a) + AnchorNames(b)
  {
  }

  lemma InsertedAnchor(a: seq<AnchorCase>, c: AnchorCase, b: seq<AnchorCase>)
    ensures ValidAnchorCases(a + [c] + b)
            <==> ValidAnchorCases(a + b) && ValidAnchorCase(c) && c.name !in AnchorNames(a + b)
  {
    hide ValidAnchorCase, AnchorNames, Distinct;
    var all, rest := a + [c] + b, a + b;
    AnchorNamesOf(a, c, b);
    InsertedName(AnchorNames(a), c.name, AnchorNames(b), []);
    assert all[|a|] == c;
    assert forall i :: 0 <= i < |a| ==> all[i] == rest[i];
    assert forall i :: |a| <= i < |rest| ==> rest[i] == all[i + 1];
    assert forall i :: |a| < i < |all| ==> all[i] == rest[i - 1];
  }

  // ---- free runs -----------------------------------------------------------------------------

  lemma FreeRunNamesOf(a: seq<FreeRunCase>, c: FreeRunCase, b: seq<FreeRunCase>)
    ensures FreeRunNames(a + [c] + b) == FreeRunNames(a) + [c.name] + FreeRunNames(b)
    ensures FreeRunNames(a + b) == FreeRunNames(a) + FreeRunNames(b)
  {
  }

  lemma InsertedFreeRun(a: seq<FreeRunCase>, c: FreeRunCase, b: seq<FreeRunCase>, promptTokens: nat)
    ensures ValidFreeRunCases(a + [c] + b, promptTokens)
            <==> ValidFreeRunCases(a + b, promptTokens) && ValidFreeRunCase(c, promptTokens)
                 && c.name !in FreeRunNames(a + b)
  {
    hide ValidFreeRunCase, FreeRunNames, Distinct;
    var all, rest := a + [c] + b, a + b;
    FreeRunNamesOf(a, c, b);
    InsertedName(FreeRunNames(a), c.name, FreeRunNames(b), []);
    assert all[|a|] == c;
    assert forall i :: 0 <= i < |a| ==> all[i] == rest[i];
    assert forall i :: |a| <= i < |rest| ==> rest[i] == all[i + 1];
    assert forall i :: |a| < i < |all| ==> all[i] == rest[i - 1];
  }

  // ---- behavior ------------------------------------------------------------------------------

  lemma BehaviorNamesOf(a: seq<BehaviorCase>, c: BehaviorCase, b: seq<BehaviorCase>)
    ensures BehaviorNames(a + [c] + b) == BehaviorNames(a) + [c.name] + BehaviorNames(b)
    ensures BehaviorNames(a + b) == BehaviorNames(a) + BehaviorNames(b)
  {
  }

  lemma InsertedBehavior(a: seq<BehaviorCase>, c: BehaviorCase, b: seq<BehaviorCase>)
    ensures ValidBehaviorCases(a + [c] + b)
            <==> ValidBehaviorCases(a + b) && ValidBehaviorCase(c) && c.name !in BehaviorNames(a + b)
  {
    hide ValidBehaviorCase, BehaviorNames, Distinct;
    var all, rest := a + [c] + b, a + b;
    BehaviorNamesOf(a, c, b);
    InsertedName(BehaviorNames(a), c.name, BehaviorNames(b), []);
    assert all[|a|] == c;
    assert forall i :: 0 <= i < |a| ==> all[i] == rest[i];
    assert forall i :: |a| <= i < |rest| ==> rest[i] == all[i + 1];
    assert forall i :: |a| < i < |all| ==> all[i] == rest[i - 1];
  }

  // ---- layers ---------------------------------------------------------------------------------

  lemma InsertedInLayers(x: seq<string>, n: string, y: seq<string>, base: seq<string>)
    ensures Distinct(x + [n] + y) && Apart(base, x + [n] + y)
            <==> Distinct(x + y) && Apart(base, x + y) && n !in x + y && n !in base
  {
    hide Distinct, Apart;
    InsertedName(x, n, y, base);
  }

  lemma AnchorInLayers(g: Gates, base: seq<BaseCase>, promptTokens: nat, a: seq<AnchorCase>, c: AnchorCase,
                       b: seq<AnchorCase>)
    requires g.anchors == Some(a + b) && a + b != []
    ensures ValidGates(g.(anchors := Some(a + [c] + b)), base, promptTokens)
            <==> ValidGates(g, base, promptTokens) && ValidAnchorCase(c)
                 && c.name !in BaseNames(base) && c.name !in LayeredNames(g)
  {
    hide ValidAnchorCases, ValidFreeRunCases, ValidBehaviorCases, ValidAnchorCase, Distinct, Apart, BaseNames, AnchorNames,
         FreeRunNames, BehaviorNames;
    var more := g.(anchors := Some(a + [c] + b));
    var f, h := FreeRunNames(g.FreeRunCases()), BehaviorNames(g.BehaviorCases());
    AnchorNamesOf(a, c, b);
    InsertedAnchor(a, c, b);
    var x, y := AnchorNames(a), AnchorNames(b) + f + h;
    assert LayeredNames(more) == x + [c.name] + y && LayeredNames(g) == x + y;
    InsertedInLayers(x, c.name, y, BaseNames(base));
    assert forall n :: n in AnchorNames(a + b) ==> n in x + y;
  }

  lemma FreeRunInLayers(g: Gates, base: seq<BaseCase>, promptTokens: nat, a: seq<FreeRunCase>, c: FreeRunCase,
                        b: seq<FreeRunCase>)
    requires g.freeRun == Some(a + b) && a + b != []
    ensures ValidGates(g.(freeRun := Some(a + [c] + b)), base, promptTokens)
            <==> ValidGates(g, base, promptTokens) && ValidFreeRunCase(c, promptTokens)
                 && c.name !in BaseNames(base) && c.name !in LayeredNames(g)
  {
    hide ValidAnchorCases, ValidFreeRunCases, ValidBehaviorCases, ValidFreeRunCase, Distinct, Apart, BaseNames, AnchorNames,
         FreeRunNames, BehaviorNames;
    var more := g.(freeRun := Some(a + [c] + b));
    var f, h := AnchorNames(g.AnchorCases()), BehaviorNames(g.BehaviorCases());
    FreeRunNamesOf(a, c, b);
    InsertedFreeRun(a, c, b, promptTokens);
    var x, y := f + FreeRunNames(a), FreeRunNames(b) + h;
    assert LayeredNames(more) == x + [c.name] + y && LayeredNames(g) == x + y;
    InsertedInLayers(x, c.name, y, BaseNames(base));
    assert forall n :: n in FreeRunNames(a + b) ==> n in x + y;
  }

  lemma BehaviorInLayers(g: Gates, base: seq<BaseCase>, promptTokens: nat, a: seq<BehaviorCase>, c: BehaviorCase,
                         b: seq<BehaviorCase>)
    requires g.behavior == Some(a + b) && a + b != []
    ensures ValidGates(g.(behavior := Some(a + [c] + b)), base, promptTokens)
            <==> ValidGates(g, base, promptTokens) && ValidBehaviorCase(c)
                 && c.name !in BaseNames(base) && c.name !in LayeredNames(g)
  {
    hide ValidAnchorCases, ValidFreeRunCases, ValidBehaviorCases, ValidBehaviorCase, Distinct, Apart, BaseNames, AnchorNames,
         FreeRunNames, BehaviorNames;
    var more := g.(behavior := Some(a + [c] + b));
    var f, h := AnchorNames(g.AnchorCases()), FreeRunNames(g.FreeRunCases());
    BehaviorNamesOf(a, c, b);
    InsertedBehavior(a, c, b);
    var x, y := f + h + BehaviorNames(a), BehaviorNames(b);
    assert LayeredNames(more) == x + [c.name] + y && LayeredNames(g) == x + y;
    InsertedInLayers(x, c.name, y, BaseNames(base));
    assert forall n :: n in BehaviorNames(a + b) ==> n in x + y;
  }

  // ---- whole goldens -----------------------------------------------------------------------------

  lemma FreshMeans(doc: Document, name: string)
    ensures Fresh(doc, name)
            <==> name !in BaseNames(doc.cases) && (doc.gates.Some? ==> name !in LayeredNames(doc.gates.value))
  {
    hide FreshInLayers, BaseNames, LayeredNames;
    BaseNameIs(doc.cases, name);
    if doc.gates.Some? {
      LayeredNameIs(doc.gates.value, name);
    }
  }

  lemma BaseNameIs(cases: seq<BaseCase>, name: string)
    ensures name in BaseNames(cases) <==> exists c :: c in cases && c.name == name
  {
    var names := BaseNames(cases);
    assert forall i :: 0 <= i < |cases| ==> names[i] == cases[i].name && cases[i] in cases;
    if c :| c in cases && c.name == name {
      var i :| 0 <= i < |cases| && cases[i] == c;
      assert names[i] == name;
    }
  }

  lemma LayeredNameIs(g: Gates, name: string)
    ensures FreshInLayers(g, name) <==> name !in LayeredNames(g)
  {
    var anchors, runs, behaviors := g.AnchorCases(), g.FreeRunCases(), g.BehaviorCases();
    var a, f, b := AnchorNames(anchors), FreeRunNames(runs), BehaviorNames(behaviors);
    assert forall i :: 0 <= i < |a| ==> a[i] == anchors[i].name && anchors[i] in anchors;
    assert forall i :: 0 <= i < |f| ==> f[i] == runs[i].name && runs[i] in runs;
    assert forall i :: 0 <= i < |b| ==> b[i] == behaviors[i].name && behaviors[i] in behaviors;
    assert name in LayeredNames(g) <==> name in a || name in f || name in b;
  }

  /** One base case more, anywhere among the others: the golden loads exactly when it did, and the case is a good one. */
  lemma OneMoreBase(doc: Document, sha256: string, byteLength: nat, demands: Demands, a: seq<BaseCase>, c: BaseCase,
                    b: seq<BaseCase>)
    requires doc.cases == a + b && a + b != []
    ensures Acceptable(doc.(cases := a + [c] + b), sha256, byteLength, demands)
            <==> Acceptable(doc, sha256, byteLength, demands)
                 && ValidBaseCase(c, demands.steps, demands.promptTokens) && Fresh(doc, c.name)
  {
    hide ValidBaseCases, ValidBaseCase, ValidBenchmark, ValidProvenance, MatchesPin, IsTrimmed, Distinct, Apart, BaseNames,
         LayeredNames, ValidAnchorCases, ValidFreeRunCases, ValidBehaviorCases, Fresh;
    InsertedBase(a, c, b, demands.steps, demands.promptTokens);
    FreshMeans(doc, c.name);
    BaseNamesOf(a, c, b);
    if doc.gates.Some? {
      InsertedName(BaseNames(a), c.name, BaseNames(b), LayeredNames(doc.gates.value));
    }
  }

  lemma OneMoreAnchor(doc: Document, sha256: string, byteLength: nat, demands: Demands, a: seq<AnchorCase>, c: AnchorCase,
                      b: seq<AnchorCase>)
    requires doc.gates.Some? && doc.gates.value.anchors == Some(a + b) && a + b != []
    ensures var more := doc.gates.value.(anchors := Some(a + [c] + b));
            Acceptable(doc.(gates := Some(more)), sha256, byteLength, demands)
            <==> Acceptable(doc, sha256, byteLength, demands) && ValidAnchorCase(c) && Fresh(doc, c.name)
  {
    hide ValidBaseCases, ValidAnchorCase, ValidBenchmark, ValidProvenance, MatchesPin, IsTrimmed, BaseNames, LayeredNames,
         ValidGates, Fresh;
    AnchorInLayers(doc.gates.value, doc.cases, demands.promptTokens, a, c, b);
    FreshMeans(doc, c.name);
  }

  lemma OneMoreFreeRun(doc: Document, sha256: string, byteLength: nat, demands: Demands, a: seq<FreeRunCase>,
                       c: FreeRunCase, b: seq<FreeRunCase>)
    requires doc.gates.Some? && doc.gates.value.freeRun == Some(a + b) && a + b != []
    ensures var more := doc.gates.value.(freeRun := Some(a + [c] + b));
            Acceptable(doc.(gates := Some(more)), sha256, byteLength, demands)
            <==> Acceptable(doc, sha256, byteLength, demands) && ValidFreeRunCase(c, demands.promptTokens)
                 && Fresh(doc, c.name)
  {
    hide ValidBaseCases, ValidFreeRunCase, ValidBenchmark, ValidProvenance, MatchesPin, IsTrimmed, BaseNames, LayeredNames,
         ValidGates, Fresh;
    FreeRunInLayers(doc.gates.value, doc.cases, demands.promptTokens, a, c, b);
    FreshMeans(doc, c.name);
  }

  lemma OneMoreBehavior(doc: Document, sha256: string, byteLength: nat, demands: Demands, a: seq<BehaviorCase>,
                        c: BehaviorCase, b: seq<BehaviorCase>)
    requires doc.gates.Some? && doc.gates.value.behavior == Some(a + b) && a + b != []
    ensures var more := doc.gates.value.(behavior := Some(a + [c] + b));
            Acceptable(doc.(gates := Some(more)), sha256, byteLength, demands)
            <==> Acceptable(doc, sha256, byteLength, demands) && ValidBehaviorCase(c) && Fresh(doc, c.name)
  {
    hide ValidBaseCases, ValidBehaviorCase, ValidBenchmark, ValidProvenance, MatchesPin, IsTrimmed, BaseNames, LayeredNames,
         ValidGates, Fresh;
    BehaviorInLayers(doc.gates.value, doc.cases, demands.promptTokens, a, c, b);
    FreshMeans(doc, c.name);
  }
}
