/** What a credential key does to its line: nothing after it reaches the output (bench-runner, scrub.rs). */
module ScrubSecrets {
  import opened Wrappers
  import opened Text
  import opened Scrub
  import opened ScrubSafety

  // ---- the token after a gap ----------------------------------------------------------

  predicate OneToken(t: string) {
    t != "" && forall c :: c in t ==> !IsSeparator(c)
  }

  /** `m` is empty, or its last token is complete. */
  predicate ClosedBySeparator(m: string) {
    m == "" || IsSeparator(m[|m| - 1])
  }

  lemma TakesToken(t: string, r: string)
    requires (forall c :: c in t ==> !IsSeparator(c)) && OpensWithSeparator(r)
    ensures TakeToken(t + r) == t
  {
    assert forall i :: 0 <= i < |t| ==> t[i] in t;
    if r == "" {
      assert t + r == t;
      NoneIs(t, IsSeparator);
    } else {
      FirstIs(t + r, IsSeparator, |t|);
    }
  }

  /** The leading separators of `m`, its first token, and what follows that token. */
  lemma FirstTokenOf(m: string) returns (gap: string, token: string, more: string)
    ensures m == gap + (token + more) && AllIn(gap, IsSeparator) && TrimStart(m, IsSeparator) == token + more
    ensures token == TakeToken(token + more) && token == NextToken(m)
    ensures (token == "") == AllIn(m, IsSeparator)
    ensures token != "" ==> OneToken(token) && OpensWithSeparator(more)
    ensures token == "" ==> more == ""
    ensures token != "" && ClosedBySeparator(m) ==> more != "" && ClosedBySeparator(more)
  {
    hide TrimStart, TakeToken;
    gap, token, more := LineSplits(m);
    FirstOfLine(m, gap, token, more);
  }

  lemma FirstOfLine(m: string, gap: string, token: string, more: string)
    requires m == gap + (token + more) && AllIn(gap, IsSeparator) && OpensWithSeparator(more)
    requires token != "" ==> !IsSeparator(token[0])
    requires token == "" ==> m == gap
    requires forall c :: c in token ==> !IsSeparator(c)
    ensures (token == "") == AllIn(m, IsSeparator)
    ensures token != "" && ClosedBySeparator(m) ==> more != "" && ClosedBySeparator(more)
  {
    if token != "" {
      assert m[|gap|] == token[0];
      assert m[|m| - 1] == (token + more)[|token + more| - 1];
      assert token[|token| - 1] in token;
    }
  }

  /** Behind a complete prefix, the next token is the prefix's own first token, or the one that follows it. */
  lemma NextTokenBehind(m: string, t: string, r: string)
    requires ClosedBySeparator(m) && OneToken(t) && OpensWithSeparator(r)
    ensures NextToken(m + (t + r)) == if AllIn(m, IsSeparator) then t else NextToken(m)
  {
    hide TrimStart, TakeToken;
    var gap, token, more := FirstTokenOf(m);
    if token == "" {
      assert m == gap + ("" + more) && m == gap;
      NextTokenIs(gap, t, r);
    } else {
      assert m + (t + r) == gap + (token + (more + (t + r)));
      assert OpensWithSeparator(more + (t + r));
      NextTokenIs(gap, token, more + (t + r));
    }
  }

  lemma NextTokenIs(gap: string, t: string, r: string)
    requires AllIn(gap, IsSeparator) && OneToken(t) && OpensWithSeparator(r)
    ensures NextToken(gap + (t + r)) == t
  {
    TrimStartSkips(gap, t + r, IsSeparator);
    assert t[0] in t;
    TrimStartStopsAt(t + r, IsSeparator);
    TakesToken(t, r);
  }

  // ---- slots that cannot tell two secrets apart ------------------------------------------

  /** A value no rule singles out: not empty, not the sentinel, not a port, not a lone colon. */
  predicate Opaque(x: string) {
    x != "" && x != SECRET_SENTINEL && !AllDigits(x) && x != ":"
  }

  predicate Alike(x: string, y: string) {
    x == y || (Opaque(x) && Opaque(y))
  }

  lemma NextTokensAlike(m: string, t: string, r: string, t': string, r': string)
    requires ClosedBySeparator(m) && OpensWithSeparator(r) && OpensWithSeparator(r')
    requires OneToken(t) && Opaque(t) && OneToken(t') && Opaque(t')
    ensures Alike(NextToken(m + (t + r)), NextToken(m + (t' + r')))
  {
    NextTokenBehind(m, t, r);
    NextTokenBehind(m, t', r');
  }

  lemma AfterLoneColon(m: string, x: string)
    requires ClosedBySeparator(m) && NextToken(m) == ":"
    ensures var more := TrimStart(m, IsSeparator)[1..];
            ClosedBySeparator(more)
            && TrimStart(TrimStart(m + x, IsSeparator), IsColon) == more + x
  {
    hide NextToken, TakeToken, TrimStart;
    var gap, token, more := FirstTokenOf(m);
    assert TrimStart(m, IsSeparator)[1..] == more;
    assert m + x == gap + (":" + (more + x));
    TrimStartSkips(gap, ":" + (more + x), IsSeparator);
    TrimStartStopsAt(":" + (more + x), IsSeparator);
    TrimStartSkips(":", more + x, IsColon);
    TrimStartStopsAt(more + x, IsColon);
  }

  lemma SlotPartsAlike(token: string, m: string, t: string, r: string, t': string, r': string)
    requires ClosedBySeparator(m) && OpensWithSeparator(r) && OpensWithSeparator(r')
    requires OneToken(t) && Opaque(t) && OneToken(t') && Opaque(t')
    ensures var p, p' := SlotParts(token, m + (t + r)), SlotParts(token, m + (t' + r'));
            p.Some? == p'.Some?
            && (p.Some? ==> p.value.prefix == p'.value.prefix && p.value.bridge == p'.value.bridge
                            && Alike(p.value.value, p'.value.value))
  {
    hide Alike, Opaque, NextToken, TrimStart;
    assert Alike(NextToken(m + (t + r)), NextToken(m + (t' + r'))) by {
      NextTokensAlike(m, t, r, t', r');
    }
    if FindFirst(token, IsDelimiter).None? {
      LoneColonAlike(m, t, r, t', r');
      if NextToken(m + (t + r)) == ":" {
        AfterLoneColon(m, t + r);
        AfterLoneColon(m, t' + r');
        NextTokensAlike(TrimStart(m, IsSeparator)[1..], t, r, t', r');
      }
    } else {
      AlikeItself(token[FindFirst(token, IsDelimiter).value + 1..]);
    }
  }

  lemma AlikeItself(x: string)
    ensures Alike(x, x)
  {
  }

  lemma LoneColonAlike(m: string, t: string, r: string, t': string, r': string)
    requires ClosedBySeparator(m) && OpensWithSeparator(r) && OpensWithSeparator(r')
    requires OneToken(t) && Opaque(t) && OneToken(t') && Opaque(t')
    ensures (NextToken(m + (t + r)) == ":") == (NextToken(m + (t' + r')) == ":")
    ensures NextToken(m + (t + r)) == ":" ==> NextToken(m) == ":" && |TrimStart(m, IsSeparator)| >= 1
  {
    NextTokenBehind(m, t, r);
    NextTokenBehind(m, t', r');
    var gap, token, more := FirstTokenOf(m);
  }

  /** Whether a slot fires, and what it keeps, does not depend on opaque text that follows. */
  lemma SlotsAlike(token: string, m: string, t: string, r: string, t': string, r': string)
    requires ClosedBySeparator(m) && OpensWithSeparator(r) && OpensWithSeparator(r')
    requires OneToken(t) && Opaque(t) && OneToken(t') && Opaque(t')
    ensures var s, s' := CredentialSlot(token, m + (t + r)), CredentialSlot(token, m + (t' + r'));
            s.Some? == s'.Some? && (s.Some? ==> SealedSlot(s.value) == SealedSlot(s'.value))
  {
    hide SlotParts, LooksLikeAssignmentKey, IsCredentialKey, IsFqdn, StripQuotes, Contains, TrimEnd, OneToken;
    SlotPartsAlike(token, m, t, r, t', r');
  }

  // ---- the places a value can stand -----------------------------------------------------

  /** Where the delimiter puts the value: in the key's own token, in the next one, or behind a colon of its own. */
  datatype Form =
    | Attached(d: char, value: string, rest: string)
    | Header(d: char, gap: string, value: string, rest: string)
    | Apart(gap: string, gap': string, value: string, rest: string)

  /** The token that opens the slot. */
  function Head(key: string, form: Form): string {
    match form
    case Attached(d, value, _) => key + [d] + value
    case Header(d, _, _, _) => key + [d]
    case Apart(_, _, _, _) => key
  }

  /** What follows that token. */
  function Tail(form: Form): string {
    match form
    case Attached(_, _, rest) => rest
    case Header(_, gap, value, rest) => gap + (value + rest)
    case Apart(gap, gap', value, rest) => gap + (":" + (gap' + (value + rest)))
  }

  /** All that a line keeps of the slot. */
  function Kept(key: string, form: Form): string {
    match form
    case Attached(d, _, _) => key + [d] + "" + SECRET_SENTINEL
    case Header(d, _, _, _) => key + [d] + " " + SECRET_SENTINEL
    case Apart(_, _, _, _) => key + ": " + SECRET_SENTINEL
  }

  predicate IsGap(gap: string) {
    gap != "" && AllIn(gap, IsSeparator)
  }

  predicate SealingKey(key: string) {
    && LooksLikeAssignmentKey(StripQuotes(key)) && IsCredentialKey(StripQuotes(key))
    && !IsReadableHost(StripQuotes(key))
  }

  /** A value there is reason to seal: not the sentinel already, and not the port of a host named like a key. */
  predicate SecretValue(key: string, value: string) {
    OneToken(value) && value != SECRET_SENTINEL && !(IsFqdn(StripQuotes(key)) && AllDigits(value))
  }

  /** A credential key in one of the forms; only an attached value may not hold a URL, which is sealed whole. */
  predicate Opens(key: string, form: Form) {
    && SealingKey(key) && SecretValue(key, form.value) && OpensWithSeparator(form.rest)
    && match form
       case Attached(d, value, _) => IsDelimiter(d) && !Contains(key + [d] + value, "://")
       case Header(d, gap, _, _) => IsDelimiter(d) && IsGap(gap)
       case Apart(gap, gap', _, _) => IsGap(gap) && IsGap(gap')
  }

  predicate SameForm(form: Form, form': Form) {
    match form
    case Attached(d, _, _) => form'.Attached? && form'.d == d
    case Header(d, _, _, _) => form'.Header? && form'.d == d
    case Apart(_, _, _, _) => form'.Apart?
  }

  lemma KeyIsOpaque(key: string)
    requires LooksLikeAssignmentKey(StripQuotes(key))
    ensures OneToken(key) && Opaque(key)
  {
    KeyHasNoSlash(key);
    assert '<' in SECRET_SENTINEL;
    if key == SECRET_SENTINEL {
      KeyAlphabet(key, '<');
    }
    LetterInKey(key);
  }

  lemma LetterInKey(key: string)
    requires LooksLikeAssignmentKey(StripQuotes(key))
    ensures !AllDigits(key)
  {
    var c :| c in StripQuotes(key) && IsAlpha(c);
    TrimKeepsOthers(key, IsQuote, c);
  }

  lemma HeadIsOpaque(key: string, form: Form)
    requires Opens(key, form)
    ensures OneToken(Head(key, form)) && Opaque(Head(key, form))
  {
    hide LooksLikeAssignmentKey, IsCredentialKey, IsFqdn, Contains, StripQuotes;
    KeyIsOpaque(key);
    if !form.Apart? {
      var t := Head(key, form);
      assert t[|key|] == form.d && form.d in t;
      assert form.d !in SECRET_SENTINEL;
      assert key[0] in key && t[0] == key[0];
      KeyHasNoSlash(key);
    }
  }

  lemma TailOpensWithSeparator(key: string, form: Form)
    requires Opens(key, form)
    ensures OpensWithSeparator(Tail(form))
  {
    hide SealingKey, SecretValue, Contains;
    if form.Header? || form.Apart? {
      assert Tail(form)[0] == form.gap[0];
    }
  }

  /** The key of a slot, whatever delimiter it carries. */
  lemma SlotKeyIs(key: string, d: string, bridge: string, value: string)
    requires LooksLikeAssignmentKey(StripQuotes(key)) && AllIn(d, IsDelimiter)
    ensures SlotKey(Slot(key + d, bridge, value)) == StripQuotes(key) && StripQuotes(key) != ""
  {
    hide StripQuotes, LooksLikeAssignmentKey;
    KeyHasNoSlash(key);
    TrimEndSkips(key, d, IsDelimiter);
    assert key[|key| - 1] in key;
    assert TrimEnd(key, IsDelimiter) == key;
    StripQuotesOfKey(key);
  }

  lemma StripQuotesOfKey(key: string)
    requires LooksLikeAssignmentKey(StripQuotes(key))
    ensures StripQuotes(key) != ""
  {
  }

  lemma DelimiterAt(key: string, d: char, value: string)
    requires LooksLikeAssignmentKey(StripQuotes(key)) && IsDelimiter(d)
    ensures FindFirst(key + [d] + value, IsDelimiter) == Some(|key|)
    ensures (key + [d] + value)[..|key| + 1] == key + [d] && (key + [d] + value)[|key| + 1..] == value
  {
    hide LooksLikeAssignmentKey, StripQuotes;
    var t := key + [d] + value;
    KeyHasNoSlash(key);
    assert forall k :: 0 <= k < |key| ==> t[k] in key;
    FirstIs(t, IsDelimiter, |key|);
  }

  lemma KeyHasNoDelimiter(key: string)
    requires LooksLikeAssignmentKey(StripQuotes(key))
    ensures FindFirst(key, IsDelimiter).None? && !Contains(key, "://") && !Contains(key + "=", "://")
    ensures !Contains(key + ":", "://")
  {
    hide LooksLikeAssignmentKey, StripQuotes, Contains;
    KeyHasNoSlash(key);
    assert forall k :: 0 <= k < |key| ==> key[k] in key;
    NoneIs(key, IsDelimiter);
    NoSlashNoUrl(key);
    NoSlashNoUrl(key + "=");
    NoSlashNoUrl(key + ":");
    NoUrlIffNotContained(key);
    NoUrlIffNotContained(key + "=");
    NoUrlIffNotContained(key + ":");
  }

  /** Whether a slot opens is decided by its key and its value. */
  lemma SlotOpens(token: string, remainder: string, key: string, d: string, bridge: string, value: string)
    requires !Contains(token, "://") && SlotParts(token, remainder) == Some(Slot(key + d, bridge, value))
    requires AllIn(d, IsDelimiter) && SealingKey(key) && SecretValue(key, value)
    ensures CredentialSlot(token, remainder) == Some(Slot(key + d, bridge, value))
  {
    hide SlotParts, LooksLikeAssignmentKey, IsCredentialKey, IsReadableHost, IsFqdn, StripQuotes, Contains, SlotKey;
    SlotKeyIs(key, d, bridge, value);
  }

  lemma ValueBehindColon(gap: string, gap': string, value: string, rest: string)
    requires AllIn(gap, IsSeparator) && IsGap(gap') && OneToken(value) && OpensWithSeparator(rest)
    ensures var r := gap + (":" + (gap' + (value + rest)));
            NextToken(r) == ":" && NextToken(TrimStart(TrimStart(r, IsSeparator), IsColon)) == value
  {
    hide NextToken, TrimStart;
    var more := gap' + (value + rest);
    assert more[0] == gap'[0];
    NextTokenIs(gap, ":", more);
    TrimStartSkips(gap, ":" + more, IsSeparator);
    TrimStartStopsAt(":" + more, IsSeparator);
    TrimStartSkips(":", more, IsColon);
    TrimStartStopsAt(more, IsColon);
    NextTokenIs(gap', value, rest);
  }

  /** In every form the slot fires, and keeps the key, its delimiter and the sentinel. */
  lemma SecretSlotFires(key: string, form: Form)
    requires Opens(key, form)
    ensures CredentialSlot(Head(key, form), Tail(form)).Some?
    ensures SealedSlot(CredentialSlot(Head(key, form), Tail(form)).value) == Kept(key, form)
  {
    hide CredentialSlot, SealingKey, SecretValue, Contains, NextToken, TrimStart, StripQuotes, LooksLikeAssignmentKey;
    SealingKeyLooks(key);
    KeyHasNoDelimiter(key);
    match form
    case Attached(d, value, rest) =>
      DelimiterAt(key, d, value);
      SecretIsToken(key, value);
      SlotOpens(key + [d] + value, rest, key, [d], "", value);
    case Header(d, gap, value, rest) =>
      DelimiterAt(key, d, "");
      assert key + [d] + "" == key + [d];
      assert key + [d] == key + "=" || key + [d] == key + ":";
      SecretIsToken(key, value);
      NextTokenIs(gap, value, rest);
      SlotOpens(key + [d], Tail(form), key, [d], " ", value);
    case Apart(gap, gap', value, rest) =>
      SecretIsToken(key, value);
      ValueBehindColon(gap, gap', value, rest);
      assert key + "" == key;
      SlotOpens(key, Tail(form), key, "", ": ", value);
  }

  lemma SealingKeyLooks(key: string)
    requires SealingKey(key)
    ensures LooksLikeAssignmentKey(StripQuotes(key))
  {
  }

  lemma SecretIsToken(key: string, value: string)
    requires SecretValue(key, value)
    ensures OneToken(value)
  {
  }

  // ---- nothing behind the key is left ------------------------------------------------------

  /** Two lines alike up to tokens that fire and keep the same text scrub to the same text. */
  lemma {:induction false} FiringLeavesNoTrace(before: string, t: string, r: string, t': string, r': string)
    requires ClosedBySeparator(before) && OpensWithSeparator(r) && OpensWithSeparator(r')
    requires OneToken(t) && Opaque(t) && OneToken(t') && Opaque(t')
    requires CredentialSlot(t, r).Some? && CredentialSlot(t', r').Some?
    requires SealedSlot(CredentialSlot(t, r).value) == SealedSlot(CredentialSlot(t', r').value)
    ensures ScrubRest(before + (t + r)) == ScrubRest(before + (t' + r'))
    decreases |before|
  {
    hide ScrubRest, CredentialSlot, ScrubTokenSpec, Opaque, SealedSlot;
    var gap, token, more := FirstTokenOf(before);
    if token == "" {
      assert before == gap;
      TakesToken(t, r);
      TakesToken(t', r');
      assert t[0] in t && t'[0] in t';
      RestUnfolds(before + (t + r), gap, t, r);
      RestUnfolds(before + (t' + r'), gap, t', r');
    } else {
      UnfoldBefore(gap, token, more, t + r);
      UnfoldBefore(gap, token, more, t' + r');
      SlotsAlike(token, more, t, r, t', r');
      FiringLeavesNoTrace(more, t, r, t', r');
    }
  }

  /**
   Two lines that differ only in the value of a credential key, and in anything at all behind it, scrub to the
   same text: with the value in the key's own token, in the next one, or behind a colon that stands alone.
   */
  lemma SecretsLeaveNoTrace(before: string, key: string, form: Form, form': Form)
    requires ClosedBySeparator(before) && Opens(key, form) && Opens(key, form') && SameForm(form, form')
    ensures ScrubRest(before + (Head(key, form) + Tail(form))) == ScrubRest(before + (Head(key, form') + Tail(form')))
  {
    hide ScrubRest, Opens, CredentialSlot, Opaque, SealedSlot;
    HeadIsOpaque(key, form);
    HeadIsOpaque(key, form');
    TailOpensWithSeparator(key, form);
    TailOpensWithSeparator(key, form');
    SecretSlotFires(key, form);
    SecretSlotFires(key, form');
    FiringLeavesNoTrace(before, Head(key, form), Tail(form), Head(key, form'), Tail(form'));
  }

  lemma UnfoldBefore(gap: string, token: string, more: string, x: string)
    requires AllIn(gap, IsSeparator) && OneToken(token) && more != "" && OpensWithSeparator(more)
    ensures CredentialSlot(token, more + x).Some? ==>
              ScrubRest(gap + (token + more) + x) == gap + SealedSlot(CredentialSlot(token, more + x).value)
    ensures CredentialSlot(token, more + x).None? ==>
              ScrubRest(gap + (token + more) + x) == gap + (ScrubTokenSpec(token) + ScrubRest(more + x))
  {
    hide ScrubRest, CredentialSlot, ScrubTokenSpec;
    assert gap + (token + more) + x == gap + (token + (more + x));
    TakesToken(token, more + x);
    assert token[0] in token;
    RestUnfolds(gap + (token + more) + x, gap, token, more + x);
  }
}
