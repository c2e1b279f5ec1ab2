/** Exactly when scrubbing a line twice is scrubbing it once (bench-runner, scrub.rs). */
module ScrubStable {
  import opened Wrappers
  import opened Text
  import opened Scrub
  import opened ScrubSafety
  import opened ScrubSecrets
  import opened ScrubKeeps
  import opened ScrubFixed
  import opened ScrubKeys
  import opened ScrubSlots

  // ---- a sealed slot, scrubbed again ----------------------------------------------------

  /** A slot opened by `KEY=` with its value in the next token. */
  predicate IsEqualsHeader(slot: Slot) {
    slot.bridge == " " && slot.prefix != "" && slot.prefix[|slot.prefix| - 1] == '='
  }

  /** The quotes a key opens with, and the key behind them. */
  lemma KeyPastItsQuotes(key: string) returns (lead: string, bare: string)
    requires SealingKey(key)
    ensures key == lead + bare && AllIn(lead, IsQuote) && SealingKey(bare) && bare != "" && !IsQuote(bare[0])
  {
    hide SealingKey, StripQuotes, LooksLikeAssignmentKey;
    bare := TrimStart(key, IsQuote);
    lead := key[..|key| - |bare|];
    TrimStartCuts(key, IsQuote);
    SealingPastQuotes(lead, bare);
    SealingIsCredential(bare);
    KeyHasNoSlash(bare);
  }

  lemma SealedKeySettles(key: string, d: char)
    requires SealingKey(key) && IsDelimiter(d)
    ensures Fixed(key + [d] + SECRET_SENTINEL)
  {
    hide LooksLikeAssignmentKey, IsCredentialKey, IsReadableHost, Fixed, StripQuotes;
    var lead, bare := KeyPastItsQuotes(key);
    SealedKeyIsFixed(bare, d);
    FixedLooksInside(lead, bare + [d] + SECRET_SENTINEL, "");
    Regroup(lead, bare, [d], SECRET_SENTINEL);
  }

  lemma Regroup(lead: string, a: string, b: string, c: string)
    ensures lead + (a + b + c) + "" == lead + a + b + c
  {
  }

  lemma SealedKeyStays(key: string, d: char)
    requires SealingKey(key) && IsDelimiter(d)
    ensures ScrubTokenSpec(key + [d] + SECRET_SENTINEL) == key + [d] + SECRET_SENTINEL
  {
    hide SealingKey, LooksLikeAssignmentKey, Fixed, ScrubCore, ScrubTokenSpec, StripQuotes, Unwrapped, OneToken;
    var t := key + [d] + SECRET_SENTINEL;
    SealedKeySettles(key, d);
    FixedMeans(t);
    SealingIsCredential(key);
    SealIsUnwrapped(key, d, SECRET_SENTINEL);
    UnwrappedUnfolds(t);
    PieceIsCore(t);
  }

  lemma SealIsUnwrapped(key: string, d: char, value: string)
    requires LooksLikeAssignmentKey(StripQuotes(key)) && IsDelimiter(d) && (value == "" || value == SECRET_SENTINEL)
    ensures Unwrapped(key + [d] + value) && OneToken(key + [d] + value)
  {
    hide LooksLikeAssignmentKey, StripQuotes;
    KeyHasNoSlash(key);
  }

  /** An empty slot: by `=` it is sealed, by `:` it is left alone. */
  lemma EmptySlotScrubs(key: string, d: char)
    requires SealingKey(key) && IsDelimiter(d)
    ensures ScrubTokenSpec(key + [d]) == key + [d] + if d == '=' then SECRET_SENTINEL else ""
  {
    hide LooksLikeAssignmentKey, SealingKey, KeepsKey, ScrubCore, ScrubTokenSpec, StripQuotes, Contains, FindFirst;
    SealingIsCredential(key);
    var t := key + [d];
    assert t + "" == t;
    KeyDelimits(key, d, "");
    KeyHasNoDelimiter(key);
    assert t == key + "=" || t == key + ":";
    EmptySlotKeepsKey(key, d);
    SealIsUnwrapped(key, d, "");
    UnwrappedUnfolds(t);
    KeptKeyValue(t, |key|);
    assert t[..|key| + 1] == t;
  }

  lemma EmptySlotKeepsKey(key: string, d: char)
    requires SealingKey(key) && IsDelimiter(d)
    ensures KeepsKey(key + [d])
  {
    hide LooksLikeAssignmentKey, SealingKey, StripQuotes, FindFirst, Unruled;
    SealingIsCredential(key);
    KeyDelimits(key, d, "");
    assert key + [d] + "" == key + [d];
    if d == ':' {
      EmptyColonIsUnruled(key);
    }
  }

  lemma EmptyColonIsUnruled(key: string)
    requires LooksLikeAssignmentKey(StripQuotes(key))
    ensures Unruled(key + [':'])
  {
    hide LooksLikeAssignmentKey, IsFqdn;
    var t := key + [':'];
    KeyHasNoSlash(key);
    KeyHoldsNoAt(key);
    TrimKeepsOthers(t, IsQuote, '@');
    TrimKeepsOthers(t, IsQuote, '/');
    TrimKeepsOthers(t, IsQuote, ':');
    EndsInColon(key);
    ColonIsNoFqdn(StripQuotes(t));
  }

  lemma EndsInColon(key: string)
    ensures var u := StripQuotes(key + [':']); u != "" && u[|u| - 1] == ':'
  {
    var t := key + [':'];
    var a := TrimStart(t, IsQuote);
    TrimStartCuts(t, IsQuote);
    TrimStartKeepsOthers(t, IsQuote, ':');
    assert t[|t| - 1] == ':' && ':' in t;
    assert a[|a| - 1] == t[|t| - 1];
  }

  lemma SentinelLineStays()
    ensures ScrubRest(" " + SECRET_SENTINEL) == " " + SECRET_SENTINEL && ScrubRest("") == ""
  {
    hide ScrubTokenSpec, CredentialSlot, ScrubRest, FindFirst, StripQuotes, LooksLikeAssignmentKey, OneToken;
    OnlyGap("");
    SentinelStays();
    SentinelIsKeyless();
    KeylessOpensNothing(SECRET_SENTINEL, "");
    SentinelIsToken();
    TokenLine(" ", SECRET_SENTINEL, "");
    NothingBehind(" ", SECRET_SENTINEL);
  }

  lemma NothingBehind(gap: string, t: string)
    ensures gap + (t + "") == gap + t
  {
  }

  lemma SentinelIsToken()
    ensures OneToken(SECRET_SENTINEL) && !IsSeparator(SECRET_SENTINEL[0])
  {
  }

  lemma SentinelNotSealed(key: string, d: char, remainder: string)
    requires SealingKey(key) && IsDelimiter(d)
    ensures CredentialSlot(key + [d] + SECRET_SENTINEL, remainder).None?
    ensures NextToken(remainder) == SECRET_SENTINEL ==> CredentialSlot(key + [d], remainder).None?
  {
    hide SealingKey, StripQuotes, LooksLikeAssignmentKey, IsFqdn, Contains, FindFirst, NextToken, ColonValue,
         CredentialSlot;
    SealingIsCredential(key);
    SlotIffOpens(key + [d] + SECRET_SENTINEL, remainder);
    SlotIffOpens(key + [d], remainder);
    KeyDelimits(key, d, SECRET_SENTINEL);
    KeyDelimits(key, d, "");
    assert key + [d] + "" == key + [d];
  }

  /** A sealed key, whose sentinel stands in its token or in the next, scrubbed again. */
  lemma AttachedTwice(gap: string, key: string, d: char)
    requires AllIn(gap, IsSeparator) && SealingKey(key) && IsDelimiter(d)
    ensures var out := gap + (key + [d] + SECRET_SENTINEL); ScrubRest(out) == out
  {
    hide ScrubRest, ScrubTokenSpec, CredentialSlot, SealingKey, StripQuotes, LooksLikeAssignmentKey;
    SealingIsCredential(key);
    var t := key + [d] + SECRET_SENTINEL;
    SealIsUnwrapped(key, d, SECRET_SENTINEL);
    SealedKeyStays(key, d);
    SentinelNotSealed(key, d, "");
    SentinelLineStays();
    TokenLine(gap, t, "");
    assert t + "" == t;
  }

  /** One token of a line that opens no slot. */
  lemma TokenLine(gap: string, token: string, remainder: string)
    requires AllIn(gap, IsSeparator) && OneToken(token) && OpensWithSeparator(remainder)
    requires CredentialSlot(token, remainder).None?
    ensures ScrubRest(gap + (token + remainder)) == gap + (ScrubTokenSpec(token) + ScrubRest(remainder))
  {
    hide ScrubRest, ScrubTokenSpec, CredentialSlot;
    TakesToken(token, remainder);
    assert token[0] in token;
    RestUnfolds(gap + (token + remainder), gap, token, remainder);
  }

  lemma HeaderTwice(gap: string, key: string, d: char)
    requires AllIn(gap, IsSeparator) && SealingKey(key) && IsDelimiter(d)
    ensures var out := gap + (key + [d] + (" " + SECRET_SENTINEL)); ScrubRest(out) == out <==> d == ':'
  {
    hide ScrubRest, ScrubTokenSpec, CredentialSlot, SealingKey, StripQuotes, LooksLikeAssignmentKey, NextToken;
    SealingIsCredential(key);
    SealIsUnwrapped(key, d, "");
    assert key + [d] + "" == key + [d];
    EmptySlotScrubs(key, d);
    SentinelIsToken();
    NextTokenIs(" ", SECRET_SENTINEL, "");
    assert " " + (SECRET_SENTINEL + "") == " " + SECRET_SENTINEL;
    SentinelNotSealed(key, d, " " + SECRET_SENTINEL);
    SentinelLineStays();
    TokenLine(gap, key + [d], " " + SECRET_SENTINEL);
    if d == '=' {
      SentinelIsNotGap(gap, key + [d], SECRET_SENTINEL);
    }
  }

  lemma SentinelIsNotGap(gap: string, t: string, value: string)
    ensures gap + (t + SECRET_SENTINEL + (" " + value)) != gap + (t + (" " + value))
  {
    assert |gap + (t + SECRET_SENTINEL + (" " + value))| != |gap + (t + (" " + value))|;
  }

  /** Sealed text is left alone by a second scrub, unless `KEY=` stands empty before the sentinel. */
  lemma SlotTwice(gap: string, token: string, remainder: string)
    requires AllIn(gap, IsSeparator) && CredentialSlot(token, remainder).Some?
    ensures var slot := CredentialSlot(token, remainder).value;
            ScrubRest(gap + SealedSlot(slot)) == gap + SealedSlot(slot) <==> !IsEqualsHeader(slot)
  {
    hide ScrubRest, SealingKey, CredentialSlot, NextToken, ColonValue, Sealable, FindFirst, Contains, AllIn;
    SlotIffOpens(token, remainder);
    var at := FindFirst(token, IsDelimiter);
    match at {
      case None =>
        SlotTextApart(token);
        ApartIsNoHeader(token, ColonValue(remainder));
        HeaderTwice(gap, token, ':');
      case Some(i) =>
        var key, d := token[..i], token[i];
        assert token[..i + 1] == key + [d];
        if i + 1 == |token| {
          assert token == key + [d];
          SlotTextHeader(key, d);
          HeaderTwice(gap, key, d);
        } else {
          AttachedTwice(gap, key, d);
          AttachedIsNoHeader(token, i);
        }
    }
  }

  lemma AttachedIsNoHeader(token: string, i: nat)
    requires i < |token|
    ensures var slot := Slot(token[..i + 1], "", token[i + 1..]);
            !IsEqualsHeader(slot) && SealedSlot(slot) == token[..i] + [token[i]] + SECRET_SENTINEL
  {
    assert token[..i + 1] == token[..i] + [token[i]];
  }

  lemma ApartIsNoHeader(token: string, value: string)
    ensures !IsEqualsHeader(Slot(token, ": ", value))
  {
  }

  lemma SlotTextApart(key: string)
    ensures key + ": " + SECRET_SENTINEL == key + [':'] + (" " + SECRET_SENTINEL)
  {
  }

  lemma SlotTextHeader(key: string, d: char)
    ensures key + [d] + " " + SECRET_SENTINEL == key + [d] + (" " + SECRET_SENTINEL)
  {
  }

  // ---- whole lines -------------------------------------------------------------------------

  /**
   What a second scrub would change, read off the line itself. Going through its tokens up to the one whose
   credential slot fires: a piece that is a path with an `@` surviving in its basename; a credential key whose
   slot only a URL behind a wrapper kept shut; or, at the end, a `KEY= value` header.
   */
  predicate Restless(rest: string)
    decreases |rest|
  {
    var after := TrimStart(rest, IsSeparator);
    if after == "" then false
    else
      var token := TakeToken(after);
      var remainder := after[|token|..];
      match CredentialSlot(token, remainder)
      case Some(slot) => IsEqualsHeader(slot)
      case None => UrlBehindKey(token) || RiskyToken(token) || Restless(remainder)
  }

  /** Two lines that open with tokens before separators are equal only token by token. */
  lemma TokensAgree(gap: string, t: string, r: string, t': string, r': string)
    requires OneToken(t) && OneToken(t') && OpensWithSeparator(r) && OpensWithSeparator(r')
    ensures gap + (t + r) == gap + (t' + r') <==> t == t' && r == r'
  {
    if gap + (t + r) == gap + (t' + r') {
      assert (gap + (t + r))[|gap|..] == t + r && (gap + (t' + r'))[|gap|..] == t' + r';
      TakesToken(t, r);
      TakesToken(t', r');
      assert (t + r)[|t|..] == r && (t' + r')[|t'|..] == r';
    }
  }

  /** A slot that appears only on the scrubbed text takes the wrapper it hid behind with it. */
  lemma AppearingSlotChanges(gap: string, token: string, r: string)
    requires AllIn(gap, IsSeparator) && OneToken(token) && UrlBehindKey(token) && OpensWithSeparator(r)
    ensures var out := gap + (ScrubTokenSpec(token) + r); ScrubRest(out) != out
  {
    hide ScrubRest, ScrubTokenSpec, CredentialSlot, UrlBehindKey, SealedSlot;
    var t := ScrubTokenSpec(token);
    TokenScrubsToToken(token);
    SlotAppears(token, r);
    TakesToken(t, r);
    assert t[0] in t;
    RestUnfolds(gap + (t + r), gap, t, r);
    WrapperLost(gap, SealedSlot(CredentialSlot(t, r).value), t, r);
  }

  lemma WrapperLost(gap: string, sealed: string, t: string, r: string)
    requires Unwrapped(sealed) && !Unwrapped(t)
    ensures gap + sealed != gap + (t + r)
  {
    var w :| w in t && IsWrapper(w);
    assert w in t + r;
    assert (gap + sealed)[|gap|..] == sealed && (gap + (t + r))[|gap|..] == t + r;
  }

  /** Scrubbing what is left of a line twice is scrubbing it once, exactly when nothing in it is restless. */
  lemma {:induction false} RestStableIff(rest: string)
    ensures ScrubRest(ScrubRest(rest)) == ScrubRest(rest) <==> !Restless(rest)
    decreases |rest|
  {
    hide ScrubRest, ScrubTokenSpec, CredentialSlot, UrlBehindKey, RiskyToken, SealedSlot, IsEqualsHeader, TrimStart;
    var gap, token, more := FirstTokenOf(rest);
    if token == "" {
      assert rest == gap;
      OnlyGap(gap);
    } else {
      assert (token + more)[|token|..] == more;
      assert token[0] in token;
      RestUnfolds(rest, gap, token, more);
      if CredentialSlot(token, more).Some? {
        SlotTwice(gap, token, more);
      } else {
        TokenTwice(gap, token, more);
        RestStableIff(more);
      }
    }
  }

  /** A token that opens no slot, and the rest of its line, scrubbed again. */
  lemma TokenTwice(gap: string, token: string, more: string)
    requires AllIn(gap, IsSeparator) && OneToken(token) && OpensWithSeparator(more)
    requires CredentialSlot(token, more).None?
    ensures var out := gap + (ScrubTokenSpec(token) + ScrubRest(more));
            ScrubRest(out) == out
            <==> !UrlBehindKey(token) && !RiskyToken(token) && ScrubRest(ScrubRest(more)) == ScrubRest(more)
  {
    hide ScrubRest, ScrubTokenSpec, CredentialSlot, UrlBehindKey, RiskyToken;
    var t, r := ScrubTokenSpec(token), ScrubRest(more);
    RestClean(more);
    RestClean(r);
    if UrlBehindKey(token) {
      AppearingSlotChanges(gap, token, r);
    } else {
      TokenScrubsToToken(token);
      TokenScrubsToToken(t);
      NoSlotLeft(token, more);
      TokenLine(gap, t, r);
      TokenStableIffNotRisky(token);
      TokensAgree(gap, ScrubTokenSpec(t), ScrubRest(r), t, r);
    }
  }

  /** For every line: scrubbing is idempotent on it if and only if nothing in it is restless. */
  lemma ScrubTwiceIsOnceIff(line: string)
    ensures var once := ScrubRest(Controlled(line));
            ScrubRest(Controlled(once)) == once <==> !Restless(Controlled(line))
  {
    hide ScrubRest, Restless, Controlled;
    ControlledIsPrintable(line);
    RestPrintable(Controlled(line));
    PrintableIsUntouched(ScrubRest(Controlled(line)));
    RestStableIff(Controlled(line));
  }

  // ---- a plain condition ------------------------------------------------------------------

  /** Some token of the line ends in `=`. */
  predicate HoldsEmptyAssignment(s: string) {
    exists i :: 0 <= i < |s| && s[i] == '=' && (i + 1 == |s| || IsSeparator(s[i + 1]))
  }

  lemma NoUrlNoBlockedKey(token: string)
    requires !Contains(token, "://")
    ensures !UrlBehindKey(token)
  {
  }

  lemma {:induction false} NoAtNotRisky(core: string)
    requires '@' !in core
    ensures !Risky(core) && !KeepsAt(core)
    decreases |core|
  {
    hide StripQuotes, AssignmentAt, IsCredentialKey, Contains, IsPathLike, IsUserHost;
    var u := StripQuotes(core);
    StripQuotesShrinks(core);
    StripIsTrim(core);
    TrimKeepsOthers(core, IsQuote, '@');
    var at := AssignmentAt(u);
    if at.Some? {
      NoAtNotRisky(u[at.value + 1..]);
    } else if IsPathLike(u) {
      PathHasSlash(u);
      BasenameShorter(u);
      var named := NamedComponents(Components(u, '/'));
      if 2 < named.count {
        NoAtNotRisky(named.last);
      }
    }
  }

  lemma {:induction false} NoAtNotRiskyToken(token: string)
    requires '@' !in token
    ensures !RiskyToken(token)
    decreases |token|
  {
    hide Risky;
    var at := FindFirst(token, IsWrapper);
    if at.None? {
      NoAtNotRisky(token);
    } else {
      NoAtNotRisky(token[..at.value]);
      NoAtNotRiskyToken(token[at.value + 1..]);
    }
  }

  lemma EqualsHeaderEnds(token: string, remainder: string)
    requires CredentialSlot(token, remainder).Some? && IsEqualsHeader(CredentialSlot(token, remainder).value)
    ensures token != "" && token[|token| - 1] == '='
  {
    hide CredentialSlot, SealingKey, NextToken, ColonValue, Sealable, FindFirst, Contains;
    SlotIffOpens(token, remainder);
  }

  lemma {:induction false} PlainIsNotRestless(rest: string)
    requires NoUrl(rest) && '@' !in rest && !HoldsEmptyAssignment(rest)
    ensures !Restless(rest)
    decreases |rest|
  {
    hide CredentialSlot, UrlBehindKey, RiskyToken, IsEqualsHeader, TrimStart, NoUrl, HoldsEmptyAssignment;
    var gap, token, more := FirstTokenOf(rest);
    if token != "" {
      assert (token + more)[|token|..] == more;
      PlainParts(rest, gap, token, more);
      NoUrlIffNotContained(token);
      NoUrlNoBlockedKey(token);
      NoAtNotRiskyToken(token);
      if CredentialSlot(token, more).Some? {
        if IsEqualsHeader(CredentialSlot(token, more).value) {
          EqualsHeaderEnds(token, more);
        }
      } else {
        PlainIsNotRestless(more);
      }
    }
  }

  lemma PlainParts(rest: string, gap: string, token: string, more: string)
    requires rest == gap + (token + more) && token != "" && OpensWithSeparator(more)
    requires NoUrl(rest) && '@' !in rest && !HoldsEmptyAssignment(rest)
    ensures NoUrl(token) && NoUrl(more) && '@' !in token && '@' !in more
    ensures token[|token| - 1] != '=' && !HoldsEmptyAssignment(more)
  {
    hide NoUrl, HoldsEmptyAssignment, OpensWithSeparator;
    SuffixNoUrl(gap, token + more);
    SuffixNoUrl(token, more);
    PrefixNoUrl(token, more);
    EmptyAssignmentBehind(gap, token + more);
    EmptyAssignmentBehind(token, more);
    EmptyAssignmentEnds(token, more);
  }

  lemma SuffixNoUrl(a: string, b: string)
    requires NoUrl(a + b)
    ensures NoUrl(b)
  {
    forall i: nat | i < |b| ensures !UrlAt(b, i) {
      assert !UrlAt(a + b, |a| + i);
    }
  }

  lemma EmptyAssignmentEnds(token: string, more: string)
    requires token != "" && OpensWithSeparator(more)
    ensures token[|token| - 1] == '=' ==> HoldsEmptyAssignment(token + more)
  {
    var t, k := token + more, |token| - 1;
    assert t[k] == token[k] && (k + 1 < |t| ==> t[k + 1] == more[0]);
  }

  lemma EmptyAssignmentBehind(lead: string, s: string)
    ensures HoldsEmptyAssignment(s) ==> HoldsEmptyAssignment(lead + s)
  {
    if HoldsEmptyAssignment(s) {
      var i :| 0 <= i < |s| && s[i] == '=' && (i + 1 == |s| || IsSeparator(s[i + 1]));
      var t := lead + s;
      assert t[|lead| + i] == s[i] && (i + 1 == |s| || t[|lead| + i + 1] == s[i + 1]);
    }
  }

  /** The condition a caller can read off a line: no `://`, no `@`, and no token that ends in `=`. */
  predicate Stable(line: string) {
    !Contains(line, "://") && '@' !in line && !HoldsEmptyAssignment(line)
  }

  /** Escaping control characters brings in neither a delimiter nor a slash. */
  lemma {:induction false} EscapesArePlain(line: string)
    ensures NoUrl(line) ==> NoUrl(Controlled(line))
    ensures '@' !in line ==> '@' !in Controlled(line)
    ensures !HoldsEmptyAssignment(line) ==> !HoldsEmptyAssignment(Controlled(line))
    ensures OpensLike(line, Controlled(line))
  {
    if line != "" {
      var rest := line[1..];
      EscapesArePlain(rest);
      TailsArePlain(line);
      EscapeStep(line, EscapeControl(line[0]), Controlled(rest));
    }
  }

  /** As far as a URL or an empty assignment before them is concerned, the two texts open alike. */
  predicate OpensLike(s: string, t: string) {
    && (s == "" <==> t == "")
    && (t != "" && t[0] == '/' ==> s[0] == '/')
    && (t != "" && IsSeparator(t[0]) ==> s[0] == t[0])
    && (1 < |t| && t[0] == '/' && t[1] == '/' ==> 1 < |s| && s[0] == '/' && s[1] == '/')
  }

  lemma TailsArePlain(line: string)
    requires line != ""
    ensures NoUrl(line) ==> NoUrl(line[1..])
    ensures !HoldsEmptyAssignment(line) ==> !HoldsEmptyAssignment(line[1..])
  {
    var rest := line[1..];
    if NoUrl(line) {
      forall i: nat | i < |rest| ensures !UrlAt(rest, i) {
        assert !UrlAt(line, i + 1);
      }
    }
    if HoldsEmptyAssignment(rest) {
      var i :| 0 <= i < |rest| && rest[i] == '=' && (i + 1 == |rest| || IsSeparator(rest[i + 1]));
      assert line[i + 1] == '=';
    }
  }

  lemma EscapeStep(line: string, head: string, rest: string)
    requires line != "" && OpensLike(line[1..], rest) && head == EscapeControl(line[0])
    ensures NoUrl(line) && NoUrl(rest) ==> NoUrl(head + rest)
    ensures '@' !in line && '@' !in rest ==> '@' !in head + rest
    ensures !HoldsEmptyAssignment(line) && !HoldsEmptyAssignment(rest) ==> !HoldsEmptyAssignment(head + rest)
    ensures OpensLike(line, head + rest)
  {
    hide NoUrl, HoldsEmptyAssignment;
    EscapedHead(line[0]);
    EscapeNoUrl(line, head, rest);
    EscapeNoAssignment(line, head, rest);
  }

  /** The head of an escaped text is a plain character as it was, or an escape. */
  predicate EscapesTo(c: char, head: string) {
    || head == [c]
    || (1 < |head| && head[0] == '\\' && forall x :: x in head ==> x == '\\' || x == 'x' || IsAlnum(x))
  }

  lemma EscapeNoUrl(line: string, head: string, rest: string)
    requires line != "" && OpensLike(line[1..], rest) && EscapesTo(line[0], head)
    ensures NoUrl(line) && NoUrl(rest) ==> NoUrl(head + rest)
  {
    var t := head + rest;
    if NoUrl(line) && NoUrl(rest) {
      assert !UrlAt(line, 0);
      forall i: nat | i < |t| ensures !UrlAt(t, i) {
        if |head| <= i {
          assert UrlAt(t, i) == UrlAt(rest, i - |head|);
        } else {
          assert t[i] == head[i] && head[i] in head;
        }
      }
    }
  }

  lemma EscapeNoAssignment(line: string, head: string, rest: string)
    requires line != "" && OpensLike(line[1..], rest) && EscapesTo(line[0], head)
    ensures HoldsEmptyAssignment(head + rest) ==> HoldsEmptyAssignment(line) || HoldsEmptyAssignment(rest)
  {
    var t := head + rest;
    if HoldsEmptyAssignment(t) {
      var i :| 0 <= i < |t| && t[i] == '=' && (i + 1 == |t| || IsSeparator(t[i + 1]));
      if |head| <= i {
        assert rest[i - |head|] == '=';
      } else {
        assert head[i] in head;
        assert line[0] == '=';
      }
    }
  }

  lemma EscapedHead(c: char)
    ensures EscapesTo(c, EscapeControl(c))
  {
  }

  /** On every such line scrubbing is idempotent. */
  lemma StableScrubsOnce(line: string)
    requires Stable(line)
    ensures var once := ScrubRest(Controlled(line)); ScrubRest(Controlled(once)) == once
  {
    hide ScrubRest, Restless, Controlled, HoldsEmptyAssignment, NoUrl, Contains;
    NoUrlIffNotContained(line);
    EscapesArePlain(line);
    PlainIsNotRestless(Controlled(line));
    ScrubTwiceIsOnceIff(line);
  }

  // ---- the three ways it fails ---------------------------------------------------------------

  /** A header by `=`: the second scrub seals the slot the first one left empty. */
  lemma EqualsHeaderIsRestless(key: string, gap: string, value: string, rest: string)
    requires Opens(key, Header('=', gap, value, rest))
    ensures Restless(key + "=" + (gap + (value + rest)))
  {
    hide CredentialSlot, Opens, SealingKey, StripQuotes, LooksLikeAssignmentKey;
    var form := Header('=', gap, value, rest);
    HeaderOpens(key, form);
    SecretSlotFires(key, form);
    HeadIsOpaque(key, form);
    TailOpensWithSeparator(key, form);
    var t, r := Head(key, form), Tail(form);
    assert t == key + "=";
    TakesToken(t, r);
    assert t[0] in t;
    TrimStartStopsAt(t + r, IsSeparator);
    assert (t + r)[|t|..] == r;
  }

  /** So `KEY= v` scrubs to `KEY= <redacted>`, and that to `KEY=<redacted> <redacted>`. */
  lemma IdempotenceFails()
    ensures var once := ScrubRest(Controlled("KEY= v")); ScrubRest(Controlled(once)) != once
  {
    hide ScrubRest, Controlled, Restless, SealingKey, LooksLikeAssignmentKey, StripQuotes, IsFqdn;
    KeySeals();
    NoDotNoFqdn(StripQuotes("KEY"));
    EqualsHeaderIsRestless("KEY", " ", "v", "");
    assert "KEY" + "=" + (" " + ("v" + "")) == "KEY= v";
    PrintableIsUntouched("KEY= v");
    ScrubTwiceIsOnceIff("KEY= v");
  }

  lemma KeySeals()
    ensures SealingKey("KEY") && StripQuotes("KEY") == "KEY"
  {
    TrimmedIsItself("KEY");
    assert "KEY"[0] == 'K' && IsAlpha('K');
    assert Upper("KEY") == "KEY" && "KEY" <= Upper("KEY");
    assert "KEY" in CREDENTIAL_KEY_MARKERS && Contains(Upper("KEY"), "KEY");
    assert |Lower("KEY")| == 3;
  }

  lemma HeaderOpens(key: string, form: Form)
    requires Opens(key, form) && form.Header?
    ensures CredentialSlot(Head(key, form), Tail(form)).Some?
    ensures var slot := CredentialSlot(Head(key, form), Tail(form)).value;
            slot.bridge == " " && slot.prefix == key + [form.d]
  {
    hide CredentialSlot, SealingKey, Sealable, ColonValue, NextToken, FindFirst, Contains, StripQuotes,
         LooksLikeAssignmentKey, Opens;
    SecretSlotFires(key, form);
    SlotIffOpens(Head(key, form), Tail(form));
    OpensMeans(key, form);
    DelimiterAt(key, form.d, "");
    assert key + [form.d] + "" == key + [form.d];
  }

  lemma OpensMeans(key: string, form: Form)
    requires Opens(key, form) && form.Header?
    ensures LooksLikeAssignmentKey(StripQuotes(key)) && IsDelimiter(form.d)
  {
  }

  /** A credential key before a wrapper and a URL: the URL shut the slot, its sentinel no longer does. */
  lemma KeyBesideUrlIsRestless(piece: string, w: char, tail: string, remainder: string)
    requires KeepsKey(piece) && !Contains(piece, "://") && Unwrapped(piece) && IsWrapper(w)
    requires OneToken(piece + [w] + tail) && Contains(piece + [w] + tail, "://") && OpensWithSeparator(remainder)
    ensures Restless(piece + [w] + tail + remainder)
  {
    hide KeepsKey, CredentialSlot, Contains, FindFirst;
    var token := piece + [w] + tail;
    WrappedUnfolds(piece, w, tail);
    assert token[..|piece|] == piece;
    UrlShutsSlot(token, remainder);
    TakesToken(token, remainder);
    assert token[0] in token;
    TrimStartStopsAt(token + remainder, IsSeparator);
    assert (token + remainder)[|token|..] == remainder;
  }

  lemma UrlShutsSlot(token: string, remainder: string)
    requires Contains(token, "://")
    ensures CredentialSlot(token, remainder).None?
  {
  }

  /** A part of a path that names something and that no other rule speaks about. */
  predicate PathPart(part: string) {
    && part != "" && IsNamedComponent(part)
    && forall c :: c in part ==> c != '/' && c != '=' && c != ':' && !IsQuote(c) && !IsWrapper(c) && !IsSeparator(c)
  }

  function AtPath(a: string, b: string, name: string): string {
    "@" + ['/'] + (a + ['/'] + (b + ['/'] + name))
  }

  /** A deep path that opens with `@` and ends in a user@host: behind the sentinel the whole reads as one. */
  lemma AtPathIsRestless(a: string, b: string, name: string)
    requires PathPart(a) && PathPart(b) && PathPart(name) && AtBeforeEnd(name)
    ensures Restless(AtPath(a, b, name))
  {
    hide PathPart, AtBeforeEnd, FindFirst, CredentialSlot, Restless, Risky, TrimStart, TakeToken, AtPath, OneToken;
    var line := AtPath(a, b, name);
    AtPathChars(a, b, name);
    AtPathIsRisky(a, b, name);
    TakesToken(line, "");
    assert line + "" == line;
    UnwrappedUnfolds(line);
    NoneInLine(line);
    AtIsNoKey(line);
    KeylessOpensNothing(line, "");
    RiskyLineIsRestless(line);
  }

  lemma AtPathChars(a: string, b: string, name: string)
    requires PathPart(a) && PathPart(b) && PathPart(name)
    ensures var line := AtPath(a, b, name);
            && OneToken(line) && Unwrapped(line) && line[0] == '@'
            && '@' in line && '/' in line && '=' !in line && ':' !in line
            && Trimmed(line) && FindChar(line, '@') == Some(0)
  {
    var line := AtPath(a, b, name);
    assert line[0] == '@' && line[1] == '/';
    assert line[|line| - 1] == name[|name| - 1];
  }

  lemma NoneInLine(line: string)
    requires line != "" && OneToken(line) && '=' !in line && ':' !in line
    ensures FindFirst(line, IsDelimiter).None? && TrimStart(line, IsSeparator) == line
  {
    assert forall k :: 0 <= k < |line| ==> line[k] in line;
    NoneIs(line, IsDelimiter);
  }

  lemma RiskyLineIsRestless(line: string)
    requires line != "" && TrimStart(line, IsSeparator) == line && TakeToken(line) == line
    requires CredentialSlot(line, "").None? && FindFirst(line, IsWrapper).None? && Risky(line)
    ensures Restless(line)
  {
    hide Risky, CredentialSlot, FindFirst, TrimStart, TakeToken;
    assert line[|line|..] == "";
  }

  lemma AtIsNoKey(line: string)
    requires '@' in line
    ensures !LooksLikeAssignmentKey(StripQuotes(line))
  {
    TrimKeepsOthers(line, IsQuote, '@');
  }

  lemma AtPathIsRisky(a: string, b: string, name: string)
    requires PathPart(a) && PathPart(b) && PathPart(name) && AtBeforeEnd(name)
    ensures Risky(AtPath(a, b, name))
  {
    hide PathPart, AtBeforeEnd, AtPath, Contains, StripQuotes, IsCredentialKey, LooksLikeAssignmentKey, IsPathLike,
         KeepsAt, OneToken, Unwrapped, Components, NamedComponents;
    var line := AtPath(a, b, name);
    AtPathChars(a, b, name);
    TrimmedIsItself(line);
    NoSlashNoUrl(line);
    NoUrlIffNotContained(line);
    AtPathComponents(a, b, name);
    DeepIsPath(line);
    AtNameKeepsAt(name);
  }

  lemma DeepIsPath(line: string)
    requires '/' in line && |Components(line, '/')| == 4
    ensures IsPathLike(line)
  {
  }

  lemma AtNameKeepsAt(name: string)
    requires PathPart(name) && AtBeforeEnd(name)
    ensures KeepsAt(name)
  {
    hide LooksLikeAssignmentKey, AtBeforeEnd;
    assert name[0] in name && name[|name| - 1] in name;
    TrimmedIsItself(name);
    assert '=' !in name;
  }

  lemma AtPathComponents(a: string, b: string, name: string)
    requires PathPart(a) && PathPart(b) && PathPart(name)
    ensures var parts := Components(AtPath(a, b, name), '/');
            |parts| == 4 && NamedComponents(parts) == Named(name, 4)
  {
    hide Components, NamedComponents;
    OneComponent("@", a + ['/'] + (b + ['/'] + name));
    OneComponent(a, b + ['/'] + name);
    OneComponent(b, name);
    LastComponent(name);
    FourNamed("@", a, b, name);
    assert ["@"] + ([a] + ([b] + [name])) == ["@", a, b, name];
  }

  lemma FourNamed(a: string, b: string, c: string, d: string)
    requires IsNamedComponent(a) && IsNamedComponent(b) && IsNamedComponent(c) && IsNamedComponent(d)
    ensures NamedComponents([a, b, c, d]) == Named(d, 4)
  {
    hide IsNamedComponent, NamedComponents;
    assert NamedComponents([]) == Named("", 0) by {
      NothingNamed();
    }
    OneMoreNamed([], a);
    OneMoreNamed([a], b);
    OneMoreNamed([a, b], c);
    OneMoreNamed([a, b, c], d);
    assert [] + [a] == [a] && [a] + [b] == [a, b] && [a, b] + [c] == [a, b, c] && [a, b, c] + [d] == [a, b, c, d];
  }

  lemma NothingNamed()
    ensures NamedComponents([]) == Named("", 0)
  {
  }

  lemma OneMoreNamed(parts: seq<string>, part: string)
    requires IsNamedComponent(part)
    ensures NamedComponents(parts + [part]) == Named(part, NamedComponents(parts).count + 1)
  {
    hide IsNamedComponent;
    assert (parts + [part])[..|parts + [part]| - 1] == parts;
  }

  lemma LastComponent(part: string)
    requires part != "" && '/' !in part
    ensures Components(part, '/') == [part]
  {
  }

  lemma OneComponent(part: string, rest: string)
    requires part != "" && '/' !in part
    ensures Components(part + ['/'] + rest, '/') == [part] + Components(rest, '/')
  {
    var t := part + ['/'] + rest;
    FirstChar(part, '/', rest);
    assert t[..|part|] == part && t[|part| + 1..] == rest;
  }
}
