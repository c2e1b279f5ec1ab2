/** When a credential slot opens, and when one opens on text that was scrubbed already (bench-runner, scrub.rs). */
module ScrubSlots {
  import opened Wrappers
  import opened Text
  import opened Scrub
  import opened ScrubSafety
  import opened ScrubSecrets
  import opened ScrubKeeps
  import opened ScrubFixed
  import opened ScrubKeys

  // ---- when a slot opens, exactly -----------------------------------------------------

  /** The value found behind a colon that stands alone. */
  function ColonValue(remainder: string): string {
    NextToken(TrimStart(TrimStart(remainder, IsSeparator), IsColon))
  }

  /** A value worth sealing behind `key`. */
  predicate Sealable(key: string, value: string) {
    value != "" && value != SECRET_SENTINEL && !(IsFqdn(StripQuotes(key)) && AllDigits(value))
  }

  predicate OpensSlot(token: string, remainder: string) {
    match FindFirst(token, IsDelimiter)
    case Some(i) =>
      SealingKey(token[..i])
      && Sealable(token[..i], if i + 1 == |token| then NextToken(remainder) else token[i + 1..])
    case None => SealingKey(token) && NextToken(remainder) == ":" && Sealable(token, ColonValue(remainder))
  }

  function OpenedSlot(token: string, remainder: string): Slot {
    match FindFirst(token, IsDelimiter)
    case Some(i) =>
      if i + 1 == |token| then Slot(token, " ", NextToken(remainder)) else Slot(token[..i + 1], "", token[i + 1..])
    case None => Slot(token, ": ", ColonValue(remainder))
  }

  lemma SlotIffOpens(token: string, remainder: string)
    ensures CredentialSlot(token, remainder)
            == if !Contains(token, "://") && OpensSlot(token, remainder) then Some(OpenedSlot(token, remainder)) else None
  {
    hide LooksLikeAssignmentKey, IsCredentialKey, IsReadableHost, IsFqdn, StripQuotes, Contains, NextToken, TrimStart;
    var at := FindFirst(token, IsDelimiter);
    var i := if at.Some? then at.value else |token|;
    var d := if at.Some? then [token[i]] else "";
    assert token[..i] + d == if at.Some? then token[..i + 1] else token;
    assert at.Some? && i + 1 == |token| ==> token[..i + 1] == token;
    TrimEndSkips(token[..i], d, IsDelimiter);
    assert i != 0 ==> !IsDelimiter(token[..i][i - 1]);
    assert TrimEnd(token[..i], IsDelimiter) == token[..i];
    EmptyKeySealsNothing();
    assert at.None? ==> token[..i] == token;
  }

  lemma EmptyKeySealsNothing()
    ensures StripQuotes("") == "" && !LooksLikeAssignmentKey("")
  {
  }

  // ---- the next token, once scrubbed ----------------------------------------------------

  lemma BareNonEmpty(u: string)
    requires u != ""
    ensures ScrubBare(u) != ""
  {
    hide ScrubCore, IsCredentialKey, LooksLikeAssignmentKey, StripQuotes, Contains, IsUserHost, IsPathLike,
         ScrubHostLike, AbbreviatePath;
    if IsPathLike(u) {
      PathHasSlash(u);
      PathOpensWithBracket(u);
    }
    if ScrubHostLike(u).Some? {
      HostSentinelLeads(u);
    }
  }

  lemma CoreNonEmpty(core: string)
    requires core != ""
    ensures ScrubCore(core) != ""
  {
    hide ScrubBare, ScrubCore, StripQuotes;
    var lead, trail := CoreThroughQuotes(core);
    if StripQuotes(core) != "" {
      BareNonEmpty(StripQuotes(core));
    }
  }

  lemma TokenScrubsToToken(token: string)
    requires OneToken(token)
    ensures OneToken(ScrubTokenSpec(token))
  {
    hide ScrubCore;
    TokenChars(token);
    var at := FindFirst(token, IsWrapper);
    if at.None? {
      CoreNonEmpty(token);
    }
  }

  lemma SentinelStays()
    ensures ScrubTokenSpec(SECRET_SENTINEL) == SECRET_SENTINEL
  {
    hide ScrubCore, Fixed, FindFirst, ScrubTokenSpec;
    PlainSentinelIsFixed(SECRET_SENTINEL);
    FixedMeans(SECRET_SENTINEL);
    UnwrappedUnfolds(SECRET_SENTINEL);
  }

  lemma SentinelIsKeyless()
    ensures FindFirst(SECRET_SENTINEL, IsDelimiter).None? && !LooksLikeAssignmentKey(StripQuotes(SECRET_SENTINEL))
  {
    hide FindFirst, StripQuotes;
    NoneIs(SECRET_SENTINEL, IsDelimiter);
    BracketIsNoKey(SECRET_SENTINEL);
  }

  lemma DigitsStay(digits: string)
    requires digits != "" && AllDigits(digits)
    ensures ScrubTokenSpec(digits) == digits
    ensures FindFirst(digits, IsDelimiter).None? && !LooksLikeAssignmentKey(StripQuotes(digits))
  {
    hide ScrubCore;
    assert forall k :: 0 <= k < |digits| ==> digits[k] in digits;
    NoDotNoFqdn(digits);
    TrimmedIsItself(digits);
    QuietCoreUnchanged(digits);
    UnwrappedUnfolds(digits);
    NoneIs(digits, IsDelimiter);
  }

  lemma ColonStays()
    ensures ScrubTokenSpec(":") == ":"
  {
    hide IsFqdn;
    UnwrappedUnfolds(":");
    NoSlashNoUrl(":");
    NoUrlIffNotContained(":");
    ColonIsNoFqdn(":");
    assert ScrubBare(":") == ":";
    assert ScrubCore(":") == ScrubBare(":");
  }

  lemma AssignedBareHolds(u: string)
    requires !Contains(u, "://") && AssignmentAt(u).Some?
    ensures '=' in ScrubBare(u)
  {
    hide ScrubCore, IsCredentialKey, LooksLikeAssignmentKey, StripQuotes, Contains;
  }

  lemma UrlBare(u: string)
    requires Contains(u, "://")
    ensures ScrubBare(u) == URL_SENTINEL
  {
    hide Contains;
  }

  lemma BareIsColon(u: string)
    requires ScrubBare(u) == ":"
    ensures u == ":"
  {
    hide ScrubBare, ScrubPlain, AssignmentAt, Contains;
    if Contains(u, "://") {
      UrlBare(u);
    } else if AssignmentAt(u).Some? {
      AssignedBareHolds(u);
    } else {
      UnassignedBare(u);
      PlainIsColon(u);
    }
  }

  /** The plain rules leave a core alone, open it with a bracket, or put the sentinel behind it. */
  lemma PlainIsColon(u: string)
    ensures ScrubPlain(u) == u || (exists c :: c in ScrubPlain(u) && c == '<')
  {
    hide ScrubCore, IsCredentialKey, LooksLikeAssignmentKey, IsReadableHost, StripQuotes, IsUserHost, IsPathLike,
         ScrubHostLike, AbbreviatePath, SecretColonAt;
    assert SECRET_SENTINEL[0] == '<' && '<' in SECRET_SENTINEL && '<' in USERHOST_SENTINEL;
    if !IsUserHost(u) {
      if IsPathLike(u) {
        PathHasSlash(u);
        PathOpensWithBracket(u);
        assert AbbreviatePath(u)[0] in AbbreviatePath(u);
      } else if ScrubHostLike(u).Some? {
        HostSentinelLeads(u);
        assert ScrubHostLike(u).value[0] in ScrubHostLike(u).value;
      } else if SecretColonAt(u).Some? {
        BracketBehind(u[..SecretColonAt(u).value] + ":");
      }
    }
  }

  lemma BracketBehind(s: string)
    ensures '<' in s + SECRET_SENTINEL
  {
    assert (s + SECRET_SENTINEL)[|s|] == '<';
  }

  lemma {:induction false} WrapperStays(token: string, w: char)
    requires w in token && IsWrapper(w)
    ensures w in ScrubTokenSpec(token)
    decreases |token|
  {
    hide ScrubPiece;
    var at := FindFirst(token, IsWrapper);
    assert token == token[..at.value] + [token[at.value]] + token[at.value + 1..];
    assert forall k :: 0 <= k < at.value ==> !IsWrapper(token[..at.value][k]);
    if token[at.value] != w {
      WrapperStays(token[at.value + 1..], w);
    }
  }

  /** Only a colon scrubs to a colon. */
  lemma TokenIsColon(token: string)
    requires ScrubTokenSpec(token) == ":"
    ensures token == ":"
  {
    hide ScrubBare, ScrubCore, StripQuotes;
    var at := FindFirst(token, IsWrapper);
    if at.Some? {
      WrapperStays(token, token[at.value]);
    } else {
      EmptyCoreStays();
      var lead, trail := CoreThroughQuotes(token);
      if StripQuotes(token) != "" {
        BareNonEmpty(StripQuotes(token));
        assert |lead| + |ScrubBare(StripQuotes(token))| + |trail| == 1;
        assert lead == "" && trail == "";
        BareIsColon(StripQuotes(token));
      }
    }
  }

  /** A line's first token, scrubbed: sealed text, or the scrubbed token itself. */
  lemma FirstScrubbed(m: string, gap: string, token: string, more: string)
    requires m == gap + (token + more) && AllIn(gap, IsSeparator) && OneToken(token) && OpensWithSeparator(more)
    ensures CredentialSlot(token, more).None? ==> NextToken(ScrubRest(m)) == ScrubTokenSpec(token)
    ensures CredentialSlot(token, more).Some? ==> NextToken(ScrubRest(m)) != ":"
  {
    hide ScrubRest, ScrubTokenSpec, CredentialSlot, NextToken, SealedSlot;
    TakesToken(token, more);
    assert token[0] in token;
    RestUnfolds(m, gap, token, more);
    if CredentialSlot(token, more).Some? {
      SealedOpensWithKey(token, more);
      FirstOfNext(gap, SealedSlot(CredentialSlot(token, more).value));
    } else {
      TokenScrubsToToken(token);
      RestClean(more);
      NextTokenIs(gap, ScrubTokenSpec(token), ScrubRest(more));
    }
  }

  lemma SealedOpensWithKey(token: string, remainder: string)
    requires CredentialSlot(token, remainder).Some?
    ensures var sealed := SealedSlot(CredentialSlot(token, remainder).value);
            sealed != "" && sealed[0] != ':' && !IsSeparator(sealed[0])
  {
    hide CredentialSlot, LooksLikeAssignmentKey, StripQuotes;
    var key, d := SlotPrefix(token, remainder);
    KeyHasNoSlash(key);
    assert key[0] in key;
    assert SealedSlot(CredentialSlot(token, remainder).value)[0] == key[0];
  }

  lemma FirstOfNext(gap: string, s: string)
    requires AllIn(gap, IsSeparator) && s != "" && s[0] != ':' && !IsSeparator(s[0])
    ensures NextToken(gap + s) != ":"
  {
    TrimStartSkips(gap, s, IsSeparator);
    TrimStartStopsAt(s, IsSeparator);
  }

  /** What matters about the next token survives: nothing, the sentinel, a number, and a lone colon only from one. */
  lemma NextTokenKept(m: string)
    ensures var v, v' := NextToken(m), NextToken(ScrubRest(m));
            && (v == "" ==> v' == "")
            && (v == SECRET_SENTINEL ==> v' == v)
            && (v != "" && AllDigits(v) ==> v' == v)
            && (v' == ":" ==> v == ":")
  {
    hide ScrubRest, ScrubTokenSpec, CredentialSlot;
    var gap, token, more := FirstTokenOf(m);
    if token == "" {
      OnlyGap(gap);
      assert m == gap;
    } else {
      FirstScrubbed(m, gap, token, more);
      if token == SECRET_SENTINEL {
        SentinelStays();
        SentinelIsKeyless();
        KeylessOpensNothing(token, more);
      }
      if AllDigits(token) {
        DigitsStay(token);
        KeylessOpensNothing(token, more);
      }
      if ScrubTokenSpec(token) == ":" {
        TokenIsColon(token);
      }
    }
  }

  lemma KeylessOpensNothing(token: string, remainder: string)
    requires FindFirst(token, IsDelimiter).None? && !LooksLikeAssignmentKey(StripQuotes(token))
    ensures CredentialSlot(token, remainder).None?
  {
    hide LooksLikeAssignmentKey, IsCredentialKey, IsReadableHost, IsFqdn, StripQuotes, NextToken;
    SlotIffOpens(token, remainder);
  }

  /** What kept a value from being sealed keeps its scrubbed form from it too. */
  lemma StillNotSealable(key: string, m: string)
    requires !Sealable(key, NextToken(m))
    ensures !Sealable(key, NextToken(ScrubRest(m)))
  {
    hide ScrubRest, NextToken, IsFqdn, StripQuotes;
    NextTokenKept(m);
  }

  lemma ColonValueIs(gap: string, more: string)
    requires AllIn(gap, IsSeparator) && OpensWithSeparator(more)
    ensures ColonValue(gap + (":" + more)) == NextToken(more) && NextToken(gap + (":" + more)) == ":"
  {
    hide NextToken, TrimStart;
    NextTokenIs(gap, ":", more);
    TrimStartSkips(gap, ":" + more, IsSeparator);
    TrimStartStopsAt(":" + more, IsSeparator);
    TrimStartSkips(":", more, IsColon);
    NoColonToTrim(more);
  }

  lemma NoColonToTrim(more: string)
    requires OpensWithSeparator(more)
    ensures TrimStart(more, IsColon) == more
  {
  }

  /** The same behind a colon that stands alone. */
  lemma StillNotSealableBehindColon(key: string, m: string)
    requires NextToken(ScrubRest(m)) == ":" && !Sealable(key, ColonValue(m))
    ensures NextToken(m) == ":" && !Sealable(key, ColonValue(ScrubRest(m)))
  {
    hide ScrubRest, NextToken, IsFqdn, StripQuotes, ScrubTokenSpec, CredentialSlot, Sealable, ColonValue;
    NextTokenKept(m);
    var gap, token, more := FirstTokenOf(m);
    ColonOpensNothing(more);
    TakesToken(":", more);
    RestUnfolds(m, gap, ":", more);
    ColonStays();
    RestClean(more);
    ColonValueIs(gap, more);
    ColonValueIs(gap, ScrubRest(more));
    StillNotSealable(key, more);
  }

  lemma ColonOpensNothing(remainder: string)
    ensures CredentialSlot(":", remainder).None?
  {
    hide IsCredentialKey, IsReadableHost, IsFqdn, NextToken;
    SlotIffOpens(":", remainder);
    FirstIs(":", IsDelimiter, 0);
    EmptyKeySealsNothing();
    assert ":"[..0] == "";
  }

  // ---- slots on a scrubbed token --------------------------------------------------------------

  /** A credential key whose slot only a URL further on in its token kept shut. */
  predicate UrlBehindKey(token: string) {
    Contains(token, "://")
    && match FindFirst(token, IsWrapper)
       case None => false
       case Some(w) => !Contains(token[..w], "://") && KeepsKey(token[..w])
  }

  /** A token's first piece, and the scrubbed token it leads. */
  lemma FirstPiece(token: string) returns (piece: string, tail: string, scrubbed: string)
    ensures Unwrapped(piece) && token == piece + tail && ScrubTokenSpec(token) == ScrubPiece(piece) + scrubbed
    ensures (tail == "") == FindFirst(token, IsWrapper).None? && (tail == "") == (scrubbed == "")
    ensures tail != "" ==> IsWrapper(tail[0]) && IsWrapper(scrubbed[0]) && FindFirst(token, IsWrapper) == Some(|piece|)
  {
    hide ScrubPiece;
    var at := FindFirst(token, IsWrapper);
    if at.None? {
      piece, tail, scrubbed := token, "", "";
      assert forall c :: c in token ==> exists k :: 0 <= k < |token| && token[k] == c;
    } else {
      piece, tail := token[..at.value], token[at.value..];
      scrubbed := [token[at.value]] + ScrubTokenSpec(token[at.value + 1..]);
      assert forall k :: 0 <= k < |piece| ==> piece[k] == token[k];
    }
  }

  lemma PartNoUrl(a: string, b: string)
    requires !Contains(a + b, "://")
    ensures !Contains(a, "://")
  {
    NoUrlIffNotContained(a + b);
    NoUrlIffNotContained(a);
    PrefixNoUrl(a, b);
  }

  lemma WrapperIsNoKey(key: string, w: char)
    requires w in key && IsWrapper(w)
    ensures !SealingKey(key)
  {
    hide IsCredentialKey, IsReadableHost;
    TrimKeepsOthers(key, IsQuote, w);
  }

  lemma KeyEndsBefore(first: string, tail: string, i: nat)
    requires i < |first + tail| && IsDelimiter((first + tail)[i]) && SealingKey((first + tail)[..i])
    requires tail != "" ==> IsWrapper(tail[0])
    ensures i < |first|
  {
    hide SealingKey;
    var t := first + tail;
    if |first| < i {
      assert t[..i][|first|] == tail[0];
      WrapperIsNoKey(t[..i], tail[0]);
    }
  }

  /** A key before any wrapper belongs to the first piece. */
  lemma KeyInFirstPiece(first: string, tail: string, i: nat)
    requires FindFirst(first + tail, IsDelimiter) == Some(i) && SealingKey((first + tail)[..i])
    requires tail != "" ==> IsWrapper(tail[0])
    ensures FindFirst(first, IsDelimiter) == Some(i) && i < |first| && first[..i] == (first + tail)[..i]
    ensures HasSealingKey(first)
  {
    hide SealingKey, FindFirst;
    KeyEndsBefore(first, tail, i);
    assert forall k :: 0 <= k <= i ==> first[k] == (first + tail)[k];
    FirstIs(first, IsDelimiter, i);
    assert first[..i] == (first + tail)[..i];
  }

  /** A piece with a URL of its own is sealed whole, key and all. */
  lemma UrlHidesKey(piece: string)
    requires Contains(piece, "://")
    ensures !HasSealingKey(ScrubCore(piece))
  {
    hide HasSealingKey, StripQuotes, ScrubPlain;
    var lead, trail := CoreThroughQuotes(piece);
    var u := StripQuotes(piece);
    UrlInside(lead, u, trail);
    if u == "" {
      NoSlashNoUrl(u);
      NoUrlIffNotContained(u);
    } else {
      KeyPastQuotes(lead, URL_SENTINEL, trail);
      BracketHidesKey(URL_SENTINEL);
    }
  }

  lemma UrlInside(lead: string, u: string, trail: string)
    requires Contains(lead + u + trail, "://") && AllIn(lead, IsQuote) && AllIn(trail, IsQuote)
    ensures Contains(u, "://")
  {
    NoUrlIffNotContained(lead + u + trail);
    NoUrlIffNotContained(u);
    if NoUrl(u) {
      QuotesNoUrl(lead, u);
      QuotesNoUrl(trail, lead + u);
    }
  }

  /** A key that survives stands where it stood. */
  lemma KeptPrefix(core: string)
    requires !Contains(core, "://") && KeepsKey(core)
    ensures var i := FindFirst(core, IsDelimiter).value;
            && FindFirst(ScrubCore(core), IsDelimiter) == Some(i)
            && i < |ScrubCore(core)| && ScrubCore(core)[..i + 1] == core[..i + 1]
  {
    hide ScrubBare, ScrubCore, KeepsKey, StripQuotes, Contains, FindFirst;
    var lead, trail := CoreThroughQuotes(core);
    var u := StripQuotes(core);
    if u == "" {
      QuotesHaveNoKey(core);
    } else {
      InnerHasNoUrl(lead, u, trail);
      KeepsKeyPastQuotes(lead, u, trail);
      DelimiterPastQuotes(lead, u, trail);
      KeepsKeyMeans(u);
      KeptPrefixBare(u);
      DelimiterPastQuotes(lead, ScrubBare(u), trail);
      SamePrefix(lead, ScrubBare(u), u, trail, FindFirst(u, IsDelimiter).value + 1);
    }
  }

  lemma SamePrefix(lead: string, s: string, u: string, trail: string, n: nat)
    requires n <= |s| && n <= |u| && s[..n] == u[..n]
    ensures (lead + s + trail)[..|lead| + n] == (lead + u + trail)[..|lead| + n]
  {
    UpTo(lead, s, trail, n);
    UpTo(lead, u, trail, n);
  }

  lemma UpTo(lead: string, s: string, trail: string, n: nat)
    requires n <= |s|
    ensures (lead + s + trail)[..|lead| + n] == lead + s[..n]
  {
  }

  lemma KeptPrefixBare(u: string)
    requires u != "" && Trimmed(u) && !Contains(u, "://") && KeepsKey(u)
    ensures var i := FindFirst(u, IsDelimiter).value;
            FindFirst(ScrubBare(u), IsDelimiter) == Some(i)
            && i < |ScrubBare(u)| && ScrubBare(u)[..i + 1] == u[..i + 1]
  {
    hide ScrubBare, KeepsKey, SealingKey, Contains, Trimmed, FindFirst, StripQuotes, LooksLikeAssignmentKey;
    KeepsKeyMeans(u);
    var i := FindFirst(u, IsDelimiter).value;
    KeptKeyBare(u, i);
    SealingIsCredential(u[..i]);
    if ScrubBare(u) != u {
      UpToDelimiter(u, i, SECRET_SENTINEL);
      DelimiterAt(u[..i], u[i], SECRET_SENTINEL);
      assert u[..i] + [u[i]] == u[..i + 1];
    }
  }

  /** After a scrub, a slot opens exactly where a URL had kept it shut. */
  lemma NoSlotLeft(token: string, remainder: string)
    requires OneToken(token) && CredentialSlot(token, remainder).None? && !UrlBehindKey(token)
    ensures CredentialSlot(ScrubTokenSpec(token), ScrubRest(remainder)).None?
  {
    hide ScrubCore, ScrubRest, ScrubTokenSpec, CredentialSlot, SealingKey, Sealable, KeepsKey, HasSealingKey, Contains,
         NextToken, ColonValue, ScrubPiece, FindFirst;
    var t, r := ScrubTokenSpec(token), ScrubRest(remainder);
    SlotIffOpens(t, r);
    SlotIffOpens(token, remainder);
    var piece, tail, scrubbed := FirstPiece(token);
    var at := FindFirst(t, IsDelimiter);
    assert token[..|piece|] == piece;
    if OpensSlot(t, r) {
      if at.Some? {
        PieceOfToken(piece, tail, scrubbed, at.value);
        if Contains(token, "://") {
          BlockedByUrl(token, piece, tail);
        } else {
          KeyStillShut(token, remainder, at.value);
        }
      } else {
        BareKeyStillShut(token, remainder);
      }
    }
  }

  lemma BlockedByUrl(token: string, piece: string, tail: string)
    requires Contains(token, "://") && token == piece + tail && !Contains(piece, "://") && KeepsKey(piece)
    requires (tail == "") == FindFirst(token, IsWrapper).None?
    requires tail != "" ==> FindFirst(token, IsWrapper) == Some(|piece|)
    ensures UrlBehindKey(token)
  {
    hide KeepsKey, Contains, FindFirst;
    assert token[..|piece|] == piece;
    assert tail == "" ==> token == piece;
  }

  /** The key a scrubbed token opens with was its first piece's, and that piece has no URL. */
  lemma PieceOfToken(piece: string, tail: string, scrubbed: string, i: nat)
    requires Unwrapped(piece) && (scrubbed != "" ==> IsWrapper(scrubbed[0]))
    requires FindFirst(ScrubPiece(piece) + scrubbed, IsDelimiter) == Some(i)
    requires SealingKey((ScrubPiece(piece) + scrubbed)[..i])
    ensures !Contains(piece, "://") && KeepsKey(piece) && FindFirst(piece, IsDelimiter) == Some(i)
    ensures piece[..i + 1] == (ScrubPiece(piece) + scrubbed)[..i + 1]
  {
    hide ScrubCore, SealingKey, KeepsKey, HasSealingKey, Contains, FindFirst;
    ScrubbedPieceUnwrapped(piece);
    KeyInFirstPiece(ScrubPiece(piece), scrubbed, i);
    if piece == "" {
      EmptyHasNoKey();
    } else {
      if Contains(piece, "://") {
        UrlHidesKey(piece);
      }
      KeySurvives(piece);
      KeepsKeyMeans(piece);
      KeptPrefix(piece);
      var s := ScrubCore(piece) + scrubbed;
      assert s[..i + 1] == ScrubCore(piece)[..i + 1];
    }
  }

  lemma EmptyHasNoKey()
    ensures !HasSealingKey("")
  {
  }

  /** A key whose value was not worth sealing still has none after a scrub. */
  lemma KeyStillShut(token: string, remainder: string, i: nat)
    requires !Contains(token, "://") && !OpensSlot(token, remainder)
    requires FindFirst(ScrubTokenSpec(token), IsDelimiter) == Some(i) && SealingKey(ScrubTokenSpec(token)[..i])
    ensures !OpensSlot(ScrubTokenSpec(token), ScrubRest(remainder))
  {
    hide ScrubCore, ScrubRest, ScrubTokenSpec, SealingKey, Sealable, KeepsKey, Contains, NextToken, ColonValue,
         ScrubPiece, FindFirst;
    var piece, tail, scrubbed := FirstPiece(token);
    PieceOfToken(piece, tail, scrubbed, i);
    SameDelimiter(piece, tail, i);
    assert token[..i] == ScrubTokenSpec(token)[..i];
    var value := token[i + 1..];
    if value == "" {
      assert tail == "" && piece == token;
      HeaderStillShut(token, remainder, i);
    } else {
      AttachedStillShut(token, remainder, i, piece, tail);
    }
  }

  lemma SameDelimiter(piece: string, tail: string, i: nat)
    requires FindFirst(piece, IsDelimiter) == Some(i)
    ensures FindFirst(piece + tail, IsDelimiter) == Some(i) && (piece + tail)[..i + 1] == piece[..i + 1]
    ensures (piece + tail)[..i] == piece[..i]
  {
    FirstIs(piece + tail, IsDelimiter, i);
  }

  lemma HeaderStillShut(token: string, remainder: string, i: nat)
    requires !Contains(token, "://") && Unwrapped(token) && KeepsKey(token)
    requires FindFirst(token, IsDelimiter) == Some(i) && i + 1 == |token| && !Sealable(token[..i], NextToken(remainder))
    ensures !OpensSlot(ScrubTokenSpec(token), ScrubRest(remainder))
  {
    hide ScrubCore, ScrubRest, SealingKey, KeepsKey, Contains, NextToken, Sealable, ScrubTokenSpec, ScrubPiece,
         OpensSlot, FindFirst, Unwrapped;
    KeptKeyValue(token, i);
    UnwrappedUnfolds(token);
    assert token != "";
    PieceIsCore(token);
    NoDelimiterBefore(token, i);
    if token[i] == '=' {
      SentinelBehind(token[..i], '=', ScrubRest(remainder), i);
      assert token[..i + 1] == token[..i] + ['='];
    } else {
      StillNotSealable(token[..i], remainder);
      EmptySlotShut(token, ScrubRest(remainder), i);
    }
  }

  lemma EmptySlotShut(token: string, remainder: string, i: nat)
    requires FindFirst(token, IsDelimiter) == Some(i) && i + 1 == |token| && !Sealable(token[..i], NextToken(remainder))
    ensures !OpensSlot(token, remainder)
  {
    hide SealingKey, NextToken, Sealable;
  }

  /** The sentinel is never a value to seal. */
  lemma SentinelBehind(key: string, d: char, remainder: string, i: nat)
    requires IsDelimiter(d) && i == |key| && forall k :: 0 <= k < |key| ==> !IsDelimiter(key[k])
    ensures !OpensSlot(key + [d] + SECRET_SENTINEL, remainder)
  {
    hide SealingKey, NextToken, ColonValue, IsFqdn, StripQuotes;
    var t := key + [d] + SECRET_SENTINEL;
    FirstIs(t, IsDelimiter, |key|);
    assert t[|key| + 1..] == SECRET_SENTINEL;
  }

  lemma AttachedStillShut(token: string, remainder: string, i: nat, piece: string, tail: string)
    requires !Contains(token, "://") && token == piece + tail && Unwrapped(piece) && KeepsKey(piece)
    requires tail != "" ==> IsWrapper(tail[0])
    requires FindFirst(token, IsDelimiter) == Some(i) && FindFirst(piece, IsDelimiter) == Some(i)
    requires i + 1 < |token| && !Sealable(token[..i], token[i + 1..])
    ensures !OpensSlot(ScrubTokenSpec(token), ScrubRest(remainder))
  {
    hide ScrubCore, ScrubRest, SealingKey, KeepsKey, Contains, NextToken, ColonValue, IsFqdn, StripQuotes,
         ScrubTokenSpec, FindFirst, OpensSlot;
    var value := token[i + 1..];
    PlainValueEnds(value);
    if tail != "" {
      TailInValue(piece, tail, i);
    }
    assert tail == "" && piece == token;
    assert token[|token| - 1] == value[|value| - 1];
    KeptKeyValue(token, i);
    UnwrappedUnfolds(token);
    NoDelimiterBefore(token, i);
    SentinelBehind(token[..i], token[i], ScrubRest(remainder), i);
    assert token[..i + 1] == token[..i] + [token[i]];
  }

  lemma NoDelimiterBefore(s: string, i: nat)
    requires FindFirst(s, IsDelimiter) == Some(i)
    ensures i < |s| && IsDelimiter(s[i]) && forall k :: 0 <= k < i ==> !IsDelimiter(s[..i][k])
  {
  }

  lemma TailInValue(piece: string, tail: string, i: nat)
    requires i < |piece| && tail != ""
    ensures tail[0] in (piece + tail)[i + 1..]
  {
    assert (piece + tail)[i + 1..][|piece| - (i + 1)] == tail[0];
  }

  /** Neither the sentinel nor a number holds a wrapper or ends in a quote. */
  lemma PlainValueEnds(value: string)
    requires value != "" && (value == SECRET_SENTINEL || AllDigits(value))
    ensures !IsQuote(value[|value| - 1]) && forall c :: c in value ==> !IsWrapper(c)
  {
    assert value[|value| - 1] in value;
  }

  lemma BareKeyStillShut(token: string, remainder: string)
    requires !OpensSlot(token, remainder) || Contains(token, "://")
    requires FindFirst(ScrubTokenSpec(token), IsDelimiter).None?
    ensures !OpensSlot(ScrubTokenSpec(token), ScrubRest(remainder))
  {
    hide ScrubCore, ScrubRest, ScrubTokenSpec, SealingKey, Sealable, Contains, NextToken, ColonValue, ScrubPiece,
         FindFirst;
    if OpensSlot(ScrubTokenSpec(token), ScrubRest(remainder)) {
      KeyTokenUnchanged(token);
      if Contains(token, "://") {
        TokenNoUrl(token);
        NoUrlIffNotContained(token);
      } else {
        if !Sealable(token, ColonValue(remainder)) {
          StillNotSealableBehindColon(token, remainder);
        }
        NextTokenKept(remainder);
      }
    }
  }

  lemma KeyTokenUnchanged(token: string)
    requires FindFirst(ScrubTokenSpec(token), IsDelimiter).None? && SealingKey(ScrubTokenSpec(token))
    ensures ScrubTokenSpec(token) == token
  {
    hide ScrubCore, ScrubTokenSpec, SealingKey, StripQuotes, LooksLikeAssignmentKey, FindFirst;
    SealingIsCredential(ScrubTokenSpec(token));
    KeyHasNoSlash(ScrubTokenSpec(token));
    NoWrapperBefore(token);
    UnwrappedUnfolds(token);
    if token == "" {
      EmptyCoreStays();
    }
    KeyShapedIsUnchanged(token);
  }

  lemma NoWrapperBefore(token: string)
    requires Unwrapped(ScrubTokenSpec(token))
    ensures Unwrapped(token)
  {
    hide ScrubTokenSpec;
    forall w | w in token ensures !IsWrapper(w) {
      if IsWrapper(w) {
        WrapperStays(token, w);
      }
    }
  }

  /** And there it opens for certain, on a value that holds a wrapper. */
  lemma SlotAppears(token: string, remainder: string)
    requires UrlBehindKey(token)
    ensures var t := ScrubTokenSpec(token);
            && CredentialSlot(t, remainder).Some?
            && !Unwrapped(t) && Unwrapped(SealedSlot(CredentialSlot(t, remainder).value))
  {
    hide ScrubCore, ScrubPiece, ScrubTokenSpec, CredentialSlot, SealingKey, Sealable, KeepsKey, Contains, NextToken,
         ColonValue, FindFirst, SealedSlot;
    var piece, tail, scrubbed := FirstPiece(token);
    assert piece == token[..|piece|];
    KeepsKeyMeans(piece);
    assert ScrubPiece(piece) == ScrubCore(piece) by {
      PieceIsCore(piece);
    }
    var i := KeyLeadsScrubbed(piece, scrubbed);
    TokenNoUrl(token);
    NoUrlIffNotContained(ScrubTokenSpec(token));
    SealsAtKey(ScrubTokenSpec(token), remainder, i);
    assert scrubbed[0] in ScrubTokenSpec(token);
  }

  lemma PieceIsCore(piece: string)
    requires piece != ""
    ensures ScrubPiece(piece) == ScrubCore(piece)
  {
  }

  lemma KeyLeadsScrubbed(piece: string, scrubbed: string) returns (i: nat)
    requires !Contains(piece, "://") && KeepsKey(piece) && scrubbed != "" && IsWrapper(scrubbed[0])
    ensures var t := ScrubCore(piece) + scrubbed;
            FindFirst(t, IsDelimiter) == Some(i) && SealingKey(t[..i]) && i + 1 < |t| && scrubbed[0] in t[i + 1..]
  {
    hide ScrubCore, SealingKey, KeepsKey, Contains, FindFirst;
    KeepsKeyMeans(piece);
    KeptPrefix(piece);
    i := FindFirst(piece, IsDelimiter).value;
    SameDelimiter(ScrubCore(piece), scrubbed, i);
    assert ScrubCore(piece)[..i] == ScrubCore(piece)[..i + 1][..i] && piece[..i] == piece[..i + 1][..i];
    TailInValue(ScrubCore(piece), scrubbed, i);
  }

  lemma SealsAtKey(t: string, remainder: string, i: nat)
    requires !Contains(t, "://") && FindFirst(t, IsDelimiter) == Some(i) && SealingKey(t[..i]) && i + 1 < |t|
    requires exists w :: w in t[i + 1..] && IsWrapper(w)
    ensures CredentialSlot(t, remainder).Some? && Unwrapped(SealedSlot(CredentialSlot(t, remainder).value))
  {
    hide CredentialSlot, SealingKey, Sealable, Contains, NextToken, ColonValue, FindFirst, Unwrapped;
    var w :| w in t[i + 1..] && IsWrapper(w);
    WrapperIsSealable(t[..i], t[i + 1..], w);
    SlotIffOpens(t, remainder);
    SealUnwrapped(t, i);
  }

  lemma SealUnwrapped(t: string, i: nat)
    requires i < |t| && IsDelimiter(t[i]) && SealingKey(t[..i])
    ensures Unwrapped(t[..i + 1] + "" + SECRET_SENTINEL)
  {
    hide SealingKey, StripQuotes, LooksLikeAssignmentKey;
    SealingIsCredential(t[..i]);
    KeyHasNoSlash(t[..i]);
    assert t[..i + 1] == t[..i] + [t[i]];
  }

  lemma KeepsKeyMeans(core: string)
    requires KeepsKey(core)
    ensures core != "" && var at := FindFirst(core, IsDelimiter); at.Some? && SealingKey(core[..at.value])
  {
  }

  lemma WrapperIsSealable(key: string, value: string, w: char)
    requires w in value && IsWrapper(w)
    ensures Sealable(key, value)
  {
    hide IsFqdn, StripQuotes;
    assert w !in SECRET_SENTINEL;
  }
}
