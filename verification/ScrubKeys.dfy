/** Which credential keys a scrubbed piece still opens with, and what it keeps behind them (bench-runner, scrub.rs). */
module ScrubKeys {
  import opened Wrappers
  import opened Text
  import opened Scrub
  import opened ScrubSafety
  import opened ScrubSecrets
  import opened ScrubFixed

  // ---- the key a scrubbed piece still opens with --------------------------------------

  /** The text before the first delimiter is a key that seals. */
  predicate HasSealingKey(s: string) {
    match FindFirst(s, IsDelimiter)
    case None => false
    case Some(i) => SealingKey(s[..i])
  }

  /** No plain rule replaces the whole core. */
  predicate Unruled(core: string) {
    var u := StripQuotes(core);
    !IsUserHost(u) && !IsPathLike(u) && ScrubHostLike(u).None?
  }

  /** A credential key that scrubbing leaves standing: by `=` always, by `:` unless a plain rule takes it. */
  predicate KeepsKey(core: string) {
    match FindFirst(core, IsDelimiter)
    case None => false
    case Some(i) => SealingKey(core[..i]) && (core[i] == '=' || Unruled(core))
  }

  /** The first delimiter of a text, seen past its opening quotes. */
  lemma DelimiterPastQuotes(lead: string, u: string, trail: string)
    requires AllIn(lead, IsQuote) && AllIn(trail, IsQuote)
    ensures var t := lead + u + trail; var at := FindFirst(u, IsDelimiter);
            FindFirst(t, IsDelimiter) == (if at.None? then None else Some(|lead| + at.value))
            && (at.Some? ==> t[..|lead| + at.value] == lead + u[..at.value] && t[|lead| + at.value] == u[at.value])
  {
    hide FindFirst, AllIn;
    DelimiterShifts(lead, u, trail);
    var at := FindFirst(u, IsDelimiter);
    if at.Some? {
      PastPrefix(lead, u, trail, at.value);
    }
  }

  lemma DelimiterShifts(lead: string, u: string, trail: string)
    requires AllIn(lead, IsQuote) && AllIn(trail, IsQuote)
    ensures FindFirst(lead + u + trail, IsDelimiter)
            == match FindFirst(u, IsDelimiter) case None => None case Some(i) => Some(|lead| + i)
  {
    hide FindFirst;
    FindFirstBefore(lead + u, trail, IsDelimiter);
    FindFirstBehind(lead, u, IsDelimiter);
  }

  lemma PastPrefix(lead: string, u: string, trail: string, i: nat)
    requires i < |u|
    ensures var t := lead + u + trail; t[..|lead| + i] == lead + u[..i] && t[|lead| + i] == u[i]
  {
  }

  lemma SealingPastQuotes(lead: string, key: string)
    requires AllIn(lead, IsQuote)
    ensures SealingKey(lead + key) == SealingKey(key)
  {
    hide LooksLikeAssignmentKey, IsCredentialKey, IsReadableHost;
    TrimWrapped(lead, key, "", IsQuote);
    assert lead + key + "" == lead + key;
  }

  lemma KeyPastQuotes(lead: string, u: string, trail: string)
    requires AllIn(lead, IsQuote) && AllIn(trail, IsQuote)
    ensures HasSealingKey(lead + u + trail) == HasSealingKey(u)
  {
    hide SealingKey;
    DelimiterPastQuotes(lead, u, trail);
    var at := FindFirst(u, IsDelimiter);
    if at.Some? {
      SealingPastQuotes(lead, u[..at.value]);
    }
  }

  lemma KeepsKeyPastQuotes(lead: string, u: string, trail: string)
    requires AllIn(lead, IsQuote) && AllIn(trail, IsQuote)
    ensures KeepsKey(lead + u + trail) == KeepsKey(u)
  {
    hide SealingKey, IsUserHost, IsPathLike, ScrubHostLike;
    DelimiterPastQuotes(lead, u, trail);
    TrimWrapped(lead, u, trail, IsQuote);
    var at := FindFirst(u, IsDelimiter);
    if at.Some? {
      SealingPastQuotes(lead, u[..at.value]);
    }
  }

  /** The first delimiter behind a key is the first delimiter there is. */
  lemma KeyDelimits(key: string, d: char, value: string)
    requires LooksLikeAssignmentKey(StripQuotes(key)) && IsDelimiter(d)
    ensures var t := key + [d] + value;
            FindFirst(t, IsDelimiter) == Some(|key|) && t[..|key|] == key && t[|key|] == d && t[|key| + 1..] == value
    ensures HasSealingKey(key + [d] + value) == SealingKey(key)
  {
    hide LooksLikeAssignmentKey, SealingKey, StripQuotes;
    DelimiterAt(key, d, value);
    var t := key + [d] + value;
    assert t[..|key|] == key;
  }

  /** Text that opens with a sentinel has no key in front. */
  lemma BracketHidesKey(t: string)
    requires t != "" && t[0] == '<'
    ensures !HasSealingKey(t)
  {
    hide LooksLikeAssignmentKey, IsCredentialKey, IsReadableHost, StripQuotes;
    var at := FindFirst(t, IsDelimiter);
    if at.Some? {
      OpeningBracketIsNoKey(t, at.value);
      EmptyIsNoKey();
    }
  }

  lemma EmptyIsNoKey()
    ensures !LooksLikeAssignmentKey(StripQuotes(""[..0]))
  {
  }

  // ---- whether a scrubbed core keeps its key -----------------------------------------------

  lemma KeySurvives(core: string)
    requires !Contains(core, "://")
    ensures HasSealingKey(ScrubCore(core)) <==> KeepsKey(core)
  {
    hide ScrubBare, HasSealingKey, KeepsKey, StripQuotes, Contains;
    var lead, trail := CoreThroughQuotes(core);
    var u := StripQuotes(core);
    if u == "" {
      QuotesHaveNoKey(core);
    } else {
      InnerHasNoUrl(lead, u, trail);
      KeyPastQuotes(lead, ScrubBare(u), trail);
      KeepsKeyPastQuotes(lead, u, trail);
      KeySurvivesBare(u);
    }
  }

  lemma InnerHasNoUrl(lead: string, u: string, trail: string)
    requires !Contains(lead + u + trail, "://")
    ensures !Contains(u, "://")
  {
    NoUrlIffNotContained(lead + u + trail);
    NoUrlIffNotContained(u);
    forall i: nat | i < |u| ensures !UrlAt(u, i) {
      assert !UrlAt(lead + u + trail, |lead| + i);
    }
  }

  lemma QuotesHaveNoKey(core: string)
    requires StripQuotes(core) == ""
    ensures !HasSealingKey(core) && !KeepsKey(core)
  {
    hide SealingKey, Unruled;
    var lead, trail := CoreThroughQuotes(core);
    assert forall k :: 0 <= k < |core| ==> IsQuote(core[k]);
    NoneIs(core, IsDelimiter);
  }

  lemma KeySurvivesBare(u: string)
    requires u != "" && Trimmed(u) && !Contains(u, "://")
    ensures HasSealingKey(ScrubBare(u)) <==> KeepsKey(u)
  {
    hide ScrubPlain, ScrubCore, IsCredentialKey, LooksLikeAssignmentKey, IsReadableHost, StripQuotes, Contains,
         HasSealingKey, KeepsKey;
    var at := AssignmentAt(u);
    if at.None? {
      KeySurvivesPlain(u);
    } else {
      var key, value := u[..at.value], u[at.value + 1..];
      assert u == key + ['='] + value;
      AssignmentDecides(key, value);
      KeyDelimits(key, '=', SECRET_SENTINEL);
      KeyDelimits(key, '=', ScrubCore(value));
      assert key + ['='] + SECRET_SENTINEL == key + "=" + SECRET_SENTINEL;
      assert key + ['='] + ScrubCore(value) == key + "=" + ScrubCore(value);
      SealingIsCredential(key);
    }
  }

  lemma SealingIsCredential(key: string)
    ensures SealingKey(key) ==> IsCredentialKey(StripQuotes(key)) && LooksLikeAssignmentKey(StripQuotes(key))
  {
  }

  lemma AssignmentDecides(key: string, value: string)
    requires LooksLikeAssignmentKey(StripQuotes(key))
    ensures KeepsKey(key + ['='] + value) == SealingKey(key)
  {
    hide LooksLikeAssignmentKey, SealingKey, StripQuotes, Unruled;
    KeyDelimits(key, '=', value);
  }

  /** Without an assignment, a `=` cannot be the delimiter of a sealing key. */
  lemma EqualsWouldAssign(u: string)
    requires AssignmentAt(u).None? && KeepsKey(u)
    ensures var at := FindFirst(u, IsDelimiter); at.Some? && SealingKey(u[..at.value]) && u[at.value] == ':' && Unruled(u)
  {
    hide LooksLikeAssignmentKey, IsCredentialKey, IsReadableHost, StripQuotes, Unruled;
    var i := FindFirst(u, IsDelimiter).value;
    SealingIsCredential(u[..i]);
    KeyHasNoSlash(u[..i]);
    FirstAtIndex(u, '=', i);
  }

  lemma FirstAtIndex(s: string, c: char, i: nat)
    requires i < |s| && c !in s[..i]
    ensures s[i] == c ==> FindChar(s, c) == Some(i)
    ensures s[i] != c && FindChar(s, c).Some? ==> i < FindChar(s, c).value
  {
    assert s == s[..i] + [s[i]] + s[i + 1..];
    if s[i] == c {
      FirstChar(s[..i], c, s[i + 1..]);
    } else {
      var at := FindChar(s, c);
      assert at.Some? ==> s[at.value] !in s[..i];
    }
  }

  lemma KeySurvivesPlain(u: string)
    requires u != "" && Trimmed(u) && AssignmentAt(u).None?
    ensures HasSealingKey(ScrubPlain(u)) <==> KeepsKey(u)
  {
    hide IsCredentialKey, LooksLikeAssignmentKey, IsReadableHost, StripQuotes, HasSealingKey, KeepsKey, IsUserHost,
         IsPathLike, ScrubHostLike, SecretColonAt, AssignmentAt, AbbreviatePath;
    if KeepsKey(u) {
      EqualsWouldAssign(u);
      TrimmedIsItself(u);
      UnruledMeans(u);
    }
    if IsUserHost(u) {
      BracketHidesKey(USERHOST_SENTINEL);
    } else if IsPathLike(u) {
      PathHasSlash(u);
      PathOpensWithBracket(u);
      BracketHidesKey(AbbreviatePath(u));
    } else if ScrubHostLike(u).Some? {
      HostSentinelLeads(u);
      BracketHidesKey(ScrubHostLike(u).value);
    } else if SecretColonAt(u).Some? {
      SecretColonKeepsKey(u);
    } else {
      UnchangedKeepsKey(u);
    }
  }

  lemma UnruledMeans(u: string)
    requires StripQuotes(u) == u
    ensures Unruled(u) <==> !IsUserHost(u) && !IsPathLike(u) && ScrubHostLike(u).None?
  {
  }

  lemma PathOpensWithBracket(path: string)
    requires '/' in path
    ensures AbbreviatePath(path) != "" && AbbreviatePath(path)[0] == '<'
  {
    hide ScrubCore;
  }

  lemma SecretColonKeepsKey(u: string)
    requires Trimmed(u) && SecretColonAt(u).Some? && !IsUserHost(u) && !IsPathLike(u) && ScrubHostLike(u).None?
    ensures var c := SecretColonAt(u).value;
            HasSealingKey(u[..c] + ":" + SECRET_SENTINEL) && KeepsKey(u)
  {
    hide LooksLikeAssignmentKey, IsCredentialKey, IsReadableHost, StripQuotes, IsUserHost, IsPathLike, ScrubHostLike,
         HasSealingKey;
    var c := SecretColonAt(u).value;
    var key := u[..c];
    TrimmedIsItself(u);
    UnruledMeans(u);
    assert u == key + [':'] + u[c + 1..];
    KeyDelimits(key, ':', u[c + 1..]);
    KeyDelimits(key, ':', SECRET_SENTINEL);
    assert key + [':'] + SECRET_SENTINEL == key + ":" + SECRET_SENTINEL;
  }

  lemma UnchangedKeepsKey(u: string)
    requires Trimmed(u) && AssignmentAt(u).None? && !IsUserHost(u) && !IsPathLike(u) && ScrubHostLike(u).None?
    ensures HasSealingKey(u) <==> KeepsKey(u)
  {
    hide LooksLikeAssignmentKey, IsCredentialKey, IsReadableHost, StripQuotes, IsUserHost, IsPathLike, ScrubHostLike;
    TrimmedIsItself(u);
    UnruledMeans(u);
  }

  // ---- what a scrubbed core keeps behind its key ---------------------------------------------

  /** A standing key seals a value that does not end in a quote, and leaves an empty `:` slot alone. */
  lemma KeptKeyValue(core: string, i: nat)
    requires !Contains(core, "://") && KeepsKey(core) && FindFirst(core, IsDelimiter) == Some(i)
    requires !IsQuote(core[|core| - 1])
    ensures i + 1 < |core| || core[i] == '=' ==> ScrubCore(core) == core[..i + 1] + SECRET_SENTINEL
    ensures i + 1 == |core| && core[i] == ':' ==> ScrubCore(core) == core
  {
    hide ScrubBare, ScrubCore, StripQuotes, Contains, KeepsKey, FindFirst;
    var lead, trail := CoreThroughQuotes(core);
    var u := StripQuotes(core);
    NothingTrails(lead + u, trail);
    assert core == lead + u && lead + u + "" == lead + u;
    if u == "" {
      QuotesHaveNoKey(core);
    } else {
      InnerHasNoUrl(lead, u, trail);
      KeepsKeyPastQuotes(lead, u, trail);
      DelimiterPastQuotes(lead, u, trail);
      KeptBehindQuotes(lead, u, i - |lead|);
      assert ScrubCore(core) == lead + ScrubBare(u);
    }
  }

  lemma KeptBehindQuotes(lead: string, u: string, j: nat)
    requires u != "" && Trimmed(u) && !Contains(u, "://") && KeepsKey(u) && FindFirst(u, IsDelimiter) == Some(j)
    ensures var core, i := lead + u, |lead| + j;
            && i < |core| && core[i] == u[j]
            && (i + 1 < |core| || core[i] == '=' ==> lead + ScrubBare(u) == core[..i + 1] + SECRET_SENTINEL)
            && (i + 1 == |core| && core[i] == ':' ==> lead + ScrubBare(u) == core)
  {
    hide ScrubBare, Contains, KeepsKey, FindFirst, Trimmed;
    KeptKeyBare(u, j);
    assert (lead + u)[..|lead| + j + 1] == lead + u[..j + 1];
    Associate(lead, u[..j + 1], SECRET_SENTINEL);
  }

  lemma NothingTrails(s: string, trail: string)
    requires s + trail != "" && !IsQuote((s + trail)[|s + trail| - 1]) && AllIn(trail, IsQuote)
    ensures trail == ""
  {
  }

  lemma KeptByEquals(u: string, i: nat)
    requires i < |u| && u[i] == '=' && !Contains(u, "://") && SealingKey(u[..i])
    ensures ScrubBare(u) == u[..i + 1] + SECRET_SENTINEL
  {
    hide LooksLikeAssignmentKey, IsCredentialKey, SealingKey, StripQuotes, Contains, ScrubBare;
    SealingIsCredential(u[..i]);
    KeyHasNoSlash(u[..i]);
    FirstAtIndex(u, '=', i);
    UpToDelimiter(u, i, SECRET_SENTINEL);
    CredentialBare(u, i);
  }

  lemma KeptByColon(u: string, i: nat)
    requires i < |u| && u[i] == ':' && !Contains(u, "://") && Trimmed(u) && SealingKey(u[..i]) && Unruled(u)
    ensures i + 1 < |u| ==> ScrubBare(u) == u[..i + 1] + SECRET_SENTINEL
    ensures i + 1 == |u| ==> ScrubBare(u) == u
  {
    hide LooksLikeAssignmentKey, SealingKey, StripQuotes, Contains, ScrubBare, ScrubPlain, AssignmentAt, Unruled,
         Trimmed;
    SealingIsCredential(u[..i]);
    KeyHasNoSlash(u[..i]);
    ColonIsNoAssignment(u, i);
    UnassignedBare(u);
    KeptColon(u, i);
  }

  lemma KeptKeyBare(u: string, i: nat)
    requires u != "" && Trimmed(u) && !Contains(u, "://") && KeepsKey(u) && FindFirst(u, IsDelimiter) == Some(i)
    ensures i + 1 < |u| || u[i] == '=' ==> ScrubBare(u) == u[..i + 1] + SECRET_SENTINEL
    ensures i + 1 == |u| && u[i] == ':' ==> ScrubBare(u) == u
  {
    hide SealingKey, Contains, ScrubBare, Unruled, Trimmed, FindFirst;
    if u[i] == '=' {
      KeptByEquals(u, i);
    } else {
      KeptByColon(u, i);
    }
  }

  lemma UpToDelimiter(u: string, i: nat, tail: string)
    requires i < |u|
    ensures u[..i] + [u[i]] + tail == u[..i + 1] + tail
  {
    assert u[..i] + [u[i]] == u[..i + 1];
  }

  lemma CredentialBare(u: string, i: nat)
    requires !Contains(u, "://") && FindChar(u, '=') == Some(i) && i != 0
    requires LooksLikeAssignmentKey(StripQuotes(u[..i])) && IsCredentialKey(StripQuotes(u[..i]))
    ensures ScrubBare(u) == u[..i] + ['='] + SECRET_SENTINEL
  {
    hide LooksLikeAssignmentKey, IsCredentialKey, StripQuotes, Contains, ScrubPlain;
  }

  lemma UnassignedBare(u: string)
    requires !Contains(u, "://") && AssignmentAt(u).None?
    ensures ScrubBare(u) == ScrubPlain(u)
  {
    hide ScrubPlain, Contains, AssignmentAt;
  }

  /** The colon rule, once no other plain rule applies. */
  lemma ColonRule(u: string)
    requires !IsUserHost(u) && !IsPathLike(u) && ScrubHostLike(u).None?
    ensures ScrubPlain(u) == match SecretColonAt(u) case None => u case Some(c) => u[..c] + [':'] + SECRET_SENTINEL
  {
    hide IsUserHost, IsPathLike, ScrubHostLike, SecretColonAt;
  }

  lemma SecretColonIs(u: string, i: nat)
    requires FindChar(u, ':') == Some(i) && i != 0 && SealingKey(u[..i])
    ensures SecretColonAt(u) == if i + 1 < |u| then Some(i) else None
  {
    hide LooksLikeAssignmentKey, IsCredentialKey, IsReadableHost, StripQuotes;
  }

  lemma KeptColon(u: string, i: nat)
    requires i < |u| && Trimmed(u) && u[i] == ':' && SealingKey(u[..i]) && Unruled(u)
    ensures i + 1 < |u| ==> ScrubPlain(u) == u[..i + 1] + SECRET_SENTINEL
    ensures i + 1 == |u| ==> ScrubPlain(u) == u
  {
    hide LooksLikeAssignmentKey, SealingKey, StripQuotes, ScrubPlain, SecretColonAt, IsUserHost, IsPathLike,
         ScrubHostLike, Unruled, Trimmed, FindChar;
    SealingIsCredential(u[..i]);
    TrimmedIsItself(u);
    UnruledMeans(u);
    KeyHasNoSlash(u[..i]);
    FirstAtIndex(u, ':', i);
    ColonRule(u);
    SecretColonIs(u, i);
    UpToDelimiter(u, i, SECRET_SENTINEL);
  }

  lemma ColonIsNoKey(key: string)
    requires ':' in key
    ensures !LooksLikeAssignmentKey(StripQuotes(key))
  {
    TrimKeepsOthers(key, IsQuote, ':');
  }

  lemma ColonIsNoAssignment(u: string, i: nat)
    requires i < |u| && u[i] == ':' && '=' !in u[..i]
    ensures AssignmentAt(u).None?
  {
    hide LooksLikeAssignmentKey, StripQuotes;
    FirstAtIndex(u, '=', i);
    var eq := FindChar(u, '=');
    if eq.Some? {
      assert u[..eq.value][i] == ':';
      ColonIsNoKey(u[..eq.value]);
    }
  }

  // ---- a scrubbed core without delimiters -------------------------------------------------------

  /** A scrubbed core that reads as a key and has no delimiter was left alone. */
  lemma KeyShapedIsUnchanged(core: string)
    requires FindFirst(ScrubCore(core), IsDelimiter).None? && LooksLikeAssignmentKey(StripQuotes(ScrubCore(core)))
    ensures ScrubCore(core) == core
  {
    hide ScrubBare, StripQuotes, LooksLikeAssignmentKey;
    var lead, trail := CoreThroughQuotes(core);
    var u := StripQuotes(core);
    if u != "" {
      DelimiterPastQuotes(lead, ScrubBare(u), trail);
      TrimWrapped(lead, ScrubBare(u), trail, IsQuote);
      StripIsTrim(ScrubCore(core));
      StripIsTrim(ScrubBare(u));
      KeyShapedBare(u);
    }
  }

  lemma BracketIsNoKey(t: string)
    requires t != "" && t[0] == '<'
    ensures !LooksLikeAssignmentKey(StripQuotes(t))
  {
    TrimKeepsOthers(t, IsQuote, t[0]);
  }

  lemma DelimiterIsFound(s: string, c: char)
    requires c in s && IsDelimiter(c)
    ensures FindFirst(s, IsDelimiter).Some?
  {
    var k :| 0 <= k < |s| && s[k] == c;
  }

  lemma KeyShapedBare(u: string)
    requires Trimmed(u) && FindFirst(ScrubBare(u), IsDelimiter).None?
    requires LooksLikeAssignmentKey(StripQuotes(ScrubBare(u)))
    ensures ScrubBare(u) == u
  {
    hide IsCredentialKey, LooksLikeAssignmentKey, IsReadableHost, StripQuotes, Contains, IsUserHost, IsPathLike,
         ScrubHostLike, SecretColonAt, AbbreviatePath, ScrubCore;
    if Contains(u, "://") {
      BracketIsNoKey(URL_SENTINEL);
    } else if AssignmentAt(u).Some? {
      assert '=' in ScrubBare(u);
      DelimiterIsFound(ScrubBare(u), '=');
    } else if IsUserHost(u) {
      BracketIsNoKey(USERHOST_SENTINEL);
    } else if IsPathLike(u) {
      PathHasSlash(u);
      PathOpensWithBracket(u);
      BracketIsNoKey(AbbreviatePath(u));
    } else if ScrubHostLike(u).Some? {
      HostSentinelLeads(u);
      BracketIsNoKey(ScrubHostLike(u).value);
    } else if SecretColonAt(u).Some? {
      assert ':' in ScrubBare(u);
      DelimiterIsFound(ScrubBare(u), ':');
    }
  }
}
