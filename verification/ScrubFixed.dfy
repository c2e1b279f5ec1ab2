/** Which scrubbed pieces and tokens a second scrub leaves as they are (bench-runner, scrub.rs). */
module ScrubFixed {
  import opened Wrappers
  import opened Text
  import opened Scrub
  import opened ScrubSafety

  // ---- a core that scrubbing does not change -------------------------------------------

  /** Quotes aside, no rule changes `t`. */
  predicate Fixed(t: string) {
    ScrubBare(StripQuotes(t)) == StripQuotes(t)
  }

  /** The quotes around a core stay; what they enclose is scrubbed bare. */
  lemma CoreThroughQuotes(t: string) returns (lead: string, trail: string)
    ensures AllIn(lead, IsQuote) && AllIn(trail, IsQuote)
    ensures t == lead + StripQuotes(t) + trail
    ensures StripQuotes(t) != "" ==> ScrubCore(t) == lead + ScrubBare(StripQuotes(t)) + trail
    ensures StripQuotes(t) == "" ==> ScrubCore(t) == t
    ensures Trimmed(StripQuotes(t))
  {
    hide ScrubBare, AllIn, Trimmed, ScrubCore;
    var unquoted := TrimStart(t, IsQuote);
    var inner := TrimEnd(unquoted, IsQuote);
    CoreEdges(t);
    lead, trail := t[..|t| - |unquoted|], unquoted[|inner|..];
    if inner == "" {
      QuotesStay(t);
      EmptyIsTrimmed();
    } else {
      TrimmedCore(inner);
      CoreBetween(t);
    }
  }

  lemma EmptyIsTrimmed()
    ensures Trimmed("")
  {
  }

  lemma TrimmedCore(inner: string)
    requires Trimmed(inner) && inner != ""
    ensures ScrubCore(inner) == ScrubBare(inner)
  {
    hide ScrubBare;
    assert TrimStart(inner, IsQuote) == inner && TrimEnd(inner, IsQuote) == inner;
  }

  lemma CoreBetween(t: string)
    requires StripQuotes(t) != "" && ScrubCore(StripQuotes(t)) == ScrubBare(StripQuotes(t))
    ensures var unquoted := TrimStart(t, IsQuote); var inner := StripQuotes(t);
            ScrubCore(t) == t[..|t| - |unquoted|] + ScrubBare(inner) + unquoted[|inner|..]
  {
    hide ScrubBare, AllIn, Trimmed;
    CoreEdges(t);
    var unquoted, inner := TrimStart(t, IsQuote), StripQuotes(t);
    if |inner| == |t| {
      assert t[..|t| - |unquoted|] == "" && unquoted[|inner|..] == "" && inner == t;
      assert "" + ScrubBare(inner) + "" == ScrubBare(inner);
    }
  }

  lemma QuotesStay(t: string)
    requires AllIn(t, IsQuote)
    ensures ScrubBare(t) == t && ScrubCore(t) == t
  {
    assert t != "" ==> t[0] in t && !IsAlnum(t[0]);
    NoPlainRule(t);
    assert '=' !in t && ':' !in t;
    NoSlashNoUrl(t);
    NoUrlIffNotContained(t);
    TrimStartSkips(t, "", IsQuote);
    assert t + "" == t;
  }

  lemma NoPlainRule(t: string)
    requires '/' !in t && '@' !in t && ':' !in t
    requires t == "" || exists c :: c in t && !IsAlnum(c) && c != '.' && c != '-'
    ensures ScrubPlain(t) == t
  {
    NoLast(t, ':');
  }

  lemma EmptyStays()
    ensures ScrubBare("") == "" && Fixed("")
  {
    QuotesStay("");
  }

  /** A core is unchanged exactly when what its quotes enclose is. */
  lemma FixedMeans(t: string)
    ensures ScrubCore(t) == t <==> Fixed(t)
  {
    hide ScrubBare, ScrubCore, StripQuotes;
    EmptyStays();
    var lead, trail := CoreThroughQuotes(t);
    if StripQuotes(t) != "" {
      SameMiddle(lead, ScrubBare(StripQuotes(t)), StripQuotes(t), trail);
    }
  }

  lemma SameMiddle(lead: string, a: string, b: string, trail: string)
    ensures lead + a + trail == lead + b + trail <==> a == b
  {
    var s, t := lead + a + trail, lead + b + trail;
    if s == t {
      assert |a| == |b|;
      assert s[|lead|..|lead| + |a|] == a && t[|lead|..|lead| + |b|] == b;
    }
  }

  lemma FixedLooksInside(lead: string, t: string, trail: string)
    requires AllIn(lead, IsQuote) && AllIn(trail, IsQuote)
    ensures Fixed(lead + t + trail) == Fixed(t)
  {
    hide ScrubBare;
    TrimWrapped(lead, t, trail, IsQuote);
  }

  // ---- an `@` in the basename of a path -----------------------------------------------------

  /** The first `@` of `s` has something behind it. */
  predicate AtBeforeEnd(s: string) {
    match FindChar(s, '@')
    case None => false
    case Some(at) => at + 1 < |s|
  }

  /** Does the scrubbed form of a basename still hold an `@` before its end? */
  predicate KeepsAt(name: string)
    decreases |name|
  {
    var u := StripQuotes(name);
    match AssignmentAt(u)
    case None => AtBeforeEnd(u)
    case Some(eq) => !IsCredentialKey(StripQuotes(u[..eq])) && KeepsAt(u[eq + 1..])
  }

  /**
   The one shape of core a second scrub changes: a deep path that escaped the user@host rule because its first
   `@` opens or closes it, and whose scrubbed basename carries an `@` behind the sentinel.
   */
  predicate Risky(core: string)
    decreases |core|
  {
    var u := StripQuotes(core);
    !Contains(u, "://")
    && match AssignmentAt(u)
       case Some(eq) => !IsCredentialKey(StripQuotes(u[..eq])) && Risky(u[eq + 1..])
       case None =>
         && !IsUserHost(u) && IsPathLike(u)
         && var named := NamedComponents(Components(u, '/'));
            2 < named.count && KeepsAt(named.last)
  }

  lemma QuotesHideNoAt(lead: string, s: string)
    requires AllIn(lead, IsQuote)
    ensures AtBeforeEnd(lead + s) == AtBeforeEnd(s)
  {
    PrefixHidesNoAt(lead, s);
  }

  lemma PrefixHidesNoAt(k: string, s: string)
    requires '@' !in k
    ensures AtBeforeEnd(k + s) == AtBeforeEnd(s)
  {
    var at := FindChar(s, '@');
    if at.Some? {
      assert s == s[..at.value] + ['@'] + s[at.value + 1..];
      assert k + s == (k + s[..at.value]) + ['@'] + s[at.value + 1..];
      FirstChar(k + s[..at.value], '@', s[at.value + 1..]);
    } else {
      assert '@' !in k + s;
    }
  }

  /** `key=` before a scrubbed value, trimmed: the key stays, the value loses its closing quotes. */
  lemma TrimEndAtIsStripAt(s: string)
    ensures AtBeforeEnd(TrimEnd(s, IsQuote)) == AtBeforeEnd(StripQuotes(s))
  {
    hide AtBeforeEnd;
    var lead := TrimEndSplits(s, IsQuote);
    QuotesHideNoAt(lead, StripQuotes(s));
  }

  lemma {:induction false} KeepsAtMeans(name: string)
    requires '/' !in name
    ensures AtBeforeEnd(StripQuotes(ScrubCore(name))) <==> KeepsAt(name)
    decreases |name|, 1
  {
    hide ScrubBare, AtBeforeEnd, StripQuotes, AssignmentAt, IsCredentialKey;
    var lead, trail := CoreThroughQuotes(name);
    var u := StripQuotes(name);
    if u == "" {
      NothingInQuotes(name);
    } else {
      TrimWrapped(lead, ScrubBare(u), trail, IsQuote);
      StripIsTrim(ScrubCore(name));
      StripIsTrim(ScrubBare(u));
      TrimKeepsOthers(name, IsQuote, '/');
      StripIsTrim(name);
      KeepsAtBare(name);
    }
  }

  lemma NothingInQuotes(name: string)
    requires StripQuotes(name) == "" && '/' !in name
    ensures !KeepsAt(name) && !AtBeforeEnd(StripQuotes(ScrubCore(name)))
  {
    hide ScrubCore;
    var lead, trail := CoreThroughQuotes(name);
  }

  lemma {:induction false} KeepsAtBare(name: string)
    requires '/' !in name && StripQuotes(name) != ""
    ensures AtBeforeEnd(StripQuotes(ScrubBare(StripQuotes(name)))) <==> KeepsAt(name)
    decreases |name|, 0
  {
    hide ScrubPlain, ScrubCore, AtBeforeEnd, IsCredentialKey, LooksLikeAssignmentKey, StripQuotes, Contains;
    var u := StripQuotes(name);
    var lead, trail := CoreThroughQuotes(name);
    assert '/' !in u;
    NoSlashNoUrl(u);
    NoUrlIffNotContained(u);
    var at := AssignmentAt(u);
    if at.None? {
      KeepsAtPlain(u);
    } else {
      var key, value := u[..at.value], u[at.value + 1..];
      assert key[0] == u[0];
      KeyHoldsNoAt(key);
      AssignedStrips(key, if IsCredentialKey(StripQuotes(key)) then SECRET_SENTINEL else ScrubCore(value));
      if IsCredentialKey(StripQuotes(key)) {
        SentinelTrims();
        PrefixHidesNoAt(key + "=", SECRET_SENTINEL);
        NoAtNone(SECRET_SENTINEL);
      } else {
        assert |value| < |name|;
        KeepsAtMeans(value);
        PrefixHidesNoAt(key + "=", TrimEnd(ScrubCore(value), IsQuote));
        TrimEndAtIsStripAt(ScrubCore(value));
      }
    }
  }

  lemma NoAtNone(s: string)
    requires '@' !in s
    ensures !AtBeforeEnd(s)
  {
  }

  lemma SentinelTrims()
    ensures TrimEnd(SECRET_SENTINEL, IsQuote) == SECRET_SENTINEL
  {
  }

  lemma KeyHoldsNoAt(key: string)
    requires LooksLikeAssignmentKey(StripQuotes(key))
    ensures '@' !in key && key != ""
  {
    KeyHasNoSlash(key);
    if '@' in key {
      KeyAlphabet(key, '@');
    }
  }

  lemma UserHostHasAt(u: string)
    ensures IsUserHost(u) ==> AtBeforeEnd(u)
  {
  }

  lemma UserSentinelHasAt()
    ensures AtBeforeEnd(USERHOST_SENTINEL) && StripQuotes(USERHOST_SENTINEL) == USERHOST_SENTINEL
  {
    hide StripQuotes;
    TrimmedIsItself(USERHOST_SENTINEL);
    FirstChar("<user", '@', "host>");
    assert "<user" + ['@'] + "host>" == USERHOST_SENTINEL;
  }

  lemma KeepsAtPlain(u: string)
    requires '/' !in u && Trimmed(u) && u != "" && AssignmentAt(u).None?
    ensures AtBeforeEnd(StripQuotes(ScrubPlain(u))) <==> AtBeforeEnd(u)
  {
    hide IsFqdn, LooksLikeAssignmentKey, IsCredentialKey, StripQuotes, ScrubHostLike, SecretColonAt, IsUserHost, IsPathLike,
         AtBeforeEnd, AbbreviatePath, AssignmentAt;
    NoSlashNoPath(u);
    UserHostHasAt(u);
    if IsUserHost(u) {
      UserSentinelHasAt();
    } else if ScrubHostLike(u).Some? {
      HostHoldsNoAt(u);
      NoAtNone(u);
      NoAtNone(StripQuotes(ScrubHostLike(u).value));
    } else if SecretColonAt(u).Some? {
      SecretHoldsNoAt(u);
    } else {
      TrimmedIsItself(u);
    }
  }

  lemma HostHoldsNoAt(u: string)
    requires ScrubHostLike(u).Some?
    ensures '@' !in u && '@' !in StripQuotes(ScrubHostLike(u).value)
  {
    hide StripQuotes, ScrubHostLike;
    var host := ScrubHostLike(u).value;
    HostAlphabet(u);
    StripIsTrim(host);
    TrimKeepsOthers(host, IsQuote, '@');
  }

  lemma HostAlphabet(u: string)
    requires ScrubHostLike(u).Some?
    ensures '@' !in u && '@' !in ScrubHostLike(u).value
  {
    hide IsFqdn;
    var colon := FindLast(u, ':');
    if IsFqdn(u) {
      FqdnHoldsNoAt(u);
    } else {
      FqdnHoldsNoAt(u[..colon.value]);
      assert u == u[..colon.value] + [':'] + u[colon.value + 1..];
    }
    assert '@' !in HOST_SENTINEL;
  }

  lemma FqdnHoldsNoAt(u: string)
    requires IsFqdn(u)
    ensures '@' !in u
  {
  }

  lemma SecretHoldsNoAt(u: string)
    requires SecretColonAt(u).Some? && !IsUserHost(u)
    ensures !AtBeforeEnd(u)
    ensures var c := SecretColonAt(u).value; !AtBeforeEnd(StripQuotes(u[..c] + ":" + SECRET_SENTINEL))
  {
    hide LooksLikeAssignmentKey, IsCredentialKey, StripQuotes;
    var c := SecretColonAt(u).value;
    KeyHoldsNoAt(u[..c]);
    assert u[0] == u[..c][0] && u[..c][0] in u[..c];
    var sealed := u[..c] + ":" + SECRET_SENTINEL;
    StripIsTrim(sealed);
    TrimKeepsOthers(sealed, IsQuote, '@');
  }

  // ---- exactly which cores settle ------------------------------------------------------------

  lemma SentinelLedIsFixed(t: string)
    requires t != "" && t[0] == '<' && Trimmed(t) && !IsPathLike(t) && !Contains(t, "://") && !IsUserHost(t)
    ensures ScrubBare(t) == t && Fixed(t)
  {
    hide LooksLikeAssignmentKey, IsPathLike, Contains, IsUserHost, ScrubHostLike;
    TrimmedIsItself(t);
    OpeningBracketIsNoHost(t);
    if FindChar(t, '=').Some? {
      OpeningBracketIsNoKey(t, FindChar(t, '=').value);
    }
    if FindChar(t, ':').Some? {
      OpeningBracketIsNoKey(t, FindChar(t, ':').value);
    }
  }

  lemma UserHostIsFixed()
    ensures Fixed(USERHOST_SENTINEL)
  {
    hide Fixed, Contains, IsUserHost;
    var t := USERHOST_SENTINEL;
    assert '=' !in t && '/' !in t && Trimmed(t);
    NoSlashNoUrl(t);
    NoUrlIffNotContained(t);
    FirstChar("<user", '@', "host>");
    assert "<user" + ['@'] + "host>" == t;
    assert IsUserHost(t) by {
      UserHostAt(t, 5);
    }
    UserHostStays(t);
  }

  lemma UserHostAt(t: string, i: nat)
    requires FindChar(t, '@') == Some(i) && 0 < i && i + 1 < |t|
    ensures IsUserHost(t)
  {
  }

  lemma UserHostStays(t: string)
    requires t == USERHOST_SENTINEL && Trimmed(t) && IsUserHost(t) && '=' !in t && !Contains(t, "://")
    ensures Fixed(t)
  {
    hide Contains, IsUserHost, IsPathLike, IsFqdn, StripQuotes;
    TrimmedIsItself(t);
    assert AssignmentAt(t).None?;
  }

  lemma PlainSentinelIsFixed(t: string)
    requires t != "" && t[0] == '<' && Trimmed(t) && '/' !in t && '@' !in t
    ensures Fixed(t)
  {
    hide IsPathLike, Fixed;
    NoSlashNoPath(t);
    NoSlashNoUrl(t);
    NoUrlIffNotContained(t);
    SentinelLedIsFixed(t);
  }

  /** A path sentinel before a basename settles exactly when no `@` shows behind it. */
  lemma PathLedFixed(name: string)
    requires '/' !in name
    ensures Fixed("<path>/" + name) <==> !AtBeforeEnd(StripQuotes(name))
  {
    hide IsPathLike, AtBeforeEnd, ScrubBare, Trim, TrimEnd, Contains;
    var bare := TrimEnd(name, IsQuote);
    var t := "<path>/" + bare;
    TrimEndCuts(name, IsQuote);
    TrimKeepsPrefix("<path>/", name, IsQuote);
    TrimEndKeepsOthers(name, IsQuote, '/');
    SentinelAndNameIsNoPath(bare);
    PathLedNoUrl(bare);
    TrimEndAtIsStripAt(name);
    assert '@' !in "<path>/";
    PrefixHidesNoAt("<path>/", bare);
    PathLedUserHost(bare);
    if AtBeforeEnd(bare) {
      UserHostWins(t);
    } else {
      SentinelLedIsFixed(t);
    }
  }

  lemma PathLedNoUrl(name: string)
    requires '/' !in name
    ensures !Contains("<path>/" + name, "://")
  {
    NoSlashNoUrl("<path>/");
    NoSlashNoUrl(name);
    JoinNoUrl("<path>/", name);
    NoUrlIffNotContained("<path>/" + name);
  }

  lemma PathLedUserHost(name: string)
    ensures IsUserHost("<path>/" + name) <==> AtBeforeEnd("<path>/" + name)
  {
    var t := "<path>/" + name;
    assert t[0] == '<';
  }

  lemma UserHostWins(t: string)
    requires t != "" && t[0] == '<' && IsUserHost(t) && !Contains(t, "://") && t[1] == 'p'
    ensures ScrubBare(t) != t
  {
    hide LooksLikeAssignmentKey, Contains;
    if FindChar(t, '=').Some? {
      OpeningBracketIsNoKey(t, FindChar(t, '=').value);
    }
    assert AssignmentAt(t).None?;
    assert ScrubBare(t) == USERHOST_SENTINEL;
  }

  /** A sealed key, in `=` or `:` form, stays sealed. */
  lemma SealedKeyIsFixed(key: string, d: char)
    requires LooksLikeAssignmentKey(StripQuotes(key)) && IsCredentialKey(StripQuotes(key)) && !IsQuote(key[0])
    requires IsDelimiter(d) && (d == ':' ==> !IsReadableHost(StripQuotes(key)))
    ensures ScrubBare(key + [d] + SECRET_SENTINEL) == key + [d] + SECRET_SENTINEL
    ensures Fixed(key + [d] + SECRET_SENTINEL)
  {
    hide LooksLikeAssignmentKey, IsCredentialKey, IsReadableHost, StripQuotes, Contains, ScrubBare;
    var t := key + [d] + SECRET_SENTINEL;
    KeyHasNoSlash(key);
    assert t[0] == key[0] && t[|t| - 1] == '>';
    TrimmedIsItself(t);
    assert '/' !in t;
    NoSlashNoUrl(t);
    NoUrlIffNotContained(t);
    if d == '=' {
      EqualsKeyStays(key);
    } else {
      ColonKeyStays(key);
    }
  }

  lemma EqualsKeyStays(key: string)
    requires LooksLikeAssignmentKey(StripQuotes(key)) && IsCredentialKey(StripQuotes(key))
    requires var t := key + ['='] + SECRET_SENTINEL; !Contains(t, "://")
    ensures var t := key + ['='] + SECRET_SENTINEL; ScrubBare(t) == t
  {
    hide LooksLikeAssignmentKey, IsCredentialKey, StripQuotes, Contains;
    assert key + ['='] + SECRET_SENTINEL == key + "=" + SECRET_SENTINEL;
    AssignmentFound(key, SECRET_SENTINEL);
  }

  lemma ColonKeyStays(key: string)
    requires LooksLikeAssignmentKey(StripQuotes(key)) && IsCredentialKey(StripQuotes(key))
    requires !IsReadableHost(StripQuotes(key))
    requires var t := key + [':'] + SECRET_SENTINEL; !Contains(t, "://") && '/' !in t
    ensures var t := key + [':'] + SECRET_SENTINEL; ScrubBare(t) == t
  {
    hide LooksLikeAssignmentKey, IsCredentialKey, IsReadableHost, StripQuotes, Contains, IsPathLike, ScrubHostLike,
         SecretColonAt, IsUserHost;
    var t := key + [':'] + SECRET_SENTINEL;
    KeyHasNoSlash(key);
    KeyHoldsNoAt(key);
    assert '=' !in t && '@' !in t;
    NoSlashNoPath(t);
    NoAtNoUserHost(t);
    SealedColonIsNoHost(key, SECRET_SENTINEL);
    SentinelBehindColon(key);
  }

  lemma NoAtNoUserHost(t: string)
    requires '@' !in t
    ensures !IsUserHost(t)
  {
  }

  lemma SentinelBehindColon(key: string)
    requires LooksLikeAssignmentKey(StripQuotes(key)) && IsCredentialKey(StripQuotes(key))
    requires !IsReadableHost(StripQuotes(key))
    ensures var t := key + [':'] + SECRET_SENTINEL;
            SecretColonAt(t) == Some(|key|) && t[..|key|] + ":" + SECRET_SENTINEL == t
  {
    hide LooksLikeAssignmentKey, IsCredentialKey, IsReadableHost, StripQuotes;
    var t := key + [':'] + SECRET_SENTINEL;
    KeyHasNoSlash(key);
    FirstChar(key, ':', SECRET_SENTINEL);
    assert t[..|key|] == key && t[|key| + 1..] == SECRET_SENTINEL;
  }

  /** A benign assignment settles exactly when its value does. */
  lemma AssignedFixed(key: string, s: string)
    requires LooksLikeAssignmentKey(StripQuotes(key)) && !IsQuote(key[0])
    requires !IsCredentialKey(StripQuotes(key)) && NoUrl(s)
    ensures Fixed(key + "=" + s) <==> Fixed(s)
  {
    hide LooksLikeAssignmentKey, IsCredentialKey, ScrubCore, ScrubBare, StripQuotes, Contains, Fixed, NoUrl, TrimEnd;
    var value := TrimEnd(s, IsQuote);
    AssignedStrips(key, s);
    TrimEndCuts(s, IsQuote);
    var trail := s[|value|..];
    assert s == value + trail;
    PrefixNoUrl(value, trail);
    AssignedBare(key, value);
    FixedMeans(value);
    FixedUnfolds(key + "=" + s);
    FixedLooksInside("", value, trail);
    assert "" + value + trail == s;
  }

  lemma AssignedBare(key: string, value: string)
    requires LooksLikeAssignmentKey(StripQuotes(key)) && !IsCredentialKey(StripQuotes(key)) && NoUrl(value)
    ensures var u := key + "=" + value; ScrubBare(u) == u <==> ScrubCore(value) == value
  {
    hide LooksLikeAssignmentKey, IsCredentialKey, ScrubCore, ScrubPlain, StripQuotes, Contains, NoUrl;
    var u := key + "=" + value;
    KeyHasNoSlash(key);
    NoSlashNoUrl(key + "=");
    JoinNoUrl(key + "=", value);
    NoUrlIffNotContained(u);
    AssignmentFound(key, value);
    assert ScrubBare(u) == key + "=" + ScrubCore(value);
    SameMiddle(key + "=", ScrubCore(value), value, "");
    assert key + "=" + ScrubCore(value) + "" == key + "=" + ScrubCore(value) && u + "" == u;
  }

  lemma FixedUnfolds(t: string)
    ensures Fixed(t) <==> ScrubBare(StripQuotes(t)) == StripQuotes(t)
  {
  }

  lemma PrefixNoUrl(a: string, b: string)
    requires NoUrl(a + b)
    ensures NoUrl(a)
  {
    forall i: nat | i < |a| ensures !UrlAt(a, i) {
      assert !UrlAt(a + b, i);
    }
  }

  lemma {:induction false} CoreSettles(core: string)
    ensures Fixed(ScrubCore(core)) <==> !Risky(core)
    decreases |core|, 2
  {
    hide ScrubBare, StripQuotes, Fixed, AssignmentAt, IsCredentialKey, Contains, IsPathLike, IsUserHost;
    var lead, trail := CoreThroughQuotes(core);
    var u := StripQuotes(core);
    if u == "" {
      QuotesSettle(core);
    } else {
      FixedLooksInside(lead, ScrubBare(u), trail);
      BareSettles(core);
    }
  }

  lemma QuotesSettle(core: string)
    requires StripQuotes(core) == ""
    ensures Fixed(ScrubCore(core)) && !Risky(core)
  {
    hide ScrubCore, ScrubBare;
    var lead, trail := CoreThroughQuotes(core);
    EmptyStays();
  }

  lemma {:induction false} BareSettles(core: string)
    requires StripQuotes(core) != ""
    ensures Fixed(ScrubBare(StripQuotes(core))) <==> !Risky(core)
    decreases |core|, 1
  {
    hide ScrubPlain, ScrubCore, IsCredentialKey, LooksLikeAssignmentKey, StripQuotes, Contains, Fixed, IsPathLike,
         IsUserHost;
    var u := StripQuotes(core);
    var lead, trail := CoreThroughQuotes(core);
    if Contains(u, "://") {
      PlainSentinelIsFixed(URL_SENTINEL);
    } else {
      var at := AssignmentAt(u);
      if at.None? {
        PlainSettles(core);
      } else {
        var key, value := u[..at.value], u[at.value + 1..];
        assert key[0] == u[0];
        if IsCredentialKey(StripQuotes(key)) {
          SealedKeyIsFixed(key, '=');
          assert key + ['='] + SECRET_SENTINEL == key + "=" + SECRET_SENTINEL;
        } else {
          assert |value| < |core|;
          CoreSettles(value);
          CoreNoUrl(value);
          AssignedFixed(key, ScrubCore(value));
        }
      }
    }
  }

  lemma PlainSettles(core: string)
    requires var u := StripQuotes(core); u != "" && !Contains(u, "://") && AssignmentAt(u).None?
    ensures Fixed(ScrubPlain(StripQuotes(core))) <==> !Risky(core)
  {
    hide ScrubCore, IsCredentialKey, LooksLikeAssignmentKey, StripQuotes, Contains, Fixed, IsPathLike, IsUserHost,
         ScrubHostLike, SecretColonAt, AbbreviatePath, AssignmentAt;
    var u := StripQuotes(core);
    var lead, trail := CoreThroughQuotes(core);
    if IsUserHost(u) {
      UserHostIsFixed();
    } else if IsPathLike(u) {
      PathHasSlash(u);
      PathSettles(u);
    } else if ScrubHostLike(u).Some? {
      HostIsFixed(u);
    } else if SecretColonAt(u).Some? {
      SecretColonIsFixed(u);
    } else {
      UnruledIsFixed(u);
    }
  }

  lemma PathSettles(path: string)
    requires '/' in path
    ensures var named := NamedComponents(Components(path, '/'));
            Fixed(AbbreviatePath(path)) <==> !(2 < named.count && KeepsAt(named.last))
  {
    hide ScrubCore, Fixed, AtBeforeEnd, KeepsAt, StripQuotes;
    BasenameShorter(path);
    var named := NamedComponents(Components(path, '/'));
    if 2 < named.count {
      CoreChars(named.last);
      assert PATH_SENTINEL + "/" == "<path>/";
      PathLedFixed(ScrubCore(named.last));
      KeepsAtMeans(named.last);
    } else {
      PlainSentinelIsFixed(PATH_SENTINEL);
    }
  }

  lemma HostIsFixed(u: string)
    requires ScrubHostLike(u).Some?
    ensures Fixed(ScrubHostLike(u).value)
  {
    hide IsFqdn, IsPathLike, Fixed;
    var host := ScrubHostLike(u).value;
    HostSentinelLeads(u);
    assert '/' !in host && '@' !in host;
    PlainSentinelIsFixed(host);
  }

  lemma SecretColonIsFixed(u: string)
    requires SecretColonAt(u).Some? && Trimmed(u)
    ensures Fixed(u[..SecretColonAt(u).value] + ":" + SECRET_SENTINEL)
  {
    hide IsCredentialKey, LooksLikeAssignmentKey, StripQuotes, IsReadableHost, Fixed;
    var key := u[..SecretColonAt(u).value];
    KeyHasNoSlash(key);
    assert key[0] == u[0];
    SealedKeyIsFixed(key, ':');
    assert key + [':'] + SECRET_SENTINEL == key + ":" + SECRET_SENTINEL;
  }

  lemma UnruledIsFixed(u: string)
    requires Trimmed(u) && !Contains(u, "://") && AssignmentAt(u).None? && !IsUserHost(u) && !IsPathLike(u)
    requires ScrubHostLike(u).None? && SecretColonAt(u).None?
    ensures Fixed(u)
  {
    TrimmedIsItself(u);
  }

  /** Scrubbing a core twice is scrubbing it once, exactly for the cores that are not risky. */
  lemma CoreStableIffNotRisky(core: string)
    ensures ScrubCore(ScrubCore(core)) == ScrubCore(core) <==> !Risky(core)
  {
    hide ScrubCore, Fixed, Risky;
    CoreSettles(core);
    FixedMeans(ScrubCore(core));
  }

  // ---- tokens ------------------------------------------------------------------------------------

  /** Some piece between wrappers is risky. */
  predicate RiskyToken(token: string)
    decreases |token|
  {
    match FindFirst(token, IsWrapper)
    case None => Risky(token)
    case Some(i) => Risky(token[..i]) || RiskyToken(token[i + 1..])
  }

  predicate Unwrapped(s: string) {
    forall c :: c in s ==> !IsWrapper(c)
  }

  lemma ScrubbedPieceUnwrapped(piece: string)
    requires Unwrapped(piece)
    ensures Unwrapped(ScrubPiece(piece))
  {
    hide ScrubCore;
    CoreChars(piece);
  }

  lemma PieceStableIffNotRisky(piece: string)
    ensures ScrubPiece(ScrubPiece(piece)) == ScrubPiece(piece) <==> !Risky(piece)
  {
    hide ScrubCore, Risky;
    if piece == "" {
      EmptyIsNotRisky();
    } else {
      CoreStableIffNotRisky(piece);
      EmptyCoreStays();
    }
  }

  lemma EmptyIsNotRisky()
    ensures !Risky("")
  {
  }

  lemma EmptyCoreStays()
    ensures ScrubCore("") == ""
  {
    QuotesStay("");
  }

  /** A token's first piece, its wrapper and the rest are scrubbed apart. */
  lemma WrappedUnfolds(piece: string, w: char, rest: string)
    requires Unwrapped(piece) && IsWrapper(w)
    ensures FindFirst(piece + [w] + rest, IsWrapper) == Some(|piece|)
    ensures ScrubTokenSpec(piece + [w] + rest) == ScrubPiece(piece) + [w] + ScrubTokenSpec(rest)
  {
    hide ScrubPiece;
    var t := piece + [w] + rest;
    assert forall k :: 0 <= k < |piece| ==> t[k] in piece;
    FirstIs(t, IsWrapper, |piece|);
    assert t[..|piece|] == piece && t[|piece| + 1..] == rest;
  }

  lemma UnwrappedUnfolds(piece: string)
    requires Unwrapped(piece)
    ensures FindFirst(piece, IsWrapper).None? && ScrubTokenSpec(piece) == ScrubPiece(piece)
  {
    hide ScrubPiece;
    assert forall k :: 0 <= k < |piece| ==> piece[k] in piece;
    NoneIs(piece, IsWrapper);
  }

  lemma SplitAtWrapper(a: string, b: string, a': string, b': string, w: char)
    requires Unwrapped(a) && Unwrapped(a') && IsWrapper(w)
    ensures a + [w] + b == a' + [w] + b' <==> a == a' && b == b'
  {
    var s, t := a + [w] + b, a' + [w] + b';
    if s == t {
      assert s[|a|] == w && t[|a'|] == w;
      assert forall k :: 0 <= k < |a| ==> s[k] in a;
      assert forall k :: 0 <= k < |a'| ==> t[k] in a';
      assert |a| == |a'|;
      assert s[..|a|] == a && t[..|a'|] == a' && s[|a| + 1..] == b && t[|a'| + 1..] == b';
    }
  }

  lemma {:induction false} TokenStableIffNotRisky(token: string)
    ensures ScrubTokenSpec(ScrubTokenSpec(token)) == ScrubTokenSpec(token) <==> !RiskyToken(token)
    decreases |token|
  {
    hide ScrubPiece, Risky;
    var at := FindFirst(token, IsWrapper);
    if at.None? {
      ScrubbedPieceUnwrapped(token);
      UnwrappedUnfolds(ScrubPiece(token));
      PieceStableIffNotRisky(token);
    } else {
      var piece, w, rest := token[..at.value], token[at.value], token[at.value + 1..];
      ScrubbedPieceUnwrapped(piece);
      ScrubbedPieceUnwrapped(ScrubPiece(piece));
      WrappedUnfolds(ScrubPiece(piece), w, ScrubTokenSpec(rest));
      PieceStableIffNotRisky(piece);
      TokenStableIffNotRisky(rest);
      SplitAtWrapper(ScrubPiece(ScrubPiece(piece)), ScrubTokenSpec(ScrubTokenSpec(rest)), ScrubPiece(piece),
                     ScrubTokenSpec(rest), w);
    }
  }
}
