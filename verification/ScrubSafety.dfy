/** What a scrubbed line can never contain, for every input line (bench-runner, scrub.rs). */
module ScrubSafety {
  import opened Wrappers
  import opened Text
  import opened Scrub

  // ---- where characters come from -----------------------------------------------

  /** The characters sentinels are made of. */
  predicate IsSentinelChar(c: char) {
    'a' <= c <= 'z' || c == '<' || c == '>' || c == '@'
  }

  /** Every character of `t` comes from `s` or from a sentinel. */
  predicate DrawnFrom(t: string, s: string) {
    forall c :: c in t ==> c in s || IsSentinelChar(c)
  }

  /** The quotes a core is scrubbed between, and what they enclose. */
  lemma CoreEdges(core: string)
    ensures var unquoted := TrimStart(core, IsQuote); var inner := TrimEnd(unquoted, IsQuote);
            var lead, trail := core[..|core| - |unquoted|], unquoted[|inner|..];
            && AllIn(lead, IsQuote) && AllIn(trail, IsQuote) && core == lead + inner + trail
            && (inner == "" ==> AllIn(core, IsQuote))
            && (inner != "" ==> Trimmed(inner) && StripQuotes(core) == inner)
            && (|inner| == |core| ==> Trimmed(core))
  {
    hide TrimStart, TrimEnd, AllIn;
    var unquoted := TrimStart(core, IsQuote);
    var inner := TrimEnd(unquoted, IsQuote);
    TrimStartCuts(core, IsQuote);
    TrimEndCuts(unquoted, IsQuote);
    var lead, trail := core[..|core| - |unquoted|], unquoted[|inner|..];
    assert core == lead + unquoted && unquoted == inner + trail;
    assert inner == "" ==> trail == unquoted;
    Associate(lead, inner, trail);
    if inner == "" {
      QuotesMeet(lead, unquoted);
    } else {
      assert inner[0] == unquoted[0];
      if |inner| == |core| {
        assert inner == core;
      }
    }
  }

  lemma QuotesMeet(a: string, b: string)
    requires AllIn(a, IsQuote) && AllIn(b, IsQuote)
    ensures AllIn(a + b, IsQuote)
  {
  }

  lemma DrawnThroughQuotes(lead: string, s: string, t: string, trail: string)
    requires DrawnFrom(t, s)
    ensures DrawnFrom(lead + t + trail, lead + s + trail)
  {
  }

  lemma {:induction false} CoreChars(core: string)
    ensures DrawnFrom(ScrubCore(core), core)
    decreases |core|, 3
  {
    hide ScrubBare, DrawnFrom, AllIn, Trimmed, StripQuotes;
    var unquoted := TrimStart(core, IsQuote);
    var inner := TrimEnd(unquoted, IsQuote);
    CoreEdges(core);
    if |inner| < |core| && inner != "" {
      CoreChars(inner);
      DrawnThroughQuotes(core[..|core| - |unquoted|], inner, ScrubCore(inner), unquoted[|inner|..]);
    } else {
      BareChars(core);
    }
  }

  lemma {:induction false} BareChars(core: string)
    ensures DrawnFrom(ScrubBare(core), core)
    decreases |core|, 2
  {
    hide ScrubPlain, ScrubCore, IsCredentialKey, LooksLikeAssignmentKey, StripQuotes;
    if !Contains(core, "://") {
      var at := AssignmentAt(core);
      if at.None? {
        PlainChars(core);
      } else {
        CoreChars(core[at.value + 1..]);
      }
    }
  }

  lemma {:induction false} PlainChars(core: string)
    ensures DrawnFrom(ScrubPlain(core), core)
    decreases |core|, 1
  {
    hide ScrubCore, IsCredentialKey, LooksLikeAssignmentKey, StripQuotes, IsFqdn, IsUserHost, IsPathLike,
         AbbreviatePath, ScrubHostLike;
    if IsUserHost(core) {
    } else if IsPathLike(core) {
      PathHasSlash(core);
      PathChars(core);
    } else if ScrubHostLike(core).Some? {
      HostLikeChars(core);
    }
  }

  lemma {:induction false} PathChars(path: string)
    requires '/' in path
    ensures DrawnFrom(AbbreviatePath(path), path)
    decreases |path|, 0
  {
    hide ScrubCore, DrawnFrom, Components, NamedComponents;
    BasenameShorter(path);
    var named := NamedComponents(Components(path, '/'));
    if 2 < named.count {
      CoreChars(named.last);
      BehindSentinel(path, named.last, ScrubCore(named.last));
    } else {
      SentinelDrawn(path);
    }
  }

  lemma SentinelDrawn(path: string)
    ensures DrawnFrom(PATH_SENTINEL, path)
  {
  }

  lemma BehindSentinel(path: string, name: string, t: string)
    requires '/' in path && DrawnFrom(t, name) && forall c :: c in name ==> c in path
    ensures DrawnFrom(PATH_SENTINEL + "/" + t, path)
  {
  }

  lemma HostLikeChars(core: string)
    requires ScrubHostLike(core).Some?
    ensures DrawnFrom(ScrubHostLike(core).value, core)
  {
    hide IsFqdn;
    var last := FindLast(core, ':');
    if last.Some? {
      assert core == core[..last.value] + [':'] + core[last.value + 1..];
    }
  }

  // ---- URLs -----------------------------------------------------------------------

  predicate UrlAt(s: string, i: nat) {
    i + 2 < |s| && s[i] == ':' && s[i + 1] == '/' && s[i + 2] == '/'
  }

  predicate NoUrl(s: string) {
    forall i: nat :: i < |s| ==> !UrlAt(s, i)
  }

  lemma {:induction false} NoUrlIffNotContained(s: string)
    ensures NoUrl(s) <==> !Contains(s, "://")
  {
    if "://" <= s {
      assert UrlAt(s, 0);
    } else if s != "" {
      NoUrlIffNotContained(s[1..]);
      if !NoUrl(s[1..]) {
        var i: nat :| i < |s[1..]| && UrlAt(s[1..], i);
        assert UrlAt(s, i + 1);
      } else {
        forall i: nat | i < |s| ensures !UrlAt(s, i) {
          assert i == 0 || UrlAt(s, i) == UrlAt(s[1..], i - 1);
        }
      }
    }
  }

  lemma JoinNoUrl(a: string, b: string)
    requires NoUrl(a) && NoUrl(b)
    requires a == "" || b == "" || (a[|a| - 1] != ':' && a[|a| - 1] != '/') || (b[0] != '/')
    ensures NoUrl(a + b)
  {
    forall i: nat | i < |a + b| ensures !UrlAt(a + b, i) {
      if |a| <= i {
        assert UrlAt(a + b, i) == UrlAt(b, i - |a|);
      } else if i + 2 < |a| {
        assert UrlAt(a + b, i) == UrlAt(a, i);
      }
    }
  }

  lemma NoSlashNoUrl(s: string)
    requires '/' !in s || ':' !in s
    ensures NoUrl(s)
  {
  }

  lemma {:induction false} CoreNoUrl(core: string)
    ensures NoUrl(ScrubCore(core))
    decreases |core|, 3
  {
    hide ScrubBare, NoUrl, AllIn, Trimmed, StripQuotes;
    var unquoted := TrimStart(core, IsQuote);
    var inner := TrimEnd(unquoted, IsQuote);
    CoreEdges(core);
    if |inner| < |core| && inner != "" {
      CoreNoUrl(inner);
      var lead, trail := core[..|core| - |unquoted|], unquoted[|inner|..];
      QuotesNoUrl(lead, ScrubCore(inner));
      QuotesNoUrl(trail, lead + ScrubCore(inner));
    } else {
      BareNoUrl(core);
    }
  }

  lemma QuotesNoUrl(quotes: string, t: string)
    requires AllIn(quotes, IsQuote) && NoUrl(t)
    ensures NoUrl(quotes + t) && NoUrl(t + quotes)
  {
    assert ':' !in quotes;
    NoSlashNoUrl(quotes);
    JoinNoUrl(quotes, t);
    JoinNoUrl(t, quotes);
  }

  lemma {:induction false} BareNoUrl(core: string)
    ensures NoUrl(ScrubBare(core))
    decreases |core|, 2
  {
    hide ScrubPlain, ScrubCore, IsCredentialKey, StripQuotes;
    NoUrlIffNotContained(core);
    if !Contains(core, "://") {
      var at := AssignmentAt(core);
      if at.None? {
        PlainNoUrl(core);
      } else {
        var key := core[..at.value];
        KeyHasNoSlash(key);
        var rest := ScrubCore(core[at.value + 1..]);
        CoreNoUrl(core[at.value + 1..]);
        NoSlashNoUrl(key + "=");
        JoinNoUrl(key + "=", rest);
        NoSlashNoUrl(SECRET_SENTINEL);
        JoinNoUrl(key + "=", SECRET_SENTINEL);
      }
    }
  }

  /** An assignment key, quoted or not, holds no character but its own alphabet and quotes. */
  lemma KeyAlphabet(key: string, c: char)
    requires LooksLikeAssignmentKey(StripQuotes(key)) && c in key
    ensures IsQuote(c) || IsAlnum(c) || c == '_' || c == '-' || c == '.'
  {
    TrimKeepsOthers(key, IsQuote, c);
  }

  lemma KeyHasNoSlash(key: string)
    requires LooksLikeAssignmentKey(StripQuotes(key))
    ensures '/' !in key && '=' !in key && ':' !in key && key != ""
    ensures forall c :: c in key ==> !IsSeparator(c) && !IsWrapper(c)
  {
    forall c | c in key ensures c != '/' && c != '=' && c != ':' && !IsSeparator(c) && !IsWrapper(c) {
      KeyAlphabet(key, c);
    }
  }

  lemma {:induction false} PlainNoUrl(core: string)
    requires NoUrl(core)
    ensures NoUrl(ScrubPlain(core))
    decreases |core|, 1
  {
    hide ScrubCore, NoUrl, IsCredentialKey, StripQuotes, IsFqdn, IsUserHost, LooksLikeAssignmentKey, IsPathLike,
         ScrubHostLike, AbbreviatePath;
    if IsUserHost(core) {
      NoSlashNoUrl(USERHOST_SENTINEL);
    } else if IsPathLike(core) {
      PathHasSlash(core);
      PathNoUrl(core);
    } else if ScrubHostLike(core).Some? {
      HostSentinelLeads(core);
      NoSlashNoUrl(ScrubHostLike(core).value);
    } else if SecretColonAt(core).Some? {
      var key := core[..SecretColonAt(core).value];
      KeyHasNoSlash(key);
      NoSlashNoUrl(key + ":" + SECRET_SENTINEL);
    }
  }

  lemma {:induction false} PathNoUrl(path: string)
    requires '/' in path
    ensures NoUrl(AbbreviatePath(path))
    decreases |path|, 0
  {
    hide ScrubCore, NoUrl;
    BasenameShorter(path);
    var named := NamedComponents(Components(path, '/'));
    NoSlashNoUrl(PATH_SENTINEL + "/");
    NoSlashNoUrl(PATH_SENTINEL);
    if 2 < named.count {
      CoreChars(named.last);
      NoSlashNoUrl(ScrubCore(named.last));
      JoinNoUrl(PATH_SENTINEL + "/", ScrubCore(named.last));
    }
  }

  // ---- shapes ----------------------------------------------------------------------

  /** Neither a path nor a host, alone or with its port, once its quotes are set aside. */
  predicate ShapeFree(t: string) {
    !IsPathLike(StripQuotes(t)) && ScrubHostLike(StripQuotes(t)).None?
  }

  lemma ShapeFreeMeans(t: string)
    requires ShapeFree(t)
    ensures !IsPathLike(StripQuotes(t)) && !IsFqdn(StripQuotes(t))
  {
    hide IsPathLike, IsFqdn, StripQuotes;
  }

  /**
   A credential key in front introduces nothing, or the sentinel, in `=` form as in `:` form; what any other key
   assigns is clean in its turn.
   */
  predicate Sealed(t: string)
    decreases |t|, 0
  {
    var u := StripQuotes(t);
    match AssignmentAt(u)
    case Some(eq) =>
      var value := u[eq + 1..];
      if IsCredentialKey(StripQuotes(u[..eq])) then value == "" || value == SECRET_SENTINEL
      else
        StripQuotesShrinks(t);
        Clean(value)
    case None =>
      match SecretColonAt(u)
      case Some(colon) => u[colon + 1..] == SECRET_SENTINEL
      case None => true
  }

  lemma StripQuotesShrinks(t: string)
    ensures |StripQuotes(t)| <= |t|
  {
  }

  /** No shape and no open credential, neither in the text itself nor behind any `=` of its assignments. */
  predicate Clean(t: string)
    decreases |t|, 1
  {
    ShapeFree(t) && Sealed(t)
  }

  /** Cleanness looks through surrounding quotes. */
  lemma CleanDependsOnInner(t: string, t': string)
    requires StripQuotes(t) == StripQuotes(t')
    ensures Clean(t) == Clean(t')
  {
    hide IsPathLike, ScrubHostLike, StripQuotes, AssignmentAt, SecretColonAt, IsCredentialKey;
  }

  predicate Trimmed(t: string) {
    t != "" ==> !IsQuote(t[0]) && !IsQuote(t[|t| - 1])
  }

  lemma TrimmedIsItself(t: string)
    requires Trimmed(t)
    ensures StripQuotes(t) == t
  {
  }

  lemma OpeningBracketIsNoKey(t: string, n: nat)
    requires t != "" && t[0] == '<' && n <= |t|
    ensures n == 0 || !LooksLikeAssignmentKey(StripQuotes(t[..n]))
  {
    if n != 0 {
      TrimKeepsOthers(t[..n], IsQuote, t[..n][0]);
    }
  }

  /** Text that opens with a bracket reads as no host, with or without a port. */
  lemma OpeningBracketIsNoHost(t: string)
    requires t != "" && t[0] == '<'
    ensures ScrubHostLike(t).None?
  {
    hide IsFqdn;
    BracketIsNoFqdn(t);
    var colon := FindLast(t, ':');
    if colon.Some? {
      BracketIsNoFqdn(t[..colon.value]);
    }
  }

  lemma BracketIsNoFqdn(t: string)
    requires t == "" || t[0] == '<'
    ensures !IsFqdn(t)
  {
    assert t != "" ==> t[0] in t;
  }

  /** A text that opens with a sentinel holds neither an assignment nor a host. */
  lemma SentinelLedIsClean(t: string)
    requires t != "" && t[0] == '<' && Trimmed(t) && !IsPathLike(t)
    ensures Clean(t)
  {
    hide LooksLikeAssignmentKey, IsPathLike, ScrubHostLike;
    TrimmedIsItself(t);
    OpeningBracketIsNoHost(t);
    if FindChar(t, '=').Some? {
      OpeningBracketIsNoKey(t, FindChar(t, '=').value);
    }
    if FindChar(t, ':').Some? {
      OpeningBracketIsNoKey(t, FindChar(t, ':').value);
    }
  }

  lemma PathLedIsClean(name: string)
    requires '/' !in name
    ensures Clean("<path>/" + name)
  {
    hide IsPathLike, Clean, Trim, TrimEnd;
    var bare := TrimEnd(name, IsQuote);
    var t := "<path>/" + bare;
    TrimEndCuts(name, IsQuote);
    TrimKeepsPrefix("<path>/", name, IsQuote);
    TrimmedIsItself(t);
    CleanDependsOnInner("<path>/" + name, t);
    TrimEndKeepsOthers(name, IsQuote, '/');
    SentinelAndNameIsNoPath(bare);
    SentinelLedIsClean(t);
  }

  lemma SentinelAndNameIsNoPath(name: string)
    requires '/' !in name
    ensures !IsPathLike("<path>/" + name)
  {
    FirstChar("<path>", '/', name);
    assert Components(name, '/') == if name == "" then [] else [name];
    assert "<path>" + ['/'] + name == "<path>/" + name;
    assert ("<path>/" + name)[7..] == name && ("<path>/" + name)[..6] == "<path>";
  }

  lemma FirstChar(k: string, c: char, s: string)
    requires c !in k
    ensures FindChar(k + [c] + s, c) == Some(|k|)
  {
    var t := k + [c] + s;
    assert t[|k|] == c && c in t;
    assert t[..|k|] == k;
  }

  /** A slash-free head merges into the first component of what follows it. */
  lemma HeadMerges(k: string, s: string)
    requires k != "" && '/' !in k && (s == "" || s[0] != '/')
    ensures |Components(k + s, '/')| == if s == "" then 1 else |Components(s, '/')|
  {
    var at := FindChar(s, '/');
    if at.None? {
      assert '/' !in k + s;
    } else {
      var i := at.value;
      assert s == s[..i] + ['/'] + s[i + 1..];
      assert k + s == (k + s[..i]) + ['/'] + s[i + 1..];
      FirstChar(k + s[..i], '/', s[i + 1..]);
      assert (k + s)[|k| + i + 1..] == s[i + 1..];
    }
  }

  /** `key=` before a clean text makes no path of it. */
  lemma KeyedIsNoPath(key: string, lead: string, s: string)
    requires LooksLikeAssignmentKey(StripQuotes(key)) && AllIn(lead, IsQuote) && (key != "" ==> !IsQuote(key[0]))
    requires !IsPathLike(s)
    ensures !IsPathLike(key + "=" + (lead + s))
  {
    hide LooksLikeAssignmentKey, StripQuotes, Components;
    KeyHasNoSlash(key);
    KeyAlphabet(key, key[0]);
    var k := key + "=" + lead;
    var t := k + s;
    assert key + "=" + (lead + s) == t;
    assert forall i :: 0 <= i <= |key| ==> t[i] == (key + "=")[i] && t[i] != '/';
    assert t[|key|] == '=';
    NotNavigation(t, |key|);
    if '/' in s {
      HeadMerges(k, s);
    } else {
      assert '/' !in t;
    }
  }

  lemma NotNavigation(t: string, n: nat)
    requires 0 < n < |t| && t[n] == '=' && t[0] != '~' && forall i :: 0 <= i <= n ==> t[i] != '/'
    ensures !StartsWith(t, "/") && !StartsWith(t, "~") && !StartsWith(t, "./") && !StartsWith(t, "../")
  {
    assert "./"[1] == '/' && "../"[2] == '/' && "../"[1] == '.';
    assert t[..2][1] == t[1];
  }

  lemma AssignmentFound(key: string, value: string)
    requires LooksLikeAssignmentKey(StripQuotes(key))
    ensures var t := key + "=" + value;
            AssignmentAt(t) == Some(|key|) && t[..|key|] == key && t[|key| + 1..] == value
  {
    KeyHasNoSlash(key);
    FirstChar(key, '=', value);
    assert (key + "=" + value)[..|key|] == key;
  }

  lemma StripIsTrim(s: string)
    ensures StripQuotes(s) == Trim(s, IsQuote)
  {
  }

  lemma AssignedStrips(key: string, s: string)
    requires LooksLikeAssignmentKey(StripQuotes(key)) && !IsQuote(key[0])
    ensures StripQuotes(key + "=" + s) == key + "=" + TrimEnd(s, IsQuote)
  {
    hide LooksLikeAssignmentKey;
    TrimKeepsPrefix(key + "=", s, IsQuote);
  }

  /** A benign assignment of a clean text is clean. */
  lemma AssignedIsClean(key: string, s: string)
    requires LooksLikeAssignmentKey(StripQuotes(key)) && !IsQuote(key[0])
    requires !IsCredentialKey(StripQuotes(key)) && Clean(s)
    ensures Clean(key + "=" + s)
  {
    hide LooksLikeAssignmentKey, IsCredentialKey, IsPathLike, ScrubHostLike, Sealed, StripQuotes, TrimEnd, AllIn;
    var value := TrimEnd(s, IsQuote);
    AssignedStrips(key, s);
    var lead := TrimEndSplits(s, IsQuote);
    StripIsTrim(s);
    KeyedIsNoPath(key, lead, StripQuotes(s));
    TrimmedEndStrips(s);
    CleanDependsOnInner(value, s);
    KeyHasNoSlash(key);
    AssignedIsNoHost(key, value);
    AssignedSealed(key, s, value);
  }

  lemma TrimmedEndStrips(s: string)
    ensures StripQuotes(TrimEnd(s, IsQuote)) == StripQuotes(s)
  {
    TrimAfterTrimEnd(s, IsQuote);
  }

  lemma EqualsIsNoFqdn(u: string)
    requires '=' in u
    ensures !IsFqdn(u)
  {
  }

  /** What stands before the last colon of an assignment holds its `=`, so it names no host. */
  lemma AssignedIsNoHost(key: string, value: string)
    requires ':' !in key
    ensures ScrubHostLike(key + "=" + value).None?
  {
    hide IsFqdn;
    var u := key + "=" + value;
    assert u[|key|] == '=' && '=' in u;
    EqualsIsNoFqdn(u);
    var colon := FindLast(u, ':');
    if colon.Some? {
      assert u[colon.value] == ':' && forall k :: 0 <= k < |key| ==> u[k] in key;
      assert u[..colon.value][|key|] == '=';
      EqualsIsNoFqdn(u[..colon.value]);
    }
  }

  lemma AssignedSealed(key: string, s: string, value: string)
    requires LooksLikeAssignmentKey(StripQuotes(key)) && !IsCredentialKey(StripQuotes(key)) && Clean(value)
    requires StripQuotes(key + "=" + s) == key + "=" + value
    ensures Sealed(key + "=" + s)
  {
    hide LooksLikeAssignmentKey, IsCredentialKey, StripQuotes, ShapeFree;
    AssignmentFound(key, value);
  }

  /** A key, its delimiter, and nothing or the sentinel: the shape every sealed slot leaves. */
  lemma SealedKeyIsClean(key: string, d: char, value: string)
    requires LooksLikeAssignmentKey(StripQuotes(key)) && IsDelimiter(d)
    requires value == "" || value == SECRET_SENTINEL
    ensures Clean(key + [d] + value)
  {
    hide LooksLikeAssignmentKey, IsCredentialKey, IsPathLike, Clean, Trim, TrimStart;
    var bare := TrimStart(key, IsQuote);
    var lead := key[..|key| - |bare|];
    TrimStartCuts(key, IsQuote);
    TrimWrapped(lead, bare, "", IsQuote);
    TrimWrapped(lead, bare + [d] + value, "", IsQuote);
    assert lead + bare + "" == key;
    assert lead + (bare + [d] + value) + "" == key + [d] + value;
    CleanDependsOnInner(key + [d] + value, bare + [d] + value);
    BareSealedKeyIsClean(bare, d, value);
  }

  lemma BareSealedKeyIsClean(key: string, d: char, value: string)
    requires LooksLikeAssignmentKey(StripQuotes(key)) && (key != "" ==> !IsQuote(key[0])) && IsDelimiter(d)
    requires value == "" || value == SECRET_SENTINEL
    ensures Clean(key + [d] + value)
  {
    hide LooksLikeAssignmentKey, IsCredentialKey, StripQuotes, Sealed, ShapeFree;
    var t := key + [d] + value;
    KeyHasNoSlash(key);
    assert t[0] == key[0] && t[|t| - 1] == if value == "" then d else '>';
    TrimmedIsItself(t);
    SealedKeyShape(key, d, value);
    if d == '=' {
      EqualsKeySealed(key, value);
    } else {
      ColonKeySealed(key, value);
    }
  }

  lemma SealedKeyShape(key: string, d: char, value: string)
    requires '/' !in key && ':' !in key && IsDelimiter(d) && (value == "" || value == SECRET_SENTINEL)
    requires StripQuotes(key + [d] + value) == key + [d] + value
    ensures ShapeFree(key + [d] + value)
  {
    hide IsPathLike, ScrubHostLike, StripQuotes;
    var t := key + [d] + value;
    assert '/' !in t;
    NoSlashNoPath(t);
    if d == '=' {
      assert t == key + "=" + value;
      AssignedIsNoHost(key, value);
    } else {
      SealedColonIsNoHost(key, value);
    }
  }

  lemma ColonIsNoFqdn(t: string)
    requires ':' in t
    ensures !IsFqdn(t)
  {
  }

  lemma SealedColonIsNoHost(key: string, value: string)
    requires value == "" || value == SECRET_SENTINEL
    ensures ScrubHostLike(key + [':'] + value).None?
  {
    hide IsFqdn;
    var t := key + [':'] + value;
    assert t[|key|] == ':' && ':' in t;
    ColonIsNoFqdn(t);
    LastIs(key, ':', value);
    assert t[|key| + 1..] == value;
    assert value != "" ==> value[0] == '<' && value[0] in value;
  }

  lemma EqualsKeySealed(key: string, value: string)
    requires LooksLikeAssignmentKey(StripQuotes(key)) && (value == "" || value == SECRET_SENTINEL)
    requires StripQuotes(key + ['='] + value) == key + ['='] + value
    ensures Sealed(key + ['='] + value)
  {
    hide LooksLikeAssignmentKey, IsCredentialKey, StripQuotes;
    assert key + ['='] + value == key + "=" + value;
    AssignmentFound(key, value);
    SentinelIsClean(value);
  }

  lemma ColonKeySealed(key: string, value: string)
    requires LooksLikeAssignmentKey(StripQuotes(key)) && (value == "" || value == SECRET_SENTINEL)
    requires StripQuotes(key + [':'] + value) == key + [':'] + value
    ensures Sealed(key + [':'] + value)
  {
    hide LooksLikeAssignmentKey, IsCredentialKey, StripQuotes;
    var t := key + [':'] + value;
    KeyHasNoSlash(key);
    assert '=' !in t;
    FirstChar(key, ':', value);
    assert t[|key| + 1..] == value;
  }

  lemma SentinelIsClean(value: string)
    requires value == "" || value == SECRET_SENTINEL
    ensures Clean(value)
  {
    hide LooksLikeAssignmentKey, IsCredentialKey, IsPathLike;
    if value == "" {
      EmptyClean();
    } else {
      NoSlashNoPath(value);
      SentinelLedIsClean(value);
    }
  }

  lemma EmptyClean()
    ensures Clean("")
  {
    hide IsFqdn;
    TrimmedIsItself("");
    NothingIsNoFqdn();
    assert AssignmentAt("").None? && SecretColonAt("").None?;
  }

  lemma NothingIsNoFqdn()
    ensures !IsFqdn("")
  {
  }

  lemma {:induction false} CoreClean(core: string)
    ensures Clean(ScrubCore(core))
    decreases |core|, 3
  {
    hide ScrubBare, Clean, AllIn, Trimmed, StripQuotes;
    var unquoted := TrimStart(core, IsQuote);
    var inner := TrimEnd(unquoted, IsQuote);
    CoreEdges(core);
    if |inner| < |core| && inner != "" {
      CoreClean(inner);
      CleanThroughQuotes(core[..|core| - |unquoted|], ScrubCore(inner), unquoted[|inner|..]);
    } else {
      BareClean(core);
    }
  }

  lemma CleanThroughQuotes(lead: string, t: string, trail: string)
    requires AllIn(lead, IsQuote) && AllIn(trail, IsQuote)
    ensures Clean(lead + t + trail) == Clean(t)
  {
    hide Clean;
    TrimWrapped(lead, t, trail, IsQuote);
    CleanDependsOnInner(lead + t + trail, t);
  }

  lemma {:induction false} BareClean(core: string)
    requires Trimmed(core) || AllIn(core, IsQuote)
    ensures Clean(ScrubBare(core))
    decreases |core|, 2
  {
    hide ScrubPlain, ScrubCore, IsCredentialKey, StripQuotes, LooksLikeAssignmentKey, Clean;
    if Contains(core, "://") {
      SentinelLedIsClean(URL_SENTINEL);
    } else {
      var at := AssignmentAt(core);
      if at.None? {
        PlainClean(core);
      } else {
        var key, value := core[..at.value], core[at.value + 1..];
        CoreClean(value);
        if IsCredentialKey(StripQuotes(key)) {
          SealedKeyIsClean(key, '=', SECRET_SENTINEL);
        } else {
          AssignedIsClean(key, ScrubCore(value));
        }
      }
    }
  }

  lemma HostSentinelLeads(core: string)
    requires ScrubHostLike(core).Some?
    ensures var host := ScrubHostLike(core).value; host != "" && host[0] == '<' && Trimmed(host) && !IsPathLike(host)
    ensures '/' !in ScrubHostLike(core).value
  {
    hide IsFqdn, IsPathLike;
    var host := ScrubHostLike(core).value;
    NoSlashNoPath(host);
    assert host[|host| - 1] in host && !IsQuote(host[|host| - 1]);
  }

  lemma PathHasSlash(core: string)
    requires IsPathLike(core)
    ensures '/' in core
  {
  }

  lemma {:induction false} PlainClean(core: string)
    requires Trimmed(core) || AllIn(core, IsQuote)
    requires AssignmentAt(core).None?
    ensures Clean(ScrubPlain(core))
    decreases |core|, 1
  {
    hide ScrubCore, IsCredentialKey, StripQuotes, IsFqdn, LooksLikeAssignmentKey, Clean, AssignmentAt, IsPathLike,
         SecretColonAt, ScrubHostLike, IsUserHost, AbbreviatePath;
    if IsUserHost(core) {
      NoSlashNoPath(USERHOST_SENTINEL);
      SentinelLedIsClean(USERHOST_SENTINEL);
    } else if IsPathLike(core) {
      PathHasSlash(core);
      PathClean(core);
    } else if ScrubHostLike(core).Some? {
      HostSentinelLeads(core);
      SentinelLedIsClean(ScrubHostLike(core).value);
    } else if SecretColonAt(core).Some? {
      SealedKeyIsClean(core[..SecretColonAt(core).value], ':', SECRET_SENTINEL);
    } else {
      UnchangedClean(core);
    }
  }

  lemma {:induction false} PathClean(path: string)
    requires '/' in path
    ensures Clean(AbbreviatePath(path))
    decreases |path|, 0
  {
    hide ScrubCore, Clean;
    BasenameShorter(path);
    var named := NamedComponents(Components(path, '/'));
    if 2 < named.count {
      CoreChars(named.last);
      assert PATH_SENTINEL + "/" == "<path>/";
      PathLedIsClean(ScrubCore(named.last));
    } else {
      SentinelLedIsClean(PATH_SENTINEL);
    }
  }

  /** A core no rule applies to was clean already. */
  lemma UnchangedClean(core: string)
    requires Trimmed(core) || AllIn(core, IsQuote)
    requires AssignmentAt(core).None? && !IsPathLike(core) && ScrubHostLike(core).None? && SecretColonAt(core).None?
    ensures Clean(core)
  {
    hide LooksLikeAssignmentKey, IsCredentialKey, IsPathLike, AssignmentAt, SecretColonAt;
    if Trimmed(core) {
      TrimmedIsItself(core);
    } else {
      TrimWrapped(core, "", "", IsQuote);
      assert core + "" + "" == core;
      CleanDependsOnInner(core, "");
      EmptyClean();
    }
  }

  // ---- whole lines -----------------------------------------------------------------

  predicate IsBreak(c: char) { IsSeparator(c) || IsWrapper(c) }

  /** `s[lo..hi]` is a maximal run holding neither whitespace nor wrapper punctuation. */
  predicate IsFragment(s: string, lo: nat, hi: nat) {
    && lo <= hi <= |s|
    && (forall k :: lo <= k < hi ==> !IsBreak(s[k]))
    && (lo == 0 || IsBreak(s[lo - 1]))
    && (hi == |s| || IsBreak(s[hi]))
  }

  ghost predicate FragmentsClean(s: string) {
    forall lo: nat, hi: nat :: IsFragment(s, lo, hi) ==> Clean(s[lo..hi])
  }

  predicate Unbroken(s: string) {
    forall c :: c in s ==> !IsBreak(c)
  }

  lemma OneFragment(s: string)
    requires Unbroken(s) && Clean(s)
    ensures FragmentsClean(s)
  {
    hide Clean;
    forall lo: nat, hi: nat | IsFragment(s, lo, hi) ensures Clean(s[lo..hi]) {
      assert s[lo..hi] == s;
    }
  }

  lemma BreaksAreClean(s: string)
    requires AllIn(s, IsBreak)
    ensures FragmentsClean(s)
  {
    hide Clean;
    EmptyClean();
    forall lo: nat, hi: nat | IsFragment(s, lo, hi) ensures Clean(s[lo..hi]) {
      var head := if lo < |s| then s[lo] else ' ';
      assert IsBreak(head) && s[lo..hi] == "";
    }
  }

  lemma FragmentOnLeft(a: string, b: string, lo: nat, hi: nat)
    requires IsFragment(a + b, lo, hi) && hi <= |a|
    requires a != "" && b != "" && (IsBreak(a[|a| - 1]) || IsBreak(b[0]))
    ensures IsFragment(a, lo, hi) && (a + b)[lo..hi] == a[lo..hi]
  {
    var s := a + b;
    assert forall k :: 0 <= k < |a| ==> s[k] == a[k];
  }

  lemma FragmentOnRight(a: string, b: string, lo: nat, hi: nat)
    requires IsFragment(a + b, lo, hi) && |a| <= lo
    ensures IsFragment(b, lo - |a|, hi - |a|) && (a + b)[lo..hi] == b[lo - |a|..hi - |a|]
  {
    hide IsBreak;
    var s, n := a + b, |a|;
    SliceOnRight(a, b, lo, hi);
    assert forall k :: 0 <= k < |b| ==> b[k] == s[n + k];
    assert n < lo ==> b[lo - n - 1] == s[lo - 1];
  }

  lemma SliceOnRight(a: string, b: string, lo: nat, hi: nat)
    requires |a| <= lo <= hi <= |a + b|
    ensures (a + b)[lo..hi] == b[lo - |a|..hi - |a|]
  {
  }

  /** Texts that meet at a break keep their fragments apart. */
  lemma JoinFragments(a: string, b: string)
    requires FragmentsClean(a) && FragmentsClean(b)
    requires a == "" || b == "" || IsBreak(a[|a| - 1]) || IsBreak(b[0])
    ensures FragmentsClean(a + b)
  {
    hide Clean;
    var s := a + b;
    assert a == "" ==> s == b;
    assert b == "" ==> s == a;
    if a != "" && b != "" {
      forall lo: nat, hi: nat | IsFragment(s, lo, hi) ensures Clean(s[lo..hi]) {
        if |a| <= lo {
          FragmentOnRight(a, b, lo, hi);
        } else {
          assert s[|a| - 1] == a[|a| - 1] && s[|a|] == b[0];
          FragmentOnLeft(a, b, lo, hi);
        }
      }
    }
  }

  lemma PieceClean(piece: string)
    requires Unbroken(piece)
    ensures FragmentsClean(ScrubPiece(piece)) && Unbroken(ScrubPiece(piece))
  {
    hide ScrubCore, Clean;
    EmptyClean();
    CoreClean(piece);
    CoreChars(piece);
    OneFragment(ScrubPiece(piece));
  }

  lemma {:induction false} TokenClean(token: string)
    requires forall c :: c in token ==> !IsSeparator(c)
    ensures FragmentsClean(ScrubTokenSpec(token))
    decreases |token|
  {
    hide ScrubPiece, FragmentsClean;
    var at := FindFirst(token, IsWrapper);
    if at.None? {
      PieceClean(token);
    } else {
      var i := at.value;
      PieceClean(token[..i]);
      TokenClean(token[i + 1..]);
      BreaksAreClean([token[i]]);
      JoinFragments(ScrubPiece(token[..i]), [token[i]]);
      JoinFragments(ScrubPiece(token[..i]) + [token[i]], ScrubTokenSpec(token[i + 1..]));
    }
  }

  lemma PieceNoUrl(piece: string)
    ensures NoUrl(ScrubPiece(piece))
  {
    hide ScrubCore;
    CoreNoUrl(piece);
  }

  lemma {:induction false} TokenNoUrl(token: string)
    ensures NoUrl(ScrubTokenSpec(token))
    decreases |token|
  {
    hide ScrubPiece, NoUrl;
    var at := FindFirst(token, IsWrapper);
    if at.None? {
      PieceNoUrl(token);
    } else {
      var i := at.value;
      PieceNoUrl(token[..i]);
      TokenNoUrl(token[i + 1..]);
      NoSlashNoUrl([token[i]]);
      JoinNoUrl(ScrubPiece(token[..i]), [token[i]]);
      JoinNoUrl(ScrubPiece(token[..i]) + [token[i]], ScrubTokenSpec(token[i + 1..]));
    }
  }

  /** What a slot's prefix looks like: a key, then one delimiter unless the delimiter stands apart. */
  lemma SlotPrefix(token: string, remainder: string) returns (key: string, d: string)
    requires CredentialSlot(token, remainder).Some?
    ensures var slot := CredentialSlot(token, remainder).value;
            && slot.prefix == key + d && LooksLikeAssignmentKey(StripQuotes(key))
            && |d| <= 1 && AllIn(d, IsDelimiter)
            && (slot.bridge == "" || slot.bridge == " ") == (|d| == 1) && (|d| == 0 ==> slot.bridge == ": ")
  {
    hide LooksLikeAssignmentKey, IsCredentialKey, IsReadableHost, IsFqdn, StripQuotes, Contains, NextToken, TrimStart;
    var slot := CredentialSlot(token, remainder).value;
    var at := FindFirst(token, IsDelimiter);
    if at.Some? {
      key, d := token[..at.value], [token[at.value]];
      assert slot.prefix == key + d;
    } else {
      key, d := token, "";
      assert slot.prefix == key + d;
    }
    TrimEndSkips(key, d, IsDelimiter);
    assert TrimEnd(key, IsDelimiter) == key;
  }

  lemma SlotClean(token: string, remainder: string)
    requires CredentialSlot(token, remainder).Some?
    ensures var sealed := SealedSlot(CredentialSlot(token, remainder).value);
            FragmentsClean(sealed) && NoUrl(sealed)
  {
    hide CredentialSlot, LooksLikeAssignmentKey, FragmentsClean, StripQuotes, NoUrl;
    var slot := CredentialSlot(token, remainder).value;
    var key, d := SlotPrefix(token, remainder);
    if slot.bridge == "" {
      AttachedSealClean(key, d[0]);
      assert d == [d[0]] && key + d + "" + SECRET_SENTINEL == key + [d[0]] + SECRET_SENTINEL;
    } else if slot.bridge == " " {
      ApartSealClean(key, d[0]);
      assert d == [d[0]] && key + d + " " + SECRET_SENTINEL == key + [d[0]] + " " + SECRET_SENTINEL;
    } else {
      ApartSealClean(key, ':');
      assert d == "" && key + d + ": " + SECRET_SENTINEL == key + [':'] + " " + SECRET_SENTINEL;
    }
  }

  lemma AttachedSealClean(key: string, d: char)
    requires LooksLikeAssignmentKey(StripQuotes(key)) && IsDelimiter(d)
    ensures var sealed := key + [d] + SECRET_SENTINEL; FragmentsClean(sealed) && NoUrl(sealed)
  {
    hide LooksLikeAssignmentKey, FragmentsClean, StripQuotes, Clean, NoUrl;
    var sealed := key + [d] + SECRET_SENTINEL;
    KeyHasNoSlash(key);
    assert '/' !in sealed;
    NoSlashNoUrl(sealed);
    SealedKeyIsClean(key, d, SECRET_SENTINEL);
    OneFragment(sealed);
  }

  lemma ApartSealClean(key: string, d: char)
    requires LooksLikeAssignmentKey(StripQuotes(key)) && IsDelimiter(d)
    ensures var sealed := key + [d] + " " + SECRET_SENTINEL; FragmentsClean(sealed) && NoUrl(sealed)
  {
    hide LooksLikeAssignmentKey, FragmentsClean, StripQuotes, Clean, NoUrl;
    var head := key + [d];
    KeyHasNoSlash(key);
    SealedKeyIsClean(key, d, "");
    assert head + "" == head;
    OneFragment(head);
    SentinelFragment();
    BreaksAreClean(" ");
    JoinFragments(head, " ");
    JoinFragments(head + " ", SECRET_SENTINEL);
    assert '/' !in head + " " + SECRET_SENTINEL;
    NoSlashNoUrl(head + " " + SECRET_SENTINEL);
  }

  lemma NoSlashNoPath(s: string)
    requires '/' !in s
    ensures !IsPathLike(s)
  {
  }

  lemma SentinelFragment()
    ensures FragmentsClean(SECRET_SENTINEL)
  {
    hide FragmentsClean, Clean, IsPathLike;
    assert '/' !in SECRET_SENTINEL;
    NoSlashNoPath(SECRET_SENTINEL);
    SentinelLedIsClean(SECRET_SENTINEL);
    OneFragment(SECRET_SENTINEL);
  }

  predicate OpensWithSeparator(s: string) {
    s == "" || IsSeparator(s[0])
  }

  /** What is left of a line: a gap, its first token, and what follows that token. */
  lemma LineSplits(rest: string) returns (gap: string, token: string, remainder: string)
    ensures rest == gap + (token + remainder) && AllIn(gap, IsSeparator) && TrimStart(rest, IsSeparator) == token + remainder
    ensures token == TakeToken(token + remainder) && OpensWithSeparator(remainder)
    ensures token == "" ==> remainder == "" && rest == gap
    ensures token != "" ==> !IsSeparator(token[0]) && |remainder| < |rest|
    ensures forall c :: c in token ==> !IsSeparator(c)
  {
    hide TrimStart;
    var after := TrimStart(rest, IsSeparator);
    TrimStartCuts(rest, IsSeparator);
    gap, token := rest[..|rest| - |after|], TakeToken(after);
    remainder := after[|token|..];
    assert after == token + remainder;
    if after == "" {
      assert gap == rest;
    }
  }

  lemma BehindGap(gap: string, s: string)
    requires AllIn(gap, IsSeparator) && FragmentsClean(s) && NoUrl(s)
    ensures FragmentsClean(gap + s) && NoUrl(gap + s)
  {
    hide FragmentsClean, NoUrl;
    BreaksAreClean(gap);
    NoSlashNoUrl(gap);
    JoinFragments(gap, s);
    JoinNoUrl(gap, s);
  }

  lemma BeforeRest(s: string, rest: string)
    requires FragmentsClean(s) && NoUrl(s) && FragmentsClean(rest) && NoUrl(rest) && OpensWithSeparator(rest)
    ensures FragmentsClean(s + rest) && NoUrl(s + rest)
  {
    hide FragmentsClean, NoUrl;
    JoinFragments(s, rest);
    JoinNoUrl(s, rest);
  }

  lemma {:induction false} RestClean(rest: string)
    ensures FragmentsClean(ScrubRest(rest)) && NoUrl(ScrubRest(rest))
    ensures OpensWithSeparator(rest) ==> OpensWithSeparator(ScrubRest(rest))
    decreases |rest|
  {
    hide FragmentsClean, NoUrl, ScrubRest, ScrubTokenSpec, CredentialSlot, SealedSlot, TakeToken;
    var gap, token, remainder := LineSplits(rest);
    if token == "" {
      OnlyGap(gap);
      EmptyFragment();
      BehindGap(gap, "");
      assert gap + "" == gap;
    } else {
      RestUnfolds(rest, gap, token, remainder);
      var slot := CredentialSlot(token, remainder);
      if slot.Some? {
        SlotClean(token, remainder);
        BehindGap(gap, SealedSlot(slot.value));
      } else {
        TokenClean(token);
        TokenNoUrl(token);
        RestClean(remainder);
        BeforeRest(ScrubTokenSpec(token), ScrubRest(remainder));
        BehindGap(gap, ScrubTokenSpec(token) + ScrubRest(remainder));
      }
    }
  }

  lemma EmptyFragment()
    ensures FragmentsClean("") && NoUrl("")
  {
    hide Clean;
    EmptyClean();
    OneFragment("");
  }

  // ---- control characters ----------------------------------------------------------

  predicate Printable(s: string) {
    forall c :: c in s ==> !IsControl(c)
  }

  lemma EscapeIsPrintable(c: char)
    ensures Printable(EscapeControl(c))
  {
  }

  lemma {:induction false} ControlledIsPrintable(line: string)
    ensures Printable(Controlled(line))
  {
    hide EscapeControl, IsControl;
    if line != "" {
      EscapeIsPrintable(line[0]);
      ControlledIsPrintable(line[1..]);
    }
  }

  /** Text without control characters is not escaped. */
  lemma {:induction false} PrintableIsUntouched(line: string)
    requires Printable(line)
    ensures Controlled(line) == line
  {
    if line != "" {
      PrintableIsUntouched(line[1..]);
      assert line == [line[0]] + line[1..];
    }
  }

  lemma {:induction false} TokenChars(token: string)
    ensures DrawnFrom(ScrubTokenSpec(token), token)
    decreases |token|
  {
    hide ScrubCore;
    var at := FindFirst(token, IsWrapper);
    if at.None? {
      CoreChars(token);
    } else {
      CoreChars(token[..at.value]);
      TokenChars(token[at.value + 1..]);
    }
  }

  lemma SlotPrintable(token: string, remainder: string)
    requires CredentialSlot(token, remainder).Some? && Printable(token)
    ensures Printable(SealedSlot(CredentialSlot(token, remainder).value))
  {
    hide LooksLikeAssignmentKey, IsCredentialKey, IsFqdn, Contains, NextToken, StripQuotes;
  }

  lemma {:induction false} RestPrintable(rest: string)
    requires Printable(rest)
    ensures Printable(ScrubRest(rest))
    decreases |rest|
  {
    hide ScrubRest, ScrubTokenSpec, CredentialSlot, SealedSlot, TakeToken, Printable, OpensWithSeparator, AllIn;
    var gap, token, remainder := LineSplits(rest);
    if token == "" {
      OnlyGap(gap);
    } else {
      PrintableParts(gap, token + remainder);
      PrintableParts(token, remainder);
      RestUnfolds(rest, gap, token, remainder);
      if CredentialSlot(token, remainder).Some? {
        SlotPrintable(token, remainder);
        PrintableJoin(gap, SealedSlot(CredentialSlot(token, remainder).value));
      } else {
        TokenPrintable(token);
        RestPrintable(remainder);
        PrintableJoin(ScrubTokenSpec(token), ScrubRest(remainder));
        PrintableJoin(gap, ScrubTokenSpec(token) + ScrubRest(remainder));
      }
    }
  }

  lemma PrintableParts(a: string, b: string)
    requires Printable(a + b)
    ensures Printable(a) && Printable(b)
  {
    assert forall c :: c in a || c in b ==> c in a + b;
  }

  lemma PrintableJoin(a: string, b: string)
    requires Printable(a) && Printable(b)
    ensures Printable(a + b)
  {
  }

  lemma TokenPrintable(token: string)
    requires Printable(token)
    ensures Printable(ScrubTokenSpec(token))
  {
    hide ScrubTokenSpec;
    TokenChars(token);
  }

  // ---- the guarantee -----------------------------------------------------------------

  /**
   For every input line: the scrubbed text holds no `://` and no control character, and each of its fragments, set
   free of its quotes, is neither a path nor a host nor a host with a port, and introduces no credential value;
   and the same holds of the value behind every `=` of its assignments, to the last.
   */
  lemma ScrubbedLineIsSafe(line: string)
    ensures var out := ScrubRest(Controlled(line));
            && !Contains(out, "://")
            && (forall c :: c in out ==> !IsControl(c))
            && (forall lo: nat, hi: nat :: IsFragment(out, lo, hi) ==> Clean(out[lo..hi]))
  {
    hide ScrubRest, Clean, Contains, NoUrl;
    ControlledIsPrintable(line);
    RestPrintable(Controlled(line));
    RestClean(Controlled(line));
    NoUrlIffNotContained(ScrubRest(Controlled(line)));
  }
}
