/** What each rule of the scrubber makes of the words it speaks of (bench-runner, scrub.rs). */
module ScrubRules {
  import opened Wrappers
  import opened Text
  import opened Scrub
  import opened ScrubWords
  import opened ScrubSafety
  import opened ScrubSecrets
  import opened ScrubKeeps
  import opened ScrubFixed
  import opened ScrubKeys

  // ---- quotes --------------------------------------------------------------------------

  /** No quote at either end. */
  predicate Bare(s: string) {
    s != "" && s[0] !in "\"'" && s[|s| - 1] !in "\"'"
  }

  lemma QuoteIs(c: char)
    ensures IsQuote(c) <==> c in "\"'"
  {
    var quotes := "\"'";
    assert quotes[0] == '\"' && quotes[1] == '\'' && |quotes| == 2;
  }

  lemma BareIsTrimmed(s: string)
    requires Bare(s)
    ensures Trimmed(s) && StripQuotes(s) == s && ScrubCore(s) == ScrubBare(s)
  {
    hide ScrubBare, ScrubCore;
    QuoteIs(s[0]);
    QuoteIs(s[|s| - 1]);
    TrimmedIsItself(s);
    TrimmedCore(s);
  }

  /** The quotes around a word stay where they are, and the rules see what stands between them. */
  lemma QuotesAreKept(lead: string, s: string, trail: string)
    requires Bare(s) && (forall c :: c in lead + trail ==> c in "\"'")
    ensures ScrubCore(lead + s + trail) == lead + ScrubCore(s) + trail
  {
    hide ScrubBare, ScrubCore, IsQuote;
    BareIsTrimmed(s);
    QuoteIs(s[0]);
    forall i | 0 <= i < |lead| ensures IsQuote(lead[i]) {
      assert lead[i] in lead + trail;
      QuoteIs(lead[i]);
    }
    forall i | 0 <= i < |trail| ensures IsQuote(trail[i]) {
      assert trail[i] in lead + trail;
      QuoteIs(trail[i]);
    }
    var t := lead + s + trail;
    TrimWrapped(lead, s, trail, IsQuote);
    StripIsTrim(t);
    StripIsTrim(s);
    var l, r := CoreThroughQuotes(t);
    SameEdges(lead, s, trail, l, r);
  }

  lemma SameEdges(lead: string, s: string, trail: string, l: string, r: string)
    requires s != "" && !IsQuote(s[0])
    requires AllIn(lead, IsQuote) && AllIn(l, IsQuote) && lead + s + trail == l + s + r
    ensures l == lead && r == trail
  {
    hide TrimStart;
    LeadTrims(lead, s, trail);
    LeadTrims(l, s, r);
    assert |s + trail| == |s + r| && |lead| == |l|;
    assert l == (l + s + r)[..|l|] && lead == (lead + s + trail)[..|l|];
    assert r == (l + s + r)[|l| + |s|..] && trail == (lead + s + trail)[|l| + |s|..];
  }

  lemma LeadTrims(lead: string, s: string, trail: string)
    requires s != "" && !IsQuote(s[0]) && AllIn(lead, IsQuote)
    ensures TrimStart(lead + s + trail, IsQuote) == s + trail
  {
    assert lead + s + trail == lead + (s + trail);
    TrimStartSkips(lead, s + trail, IsQuote);
    TrimStartStopsAt(s + trail, IsQuote);
  }

  // ---- hosts ---------------------------------------------------------------------------

  lemma SentinelHasNone()
    ensures '=' !in "<host>" && ':' !in "<host>" && '@' !in "<host>"
  {
  }

  lemma OtherSentinels()
    ensures URL_SENTINEL != "<host>" && USERHOST_SENTINEL != "<host>"
  {
    assert URL_SENTINEL[1] == 'u' && USERHOST_SENTINEL[1] == 'u' && "<host>"[1] == 'h';
  }

  lemma AbbreviatedIsNoHost(path: string)
    requires '/' in path
    ensures AbbreviatePath(path) != "<host>"
  {
    hide ScrubCore, NamedComponents, Components;
    BasenameShorter(path);
    assert AbbreviatePath(path)[1] == 'p' && "<host>"[1] == 'h';
  }

  lemma WithPortIsNoHost(core: string)
    requires ScrubHostLike(core).Some? && !IsFqdn(core)
    ensures ScrubHostLike(core).value != "<host>"
  {
    hide IsFqdn;
    SentinelHasNone();
    var colon := FindLast(core, ':').value;
    assert (HOST_SENTINEL + ":" + core[colon + 1..])[6] == ':';
  }

  lemma SecretIsNoHost(core: string)
    requires SecretColonAt(core).Some?
    ensures core[..SecretColonAt(core).value] + ":" + SECRET_SENTINEL != "<host>"
  {
    hide LooksLikeAssignmentKey, IsCredentialKey, StripQuotes, IsReadableHost;
    SentinelHasNone();
    var i := SecretColonAt(core).value;
    assert (core[..i] + ":" + SECRET_SENTINEL)[i] == ':';
  }

  lemma PlainHostOnly(core: string)
    ensures ScrubPlain(core) == "<host>" ==> core == "<host>" || IsFqdn(core)
  {
    hide IsFqdn, AbbreviatePath, IsUserHost, ScrubHostLike, SecretColonAt;
    OtherSentinels();
    if IsUserHost(core) {
    } else if IsPathLike(core) {
      AbbreviatedIsNoHost(core);
    } else if ScrubHostLike(core).Some? {
      if !IsFqdn(core) {
        WithPortIsNoHost(core);
      }
    } else if SecretColonAt(core).Some? {
      SecretIsNoHost(core);
    }
  }

  lemma BareHostOnly(core: string)
    ensures ScrubBare(core) == "<host>" ==> core == "<host>" || IsFqdn(core)
  {
    hide IsFqdn, ScrubPlain, Contains, LooksLikeAssignmentKey, IsCredentialKey, StripQuotes, ScrubCore;
    SentinelHasNone();
    OtherSentinels();
    PlainHostOnly(core);
    var at := AssignmentAt(core);
    if !Contains(core, "://") && at.Some? {
      assert ScrubBare(core)[at.value] == '=';
    }
  }

  /**
   What comes out as `<host>`, exactly: every dotted name of two labels or more whose last is no extension, and the
   sentinel itself.
   */
  lemma HostIsSealed(core: string)
    ensures ScrubCore(core) == "<host>" <==> NamesHost(core) || core == "<host>"
  {
    hide IsFqdn, ScrubBare, ScrubCore, NamesHost, StripQuotes;
    FqdnIsHostName(core);
    if ScrubCore(core) == "<host>" {
      var lead, trail := CoreThroughQuotes(core);
      SentinelIsBare(lead, ScrubBare(StripQuotes(core)), trail);
      if StripQuotes(core) != "" {
        assert core == StripQuotes(core);
        BareHostOnly(core);
      }
    }
    if IsFqdn(core) {
      FqdnIsSealed(core);
    }
    HostSentinelStays();
  }

  lemma SentinelIsBare(lead: string, s: string, trail: string)
    requires AllIn(lead, IsQuote) && AllIn(trail, IsQuote)
    ensures lead + s + trail == "<host>" ==> lead == "" && trail == "" && s == "<host>"
  {
    var t := lead + s + trail;
    assert lead != "" ==> t[0] == lead[0];
    assert trail != "" ==> t[|t| - 1] == trail[|trail| - 1];
    assert "<host>"[0] == '<' && "<host>"[5] == '>';
    assert lead == "" && trail == "" ==> t == s;
  }

  lemma FqdnChars(core: string)
    requires IsFqdn(core)
    ensures core != "" && Trimmed(core) && '/' !in core && '=' !in core && '@' !in core && ':' !in core
  {
    assert core != "" && HostChars(core);
    HostCharsAreBare(core);
  }

  lemma HostCharsAreBare(core: string)
    requires core != "" && HostChars(core)
    ensures Trimmed(core) && '/' !in core && '=' !in core && '@' !in core && ':' !in core
  {
    EdgesAreIn(core);
  }

  lemma EdgesAreIn(s: string)
    requires s != ""
    ensures s[0] in s && s[|s| - 1] in s
  {
    var n := |s| - 1;
    assert s[n] in s;
  }

  lemma FqdnIsSealed(core: string)
    requires IsFqdn(core)
    ensures ScrubCore(core) == "<host>"
  {
    hide ScrubCore, Components, IsFqdn;
    FqdnChars(core);
    OnlyPlainRules(core);
    NoLast(core, ':');
    assert ScrubPlain(core) == HOST_SENTINEL;
  }

  lemma HostSentinelStays()
    ensures ScrubCore("<host>") == "<host>"
  {
    hide IsFqdn, ScrubCore;
    var s := "<host>";
    assert s[0] == '<' && s[5] == '>';
    OnlyPlainRules(s);
    assert s[0] in s && !IsAlnum('<');
    NoPlainRule(s);
  }

  predicate IsPort(port: string) {
    port != "" && forall c :: c in port ==> IsNumeral(c)
  }

  /** The host behind a port is sealed just so, and the port is kept. */
  lemma HostBeforePort(host: string, port: string)
    requires NamesHost(host) && IsPort(port)
    ensures ScrubCore(host + ":" + port) == "<host>:" + port
  {
    hide ScrubCore, IsFqdn, NamesHost;
    FqdnIsHostName(host);
    HostKeepsPort(host, port);
    assert HOST_SENTINEL + ":" + port == "<host>:" + port;
  }

  // ---- URLs, accounts, keys -----------------------------------------------------------------

  /** Anything around `://` goes, scheme and all. */
  lemma UrlIsSealed(before: string, behind: string)
    requires Bare(before + "://" + behind)
    ensures ScrubCore(before + "://" + behind) == "<url>"
  {
    hide ScrubCore, Bare;
    var core := before + "://" + behind;
    BareIsTrimmed(core);
    assert core[|before|..|before| + 3] == "://";
    assert StandsAt(core, |before|, "://");
    ContainsIs(core, "://");
  }

  ghost predicate IsCredential(key: string) {
    exists word :: IsMarker(word) && Spells(key, word)
  }

  lemma KeyIsBare(key: string)
    requires IsKey(key)
    ensures Bare(key) && StripQuotes(key) == key && '=' !in key && ':' !in key && '/' !in key && '@' !in key
  {
    hide StripQuotes, Spells;
    assert key[0] in key && key[|key| - 1] in key;
    QuoteIs(key[0]);
    QuoteIs(key[|key| - 1]);
    TrimmedIsItself(key);
  }

  lemma AssignedScrubs(key: string, value: string)
    requires LooksLikeAssignmentKey(StripQuotes(key)) && !Contains(key + "=" + value, "://")
    ensures ScrubBare(key + "=" + value)
            == if IsCredentialKey(StripQuotes(key)) then key + "=" + SECRET_SENTINEL else key + "=" + ScrubCore(value)
  {
    hide LooksLikeAssignmentKey, IsCredentialKey, StripQuotes, Contains, ScrubPlain, ScrubCore;
    AssignmentFound(key, value);
  }

  /** `key=value`: a credential's value is sealed, any other is scrubbed in its turn. */
  lemma AssignmentIsSealed(key: string, value: string)
    requires IsKey(key) && (value != "" ==> value[|value| - 1] !in "\"'") && !Contains(key + "=" + value, "://")
    ensures ScrubCore(key + "=" + value)
            == if IsCredential(key) then key + "=<redacted>" else key + "=" + ScrubCore(value)
  {
    hide ScrubCore, ScrubBare, IsKey, IsCredential, IsCredentialKey, StripQuotes, Contains, LooksLikeAssignmentKey;
    KeyIsBare(key);
    KeyIs(key);
    CredentialMeans(key);
    AssignedIsBare(key, value);
    BareIsTrimmed(key + "=" + value);
    AssignedScrubs(key, value);
    SealedText(key);
  }

  lemma SealedText(key: string)
    ensures key + "=" + SECRET_SENTINEL == key + "=<redacted>" && key + ":" + SECRET_SENTINEL == key + ":<redacted>"
  {
    assert "=" + SECRET_SENTINEL == "=<redacted>" && ":" + SECRET_SENTINEL == ":<redacted>";
  }

  lemma AssignedIsBare(key: string, value: string)
    requires Bare(key) && (value != "" ==> value[|value| - 1] !in "\"'")
    ensures Bare(key + "=" + value)
  {
    var core := key + "=" + value;
    assert core[0] == key[0] && core[|core| - 1] == if value == "" then '=' else value[|value| - 1];
    assert '=' !in "\"'";
  }

  lemma CredentialMeans(key: string)
    ensures IsCredentialKey(key) <==> IsCredential(key)
  {
    hide Spells, IsMarker, IsCredentialKey;
    CredentialIs(key);
  }

  /** An account at a host goes whole. */
  lemma AccountIsSealed(user: string, host: string)
    requires user != "" && host != "" && Bare(user + "@" + host)
    requires '@' !in user && '=' !in user + host && !Contains(user + "@" + host, "://")
    ensures ScrubCore(user + "@" + host) == "<user@host>"
  {
    hide ScrubCore, Bare, Contains;
    var core := user + "@" + host;
    BareIsTrimmed(core);
    assert user + ['@'] + host == core;
    FirstChar(user, '@', host);
    assert '=' !in core;
    assert ScrubPlain(core) == USERHOST_SENTINEL;
  }

  // ---- paths ---------------------------------------------------------------------------------

  /** Parts joined by slashes; empty parts are slashes in a row. */
  function Slashed(parts: seq<string>): string
    requires parts != []
  {
    if |parts| == 1 then parts[0] else parts[0] + "/" + Slashed(parts[1..])
  }

  function NonEmpty(parts: seq<string>): seq<string> {
    if parts == [] then [] else (if parts[0] == "" then [] else [parts[0]]) + NonEmpty(parts[1..])
  }

  lemma {:induction false} ComponentsOfSlashed(parts: seq<string>)
    requires parts != [] && forall p :: p in parts ==> '/' !in p
    ensures Components(Slashed(parts), '/') == NonEmpty(parts)
  {
    hide Components, FindChar;
    assert parts[0] in parts;
    if |parts| == 1 {
      NoSlash(parts[0]);
      assert parts[1..] == [];
    } else {
      assert forall p :: p in parts[1..] ==> p in parts;
      ComponentsOfSlashed(parts[1..]);
      SlashCuts(parts[0], Slashed(parts[1..]));
    }
  }

  lemma NoSlash(s: string)
    requires '/' !in s
    ensures Components(s, '/') == if s == "" then [] else [s]
  {
  }

  lemma SlashCuts(head: string, rest: string)
    requires '/' !in head
    ensures Components(head + "/" + rest, '/') == (if head == "" then [] else [head]) + Components(rest, '/')
  {
    var s := head + "/" + rest;
    assert s == head + ['/'] + rest;
    FirstChar(head, '/', rest);
    assert s[|head| + 1..] == rest && s[..|head|] == head;
  }

  /** A part that names something: not empty, no step to the same or the upper directory, no home. */
  predicate IsPlace(part: string) {
    part != "" && part != "." && part != ".." && part[0] != '~'
  }

  function Places(parts: seq<string>): seq<string> {
    if parts == [] then [] else (if IsPlace(parts[0]) then [parts[0]] else []) + Places(parts[1..])
  }

  lemma {:induction false} PlacesJoin(a: seq<string>, b: seq<string>)
    ensures Places(a + b) == Places(a) + Places(b)
  {
    if a == [] {
      assert a + b == b;
    } else {
      assert (a + b)[1..] == a[1..] + b;
      PlacesJoin(a[1..], b);
    }
  }

  lemma {:induction false} PlacesOfNonEmpty(parts: seq<string>)
    ensures Places(NonEmpty(parts)) == Places(parts)
  {
    if parts != [] {
      PlacesOfNonEmpty(parts[1..]);
      var head := if parts[0] == "" then [] else [parts[0]];
      PlacesJoin(head, NonEmpty(parts[1..]));
      assert head != [] ==> head[1..] == [] && Places(head) == (if IsPlace(parts[0]) then [parts[0]] else []);
    }
  }

  lemma {:induction false} NamedArePlaces(parts: seq<string>)
    requires "" !in parts
    ensures var named, places := NamedComponents(parts), Places(parts);
            named.count == |places| && (places != [] ==> named.last == places[|places| - 1])
  {
    hide Places, IsNamedComponent, IsPlace;
    if parts == [] {
      NoPlaces();
    } else {
      var before, last := parts[..|parts| - 1], parts[|parts| - 1];
      NamedArePlaces(before);
      assert parts == before + [last];
      PlacesJoin(before, [last]);
      OnePlace(last);
      assert last in parts;
      NamedIsPlace(last);
    }
  }

  lemma NoPlaces()
    ensures Places([]) == []
  {
  }

  lemma OnePlace(part: string)
    ensures Places([part]) == if IsPlace(part) then [part] else []
  {
    assert [part][1..] == [];
  }

  lemma NamedIsPlace(part: string)
    requires part != ""
    ensures IsNamedComponent(part) <==> IsPlace(part)
  {
    assert StartsWith(part, "~") <==> part[0] == '~';
  }

  lemma {:induction false} NoEmptyLeft(parts: seq<string>)
    ensures "" !in NonEmpty(parts) && |NonEmpty(parts)| <= |parts|
  {
    if parts != [] {
      NoEmptyLeft(parts[1..]);
    }
  }

  /** Which joined parts make a path: a leading slash, home or dot directory, or three parts that are not empty. */
  predicate MakesPath(parts: seq<string>)
    requires parts != []
  {
    2 <= |parts| && (parts[0] in {"", ".", ".."} || parts[0][0] == '~' || 3 <= |NonEmpty(parts)|)
  }

  lemma SlashedStarts(parts: seq<string>)
    requires 2 <= |parts| && '/' !in parts[0]
    ensures var s := Slashed(parts);
            && '/' in s
            && (StartsWith(s, "/") <==> parts[0] == "")
            && (StartsWith(s, "~") <==> parts[0] != "" && parts[0][0] == '~')
            && (StartsWith(s, "./") <==> parts[0] == ".")
            && (StartsWith(s, "../") <==> parts[0] == "..")
  {
    var head, s := parts[0], Slashed(parts);
    var rest := Slashed(parts[1..]);
    assert s == head + "/" + rest && s[|head|] == '/';
    assert forall i :: 0 <= i < |head| ==> s[i] == head[i] && head[i] in head;
    assert "./"[0] == '.' && "./"[1] == '/' && "../"[0] == '.' && "../"[1] == '.' && "../"[2] == '/';
    if StartsWith(s, "./") {
      assert s[0] == '.' && s[1] == '/';
    }
    if StartsWith(s, "../") {
      assert s[0] == '.' && s[1] == '.' && s[2] == '/';
    }
  }

  lemma PathIs(parts: seq<string>)
    requires parts != [] && forall p :: p in parts ==> '/' !in p
    ensures IsPathLike(Slashed(parts)) <==> MakesPath(parts)
  {
    hide Components, StartsWith, Slashed;
    ComponentsOfSlashed(parts);
    assert parts[0] in parts;
    if |parts| == 1 {
      OnePart(parts);
    } else {
      SlashedStarts(parts);
    }
  }

  lemma OnePart(parts: seq<string>)
    requires |parts| == 1
    ensures Slashed(parts) == parts[0]
  {
  }

  /**
   A path of more than two places keeps the last of them, scrubbed in its turn; a shallower one keeps nothing. Steps to
   `.`, `..` and a home do not count.
   */
  lemma PathIsSealed(parts: seq<string>)
    requires parts != [] && (forall p :: p in parts ==> '/' !in p) && MakesPath(parts)
    requires var path := Slashed(parts); Bare(path) && '=' !in path && '@' !in path && ':' !in path
    ensures var places := Places(parts);
            ScrubCore(Slashed(parts)) == if 2 < |places| then "<path>/" + ScrubCore(places[|places| - 1]) else "<path>"
  {
    hide ScrubCore, Bare, Slashed, Places, NonEmpty, Components, NamedComponents;
    var path := Slashed(parts);
    BareIsTrimmed(path);
    NoColonNoUrl(path);
    PathIs(parts);
    ComponentsOfSlashed(parts);
    NoEmptyLeft(parts);
    NamedArePlaces(NonEmpty(parts));
    PlacesOfNonEmpty(parts);
    assert ScrubBare(path) == AbbreviatePath(path);
    var places := Places(parts);
    assert 2 < |places| ==>
        PATH_SENTINEL + "/" + ScrubCore(places[|places| - 1]) == "<path>/" + ScrubCore(places[|places| - 1]);
  }

  // ---- what is left readable ---------------------------------------------------------------

  predicate IsLoopback(s: string) {
    SameUpToCase(s, "localhost") || SameUpToCase(s, "localhost.localdomain")
  }

  /** A value without any character a rule looks for, and no quote at its end. */
  predicate IsPlainValue(value: string) {
    value != "" && value[|value| - 1] !in "\"'" && NoRuleChars(value)
  }

  lemma ColonText(key: string, value: string)
    requires Bare(key) && NoRuleChars(key) && IsPlainValue(value)
    ensures var core := key + ":" + value;
            && Bare(core) && '/' !in core && '=' !in core && '@' !in core && ':' in core
            && core[..|key|] == key && core[|key| + 1..] == value && core[|key|] == ':'
            && key != "" && value != "" && ':' !in key && ':' !in value
  {
    var core := key + ":" + value;
    assert core[0] == key[0] && core[|core| - 1] == value[|value| - 1];
    assert core[|key|] == ':';
  }

  lemma ColonPlaces(key: string, value: string)
    requires ':' !in key && ':' !in value
    ensures FindChar(key + ":" + value, ':') == Some(|key|) && FindLast(key + ":" + value, ':') == Some(|key|)
  {
    assert key + ":" + value == key + [':'] + value;
    FirstChar(key, ':', value);
    LastIs(key, ':', value);
  }

  lemma ColonIsPlain(key: string, value: string)
    requires Bare(key) && NoRuleChars(key) && IsPlainValue(value)
    ensures var core := key + ":" + value;
            ScrubCore(core) == ScrubPlain(core) && !IsUserHost(core) && !IsPathLike(core) && !IsFqdn(core)
  {
    hide ScrubCore, ScrubPlain, StripQuotes, Components, Trimmed, IsPlainValue, NoRuleChars, Bare;
    var core := key + ":" + value;
    ColonText(key, value);
    BareIsTrimmed(core);
    OnlyPlainRules(core);
    ColonIsNoFqdn(core);
  }

  lemma PortRule(core: string, i: nat)
    requires FindLast(core, ':') == Some(i) && i < |core| && !IsFqdn(core)
    ensures ScrubHostLike(core)
            == if IsPort(core[i + 1..]) && IsFqdn(core[..i]) then Some(HOST_SENTINEL + ":" + core[i + 1..]) else None
  {
    hide IsFqdn, FindLast;
    PortIs(core[i + 1..]);
  }

  lemma SecretRule(core: string, i: nat)
    requires FindChar(core, ':') == Some(i) && 0 < i && i + 1 < |core|
    ensures SecretColonAt(core) == if SealingKey(core[..i]) then Some(i) else None
  {
    hide LooksLikeAssignmentKey, IsCredentialKey, IsReadableHost, StripQuotes;
  }

  /** `key:value`: a host keeps its port, the loopback stays, a credential's value is sealed, and prose is left alone. */
  lemma ColonIsSealed(key: string, value: string)
    requires IsKey(key) && IsPlainValue(value)
    ensures ScrubCore(key + ":" + value)
            == if NamesHost(key) && IsPort(value) then "<host>:" + value
               else if IsCredential(key) && !IsLoopback(key) then key + ":<redacted>"
               else key + ":" + value
  {
    hide ScrubCore, ScrubPlain, IsKey, IsCredential, StripQuotes, IsFqdn, NamesHost, IsUserHost, IsPathLike,
         ScrubHostLike, SecretColonAt, IsLoopback, Bare, SealingKey, FindChar, FindLast, IsPlainValue, IsPort;
    var core := key + ":" + value;
    KeyIsBare(key);
    ColonText(key, value);
    ColonPlaces(key, value);
    ColonIsPlain(key, value);
    PlainKeyIs(key);
    FqdnIsHostName(key);
    PortRule(core, |key|);
    SecretRule(core, |key|);
    SealedText(key);
    if ScrubHostLike(core).None? {
      ColonRule(core);
    } else {
      HostRule(core);
    }
  }

  lemma HostRule(core: string)
    requires !IsUserHost(core) && !IsPathLike(core) && ScrubHostLike(core).Some?
    ensures ScrubPlain(core) == ScrubHostLike(core).value
  {
    hide IsUserHost, IsPathLike, ScrubHostLike;
  }

  lemma PlainKeyIs(key: string)
    requires IsKey(key)
    ensures SealingKey(key) <==> IsCredential(key) && !IsLoopback(key)
  {
    hide IsKey, IsCredential, IsLoopback, StripQuotes;
    KeyIsBare(key);
    SealingKeyIs(key);
  }

  lemma LoopbackIs(s: string)
    ensures IsReadableHost(s) <==> IsLoopback(s)
  {
    ReadableIs(s);
  }

  lemma PortIs(s: string)
    ensures s != "" && AllDigits(s) <==> IsPort(s)
  {
  }

  /** The name of a file stays readable when its extension is one of the listed ones. */
  lemma FileNameStays(stem: string, e: string, extension: string)
    requires IsExtension(e) && SameUpToCase(extension, e) && NoRuleChars(stem + "." + extension)
    requires Bare(stem + "." + extension)
    ensures ScrubCore(stem + "." + extension) == stem + "." + extension
  {
    hide ScrubCore, IsFqdn, IsExtension, StripQuotes;
    FileNameIsNoHost(stem, e, extension);
    BareIsTrimmed(stem + "." + extension);
    QuietCoreUnchanged(stem + "." + extension);
  }

  /** A dotted address of numerals names no deployment, and stays readable. */
  lemma AddressStays(stem: string, last: string)
    requires IsPort(last) && NoRuleChars(stem + "." + last) && Bare(stem + "." + last)
    ensures ScrubCore(stem + "." + last) == stem + "." + last
  {
    hide ScrubCore, StripQuotes, IsReadableHost, Split;
    var s := stem + "." + last;
    assert '.' !in last;
    LastOfSplit(stem, last);
    assert last[0] in last && !IsAlpha(last[0]);
    assert Lower(last)[0] == last[0] && Lower(last)[0] in Lower(last);
    BareIsTrimmed(s);
    QuietCoreUnchanged(s);
  }

  // ---- tokens ------------------------------------------------------------------------------

  lemma WrapperIs(c: char)
    ensures IsWrapper(c) <==> c in "()[]{},;`"
  {
    var all := "()[]{},;`";
    assert all[0] == '(' && all[1] == ')' && all[2] == '[' && all[3] == ']' && all[4] == '{' && all[5] == '}'
           && all[6] == ',' && all[7] == ';' && all[8] == '`' && |all| == 9;
  }

  /** The nine wrapping characters stand, and what lies between them is scrubbed piece by piece. */
  lemma WrappersStand(piece: string, w: char, rest: string)
    requires w in "()[]{},;`" && forall c :: c in piece ==> c !in "()[]{},;`"
    ensures ScrubTokenSpec(piece + [w] + rest) == (if piece == "" then "" else ScrubCore(piece)) + [w] + ScrubTokenSpec(rest)
    ensures ScrubTokenSpec(piece) == if piece == "" then "" else ScrubCore(piece)
  {
    hide ScrubCore, IsWrapper;
    WrapperIs(w);
    var token := piece + [w] + rest;
    forall k | 0 <= k < |piece| ensures !IsWrapper(piece[k]) {
      assert piece[k] in piece;
      WrapperIs(piece[k]);
    }
    FirstIs(token, IsWrapper, |piece|);
    NoneIs(piece, IsWrapper);
    assert token[..|piece|] == piece && token[|piece| + 1..] == rest;
  }

  // ---- lines -------------------------------------------------------------------------------

  predicate IsBlank(s: string) {
    forall c :: c in s ==> c in " \t"
  }

  predicate IsWord(t: string) {
    t != "" && forall c :: c in t ==> c !in " \t"
  }

  predicate StartsBlank(s: string) {
    s == "" || s[0] in " \t"
  }

  lemma SeparatorIs(c: char)
    ensures IsSeparator(c) <==> c in " \t"
  {
    var all := " \t";
    assert all[0] == ' ' && all[1] == '\t' && |all| == 2;
  }

  /** A line is scrubbed word by word, blanks and tabs standing, up to the first word that opens a credential slot. */
  lemma WordIsScrubbed(gap: string, word: string, rest: string)
    requires IsBlank(gap) && IsWord(word) && StartsBlank(rest)
    ensures ScrubRest(gap + (word + rest))
            == match CredentialSlot(word, rest)
               case Some(slot) => gap + slot.prefix + slot.bridge + "<redacted>"
               case None => gap + ScrubTokenSpec(word) + ScrubRest(rest)
  {
    hide ScrubRest, CredentialSlot, ScrubTokenSpec, IsSeparator;
    forall k | 0 <= k < |gap| ensures IsSeparator(gap[k]) {
      assert gap[k] in gap;
      SeparatorIs(gap[k]);
    }
    forall c | c in word ensures !IsSeparator(c) {
      SeparatorIs(c);
    }
    if rest != "" {
      SeparatorIs(rest[0]);
    }
    assert word[0] in word;
    TakesToken(word, rest);
    RestUnfolds(gap + (word + rest), gap, word, rest);
    var slot := CredentialSlot(word, rest);
    if slot.Some? {
      assert gap + (slot.value.prefix + slot.value.bridge + SECRET_SENTINEL)
             == gap + slot.value.prefix + slot.value.bridge + "<redacted>";
    } else {
      assert gap + (ScrubTokenSpec(word) + ScrubRest(rest)) == gap + ScrubTokenSpec(word) + ScrubRest(rest);
    }
  }

  lemma BlankStays(gap: string)
    requires IsBlank(gap)
    ensures ScrubRest(gap) == gap
  {
    hide ScrubRest, IsSeparator;
    forall k | 0 <= k < |gap| ensures IsSeparator(gap[k]) {
      assert gap[k] in gap;
      SeparatorIs(gap[k]);
    }
    OnlyGap(gap);
  }

  // ---- which word opens a slot, said without the rules --------------------------------------

  /** The key in front, its quotes set aside, is a credential and no loopback. */
  ghost predicate IsSealingKey(key: string) {
    IsKey(StripQuotes(key)) && IsCredential(StripQuotes(key)) && !IsLoopback(StripQuotes(key))
  }

  lemma SealingKeyIs(key: string)
    ensures SealingKey(key) <==> IsSealingKey(key)
  {
    hide IsKey, IsCredential, IsLoopback, IsCredentialKey, LooksLikeAssignmentKey, IsReadableHost;
    KeyIs(StripQuotes(key));
    CredentialMeans(StripQuotes(key));
    LoopbackIs(StripQuotes(key));
  }

  // ---- control characters --------------------------------------------------------------------

  /** The value of a hexadecimal digit. */
  function HexValue(c: char): int {
    if '0' <= c <= '9' then c as int - '0' as int
    else if 'a' <= c <= 'f' then c as int - 'a' as int + 10
    else -1
  }

  predicate IsRawControl(c: char) {
    (c as int < 32 && c != '\t') || c as int == 127
  }

  lemma HexDigitIs(n: nat)
    requires n < 16
    ensures HexValue(HexDigit(n)) == n
  {
    assert "0123456789abcdef"[n] == if n < 10 then ('0' as int + n) as char else ('a' as int + n - 10) as char;
  }

  /** A control character becomes `\x` and the two digits of its code; every other character is itself. */
  lemma EscapeNamesItsCode(c: char)
    ensures var e := EscapeControl(c);
            if IsRawControl(c) then
              |e| == 4 && e[..2] == "\\x" && 16 * HexValue(e[2]) + HexValue(e[3]) == c as int
              && 0 <= HexValue(e[2]) && 0 <= HexValue(e[3])
            else e == [c]
  {
    hide HexDigit, HexValue;
    if IsRawControl(c) {
      HexDigitIs(c as int / 16);
      HexDigitIs(c as int % 16);
      assert EscapeControl(c) == "\\x" + [HexDigit(c as int / 16), HexDigit(c as int % 16)];
    }
  }

  lemma {:induction false} EscapesJoin(a: string, b: string)
    ensures Controlled(a + b) == Controlled(a) + Controlled(b)
  {
    hide EscapeControl;
    if a == "" {
      assert a + b == b;
    } else {
      assert (a + b)[1..] == a[1..] + b;
      EscapesJoin(a[1..], b);
    }
  }
}
