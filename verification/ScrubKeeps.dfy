/** What scrubbing leaves alone: prose, and the name of the file a failure is about (bench-runner, scrub.rs). */
module ScrubKeeps {
  import opened Wrappers
  import opened Text
  import opened Scrub
  import opened ScrubSafety
  import opened ScrubFixed

  /** Nothing in `s` can start a rule but the shape of a dotted host. */
  predicate NoRuleChars(s: string) {
    '=' !in s && ':' !in s && '/' !in s && '@' !in s
  }

  lemma NoColonNoUrl(s: string)
    requires ':' !in s
    ensures !Contains(s, "://")
  {
    NoSlashNoUrl(s);
    NoUrlIffNotContained(s);
  }

  lemma BareQuietUnchanged(core: string)
    requires NoRuleChars(core) && !IsFqdn(core)
    ensures ScrubBare(core) == core
  {
    hide IsFqdn;
    NoColonNoUrl(core);
    NoLast(core, ':');
  }

  /** A core no rule speaks about passes unchanged, its quotes included. */
  lemma QuietCoreUnchanged(core: string)
    requires NoRuleChars(core) && !IsFqdn(StripQuotes(core))
    ensures ScrubCore(core) == core
  {
    hide ScrubBare, ScrubCore, IsFqdn, StripQuotes, AllIn;
    var lead, trail := CoreThroughQuotes(core);
    if StripQuotes(core) != "" {
      BareQuietUnchanged(StripQuotes(core));
    }
  }

  /** A deep path keeps its basename, when no rule speaks about that. */
  lemma DeepPathKeepsBasename(path: string)
    requires '/' in path
    ensures var named := NamedComponents(Components(path, '/'));
            2 < named.count && NoRuleChars(named.last) && !IsFqdn(StripQuotes(named.last))
            ==> AbbreviatePath(path) == PATH_SENTINEL + "/" + named.last
  {
    hide ScrubCore, IsFqdn, StripQuotes;
    var named := NamedComponents(Components(path, '/'));
    BasenameShorter(path);
    if 2 < named.count && NoRuleChars(named.last) && !IsFqdn(StripQuotes(named.last)) {
      QuietCoreUnchanged(named.last);
    }
  }

  /** Plain prose: none of the characters the rules look for, and no dot. */
  predicate IsProse(s: string) {
    NoRuleChars(s) && '.' !in s
  }

  lemma NoDotNoFqdn(s: string)
    requires '.' !in s
    ensures !IsFqdn(s)
  {
    assert |Split(s, '.')| == 1;
  }

  lemma ProsePieceUnchanged(piece: string)
    requires IsProse(piece)
    ensures ScrubPiece(piece) == piece
  {
    hide ScrubCore, IsFqdn, StripQuotes;
    TrimKeepsOthers(piece, IsQuote, '.');
    StripIsTrim(piece);
    NoDotNoFqdn(StripQuotes(piece));
    QuietCoreUnchanged(piece);
  }

  lemma {:induction false} ProseTokenUnchanged(token: string)
    requires IsProse(token)
    ensures ScrubTokenSpec(token) == token
    decreases |token|
  {
    hide ScrubPiece;
    var at := FindFirst(token, IsWrapper);
    if at.None? {
      ProsePieceUnchanged(token);
    } else {
      var i := at.value;
      assert token == token[..i] + [token[i]] + token[i + 1..];
      ProsePieceUnchanged(token[..i]);
      ProseTokenUnchanged(token[i + 1..]);
    }
  }

  /** No delimiter in the token, and no colon behind it: nothing opens a slot. */
  lemma NoColonNoSlot(token: string, remainder: string)
    requires '=' !in token && ':' !in token && ':' !in remainder
    ensures CredentialSlot(token, remainder).None?
  {
    hide IsCredentialKey, LooksLikeAssignmentKey, IsFqdn, StripQuotes, Contains;
    assert forall i :: 0 <= i < |token| ==> token[i] in token;
    NoneIs(token, IsDelimiter);
    TrimStartCuts(remainder, IsSeparator);
    assert forall c :: c in NextToken(remainder) ==> c in remainder;
    assert ':' in ":";
  }

  lemma ProseHasNoColon(s: string)
    requires IsProse(s)
    ensures '=' !in s && ':' !in s
  {
  }

  /** Prose survives a scrub character for character. */
  lemma {:induction false} ProseRestUnchanged(rest: string)
    requires IsProse(rest)
    ensures ScrubRest(rest) == rest
    decreases |rest|
  {
    hide ScrubRest, ScrubTokenSpec, CredentialSlot, SealedSlot, TakeToken, AllIn, IsProse;
    var gap, token, remainder := LineSplits(rest);
    if token == "" {
      OnlyGap(gap);
    } else {
      ProseParts(rest, gap, token, remainder);
      RestUnfolds(rest, gap, token, remainder);
      ProseHasNoColon(token);
      ProseHasNoColon(remainder);
      NoColonNoSlot(token, remainder);
      ProseTokenUnchanged(token);
      ProseRestUnchanged(remainder);
    }
  }

  lemma ProseParts(rest: string, gap: string, token: string, remainder: string)
    requires IsProse(rest) && rest == gap + (token + remainder)
    ensures IsProse(token) && IsProse(remainder)
  {
  }

  lemma ProseSurvives(line: string)
    requires IsProse(line) && Printable(line)
    ensures ScrubRest(Controlled(line)) == line
  {
    PrintableIsUntouched(line);
    ProseRestUnchanged(line);
  }

  // ---- hosts and ports ------------------------------------------------------------------

  /** Letters, digits, dots and dashes: what hosts and ports are made of. */
  predicate HostChars(s: string) {
    forall c :: c in s ==> IsAlnum(c) || c == '.' || c == '-'
  }

  /** A trimmed core without slash or equals sign meets only the plain rules. */
  lemma OnlyPlainRules(core: string)
    requires core != "" && Trimmed(core) && '/' !in core && '=' !in core
    ensures ScrubCore(core) == ScrubPlain(core)
  {
    hide ScrubPlain;
    assert TrimStart(core, IsQuote) == core && TrimEnd(core, IsQuote) == core;
    NoSlashNoUrl(core);
    NoUrlIffNotContained(core);
    assert AssignmentAt(core).None?;
    assert ScrubCore(core) == ScrubBare(core);
  }

  lemma HostPortChars(host: string, port: string)
    requires host != "" && port != "" && HostChars(host) && AllDigits(port)
    ensures var core := host + ":" + port;
            core != "" && Trimmed(core) && '/' !in core && '=' !in core && '@' !in core && ':' in core
            && ':' !in host && ':' !in port
  {
    var core := host + ":" + port;
    assert host[0] in host && port[|port| - 1] in port;
    assert core[0] == host[0] && core[|core| - 1] == port[|port| - 1];
    assert core[|host|] == ':';
  }

  /** A host with a port has no other delimiter, so only the host and colon rules see it. */
  lemma HostAndPortIsPlain(host: string, port: string)
    requires host != "" && port != "" && HostChars(host) && AllDigits(port)
    ensures var core := host + ":" + port;
            && ScrubCore(core) == ScrubPlain(core) && !IsUserHost(core) && !IsPathLike(core) && !IsFqdn(core)
            && core[..|host|] == host && core[|host| + 1..] == port
            && FindLast(core, ':') == Some(|host|) && FindChar(core, ':') == Some(|host|)
  {
    hide ScrubPlain, ScrubCore, Trimmed;
    var core := host + ":" + port;
    HostPortChars(host, port);
    OnlyPlainRules(core);
    assert host + [':'] + port == core;
    LastIs(host, ':', port);
    FirstChar(host, ':', port);
    assert core[..|host|] == host;
  }

  /** A sealed host keeps its port, which is diagnostic and not secret. */
  lemma HostKeepsPort(host: string, port: string)
    requires IsFqdn(host) && port != "" && AllDigits(port)
    ensures ScrubCore(host + ":" + port) == HOST_SENTINEL + ":" + port
  {
    hide ScrubCore, IsPathLike, IsUserHost, SecretColonAt;
    HostAndPortIsPlain(host, port);
  }

  lemma {:induction false} ReadableHostChars(host: string)
    requires IsReadableHost(host)
    ensures host != "" && HostChars(host)
  {
    var lower := Lower(host);
    assert lower == "localhost" || lower == "localhost.localdomain";
    forall c | c in host ensures IsAlnum(c) || c == '.' || c == '-' {
      var i :| 0 <= i < |host| && host[i] == c;
      assert lower[i] == LowerChar(c);
      assert 'a' <= lower[i] <= 'z' || lower[i] == '.';
    }
  }

  /** A loopback name stays readable with its port, although its name holds a credential marker. */
  lemma ReadableHostSurvives(host: string, port: string)
    requires IsReadableHost(host) && port != "" && AllDigits(port)
    ensures ScrubCore(host + ":" + port) == host + ":" + port
  {
    hide ScrubCore, IsPathLike, IsUserHost, IsReadableHost, IsCredentialKey, LooksLikeAssignmentKey, StripQuotes;
    ReadableHostChars(host);
    HostAndPortIsPlain(host, port);
    BareHostIsTrimmed(host);
    ReadableIsNoFqdn(host);
  }

  lemma ReadableIsNoFqdn(host: string)
    requires IsReadableHost(host)
    ensures !IsFqdn(host)
  {
  }

  lemma BareHostIsTrimmed(host: string)
    requires host != "" && HostChars(host)
    ensures StripQuotes(host) == host
  {
    assert host[0] in host && host[|host| - 1] in host;
    TrimmedIsItself(host);
  }
}
