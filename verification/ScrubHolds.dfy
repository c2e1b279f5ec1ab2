/** What the words of a scrubbed line can be, by their letters (bench-runner, scrub.rs). */
module ScrubHolds {
  import opened Wrappers
  import opened Text
  import opened Scrub
  import opened ScrubWords
  import opened ScrubSafety
  import opened ScrubSecrets
  import opened ScrubKeys
  import opened ScrubKeeps
  import opened ScrubRules

  predicate Quotes(s: string) {
    forall c :: c in s ==> c in "\"'"
  }

  /** A host, with or without a port. */
  ghost predicate TellsHost(word: string) {
    NamesHost(word) || exists host, port :: word == host + ":" + port && NamesHost(host) && IsPort(port)
  }

  ghost predicate TellsPath(word: string) {
    exists parts :: IsSplit(parts) && word == Slashed(parts) && MakesPath(parts)
  }

  predicate IsSplit(parts: seq<string>) {
    parts != [] && forall p :: p in parts ==> '/' !in p
  }

  predicate IsAssigned(word: string, key: string, quotes: string, value: string) {
    IsKey(key) && Quotes(quotes) && word == key + quotes + "=" + value
  }

  /** The value behind a credential's colon. */
  ghost predicate TellsSecret(word: string) {
    exists key, value :: word == key + ":" + value && IsKey(key) && IsCredential(key) && !IsLoopback(key)
                         && value !in {"", "<redacted>"} && '=' !in value
  }

  /** Neither host nor path nor credential, and so on behind every `=` of it. */
  ghost predicate TellsNothing(word: string)
    decreases |word|
  {
    && !TellsHost(word) && !TellsPath(word) && !TellsSecret(word)
    && forall key, quotes, value ::
         IsAssigned(word, key, quotes, value) ==>
           if IsCredential(key) then value in {"", "<redacted>"}
           else forall lead, v, trail ::
                  Bare(v) && Quotes(lead) && Quotes(trail) && value == lead + v + trail && |v| < |word| ==> TellsNothing(v)
  }

  predicate IsBound(c: char) {
    c in " \t()[]{},;`"
  }

  /** `word` stands in the text between two bounds, its quotes set aside. */
  predicate Stands(text: string, before: string, lead: string, word: string, trail: string, behind: string) {
    && text == before + (lead + word + trail) + behind
    && Bare(word) && Quotes(lead) && Quotes(trail) && (forall c :: c in lead + word + trail ==> !IsBound(c))
    && (before == "" || IsBound(before[|before| - 1])) && (behind == "" || IsBound(behind[0]))
  }

  lemma BoundIs(c: char)
    ensures IsBound(c) <==> IsBreak(c)
  {
    WrapperIs(c);
    SeparatorIs(c);
    var all := " \t()[]{},;`";
    assert all == " \t" + "()[]{},;`";
  }

  lemma StandsInFragment(text: string, before: string, lead: string, word: string, trail: string, behind: string)
    requires Stands(text, before, lead, word, trail, behind)
    ensures var hi := |text| - |behind|;
            |before| <= hi && IsFragment(text, |before|, hi) && text[|before|..hi] == lead + word + trail
  {
    hide IsBound, IsBreak, Bare, Quotes;
    var piece := lead + word + trail;
    var hi := |before| + |piece|;
    forall k | |before| <= k < hi ensures !IsBreak(text[k]) {
      assert text[k] == piece[k - |before|] && piece[k - |before|] in piece;
      BoundIs(text[k]);
    }
    if before != "" {
      assert text[|before| - 1] == before[|before| - 1];
      BoundIs(before[|before| - 1]);
    }
    if behind != "" {
      assert text[hi] == behind[0];
      BoundIs(behind[0]);
    }
  }

  lemma QuotesAreQuotes(s: string)
    requires Quotes(s)
    ensures AllIn(s, IsQuote)
  {
    hide IsQuote;
    forall i | 0 <= i < |s| ensures IsQuote(s[i]) {
      assert s[i] in s;
      QuoteIs(s[i]);
    }
  }

  lemma QuotesSetAside(lead: string, word: string, trail: string)
    requires Bare(word) && Quotes(lead) && Quotes(trail)
    ensures StripQuotes(lead + word + trail) == word && StripQuotes(word) == word
  {
    hide Bare, Quotes, StripQuotes, Trim;
    QuotesAreQuotes(lead);
    QuotesAreQuotes(trail);
    BareIsTrimmed(word);
    TrimWrapped(lead, word, trail, IsQuote);
    StripIsTrim(lead + word + trail);
    StripIsTrim(word);
  }

  lemma HostShows(host: string, port: string)
    requires NamesHost(host) && IsPort(port)
    ensures ScrubHostLike(host + ":" + port).Some?
  {
    hide IsFqdn, NamesHost, FindLast;
    var word := host + ":" + port;
    FqdnIsHostName(host);
    LastIs(host, ':', port);
    PortIs(port);
    assert word[..|host|] == host && word[|host| + 1..] == port;
  }

  lemma NoHostInClean(word: string)
    requires Bare(word) && Clean(word)
    ensures !TellsHost(word)
  {
    hide Bare, IsFqdn, IsPathLike, NamesHost, FindLast, Sealed, StripQuotes;
    BareIsTrimmed(word);
    FqdnIsHostName(word);
    if host, port :| word == host + ":" + port && NamesHost(host) && IsPort(port) {
      HostShows(host, port);
      assert false;
    }
  }

  lemma NoPathInClean(word: string)
    requires Bare(word) && Clean(word)
    ensures !TellsPath(word)
  {
    hide Bare, IsFqdn, IsPathLike, ScrubHostLike, Sealed, StripQuotes, MakesPath, Slashed;
    BareIsTrimmed(word);
    if parts :| IsSplit(parts) && word == Slashed(parts) && MakesPath(parts) {
      PathIs(parts);
      assert false;
    }
  }

  lemma NoSecretInClean(word: string)
    requires Bare(word) && Clean(word)
    ensures !TellsSecret(word)
  {
    hide Bare, IsKey, IsCredential, IsLoopback, ShapeFree, StripQuotes, AssignmentAt, SecretColonAt;
    BareIsTrimmed(word);
    if key, value :| word == key + ":" + value && IsKey(key) && IsCredential(key) && !IsLoopback(key)
                     && value !in {"", "<redacted>"} && '=' !in value {
      SecretShows(key, value);
      assert false;
    }
  }

  lemma SecretShows(key: string, value: string)
    requires IsKey(key) && IsCredential(key) && !IsLoopback(key) && value != "" && '=' !in value
    ensures var word := key + ":" + value;
            AssignmentAt(word).None? && SecretColonAt(word) == Some(|key|) && word[|key| + 1..] == value
  {
    hide IsKey, IsCredential, IsLoopback, FindChar, SealingKey;
    var word := key + ":" + value;
    KeyIsBare(key);
    PlainKeyIs(key);
    FirstOccurrence(key, ':', value);
    assert word[..|key|] == key && word[|key| + 1..] == value;
    assert '=' !in word;
    NotFound(word, '=');
    SecretRule(word, |key|);
  }

  lemma NotFound(s: string, c: char)
    requires c !in s
    ensures FindChar(s, c).None?
  {
  }

  lemma AssignmentShows(key: string, quotes: string, value: string)
    requires IsKey(key) && Quotes(quotes)
    ensures var word := key + quotes + "=" + value; var eq := |key| + |quotes|;
            && AssignmentAt(word) == Some(eq) && word[eq + 1..] == value && StripQuotes(word[..eq]) == key
  {
    hide IsKey, FindChar, StripQuotes, Bare;
    var word := key + quotes + "=" + value;
    KeyIsBare(key);
    KeyIs(key);
    QuotesSetAside("", key, quotes);
    assert "" + key + quotes == key + quotes;
    FirstOccurrence(key + quotes, '=', value);
    assert word[..|key| + |quotes|] == key + quotes;
  }

  /** A clean word tells nothing. */
  lemma {:induction false} CleanTellsNothing(word: string)
    requires Bare(word) && Clean(word)
    ensures TellsNothing(word)
    decreases |word|
  {
    hide Bare, TellsHost, TellsPath, TellsSecret, ShapeFree, IsKey, Quotes, AssignmentAt, StripQuotes, IsCredential;
    NoHostInClean(word);
    NoPathInClean(word);
    NoSecretInClean(word);
    forall key, quotes, value | IsAssigned(word, key, quotes, value)
      ensures if IsCredential(key) then value in {"", "<redacted>"} else
              forall lead, v, trail ::
                Bare(v) && Quotes(lead) && Quotes(trail) && value == lead + v + trail && |v| < |word| ==> TellsNothing(v)
    {
      ValueIsClean(word, key, quotes, value);
      forall lead, v, trail | Bare(v) && Quotes(lead) && Quotes(trail) && value == lead + v + trail && |v| < |word|
                              && !IsCredential(key)
        ensures TellsNothing(v)
      {
        QuotesSetAside(lead, v, trail);
        CleanDependsOnInner(value, v);
        CleanTellsNothing(v);
      }
    }
  }

  lemma ValueIsClean(word: string, key: string, quotes: string, value: string)
    requires Bare(word) && Clean(word) && IsAssigned(word, key, quotes, value)
    ensures if IsCredential(key) then value in {"", "<redacted>"} else Clean(value)
  {
    hide Bare, ShapeFree, IsKey, Quotes, AssignmentAt, StripQuotes, IsCredential, IsCredentialKey;
    BareIsTrimmed(word);
    AssignmentShows(key, quotes, value);
    CredentialMeans(key);
  }

  /**
   Of every word between two bounds of every scrubbed line: it tells no host, with or without its port, no path, no
   credential behind a `:` or an `=`, and neither does any value that it assigns.
   */
  lemma ScrubbedWordsTellNothing(line: string, before: string, lead: string, word: string, trail: string,
                                 behind: string)
    requires Stands(ScrubRest(Controlled(line)), before, lead, word, trail, behind)
    ensures TellsNothing(word)
  {
    hide Stands, Bare, Quotes, ScrubRest, Controlled, Clean, TellsNothing, IsFragment;
    var text := ScrubRest(Controlled(line));
    ScrubbedLineIsSafe(line);
    StandsInFragment(text, before, lead, word, trail, behind);
    assert Clean(text[|before|..|text| - |behind|]);
    StandsMeans(text, before, lead, word, trail, behind);
    QuotesSetAside(lead, word, trail);
    CleanDependsOnInner(lead + word + trail, word);
    CleanTellsNothing(word);
  }

  lemma StandsMeans(text: string, before: string, lead: string, word: string, trail: string, behind: string)
    requires Stands(text, before, lead, word, trail, behind)
    ensures Bare(word) && Quotes(lead) && Quotes(trail)
  {
  }
}
