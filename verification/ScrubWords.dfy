/** Which words the scrubber's rules speak of, said letter by letter and without the rules (bench-runner, scrub.rs). */
module ScrubWords {
  import opened Wrappers
  import opened Text
  import opened Scrub

  predicate IsLetter(c: char) { 'a' <= c <= 'z' || 'A' <= c <= 'Z' }

  predicate IsNumeral(c: char) { '0' <= c <= '9' }

  // ---- hosts ---------------------------------------------------------------------------

  /** Letters, numerals and dashes, and at least one of them. */
  predicate IsLabel(l: string) {
    l != "" && forall c :: c in l ==> IsLetter(c) || IsNumeral(c) || c == '-'
  }

  /** A top label: two to twenty-four letters that spell no file extension. */
  predicate IsTop(l: string) {
    2 <= |l| <= 24 && (forall c :: c in l ==> IsLetter(c)) && Lower(l) !in FILE_EXTENSIONS
  }

  function Dotted(labels: seq<string>): string
    requires labels != []
  {
    if |labels| == 1 then labels[0] else labels[0] + "." + Dotted(labels[1..])
  }

  predicate IsHostName(labels: seq<string>) {
    && 2 <= |labels| && (forall l :: l in labels ==> IsLabel(l)) && IsTop(labels[|labels| - 1])
    && !SameUpToCase(Dotted(labels), "localhost.localdomain")
  }

  /** A dotted name of two labels or more, the last of which is a top label; the loopback's own name is none. */
  ghost predicate NamesHost(s: string) {
    exists labels :: IsHostName(labels) && s == Dotted(labels)
  }

  lemma SplitUnfolds(head: string, rest: string)
    requires '.' !in head
    ensures Split(head + "." + rest, '.') == [head] + Split(rest, '.')
  {
    var s := head + "." + rest;
    assert s == head + ['.'] + rest;
    FirstOccurrence(head, '.', rest);
    assert s[|head| + 1..] == rest && s[..|head|] == head;
  }

  lemma {:induction false} SplitOfDotted(labels: seq<string>)
    requires labels != [] && forall l :: l in labels ==> '.' !in l
    ensures Split(Dotted(labels), '.') == labels
  {
    hide Split, FindChar;
    assert labels[0] in labels;
    if |labels| == 1 {
      NoSplit(labels[0]);
      assert labels == [labels[0]];
    } else {
      assert forall l :: l in labels[1..] ==> l in labels;
      SplitOfDotted(labels[1..]);
      SplitUnfolds(labels[0], Dotted(labels[1..]));
      assert labels == [labels[0]] + labels[1..];
    }
  }

  lemma NoSplit(s: string)
    requires '.' !in s
    ensures Split(s, '.') == [s]
  {
  }

  lemma FirstOccurrence(k: string, c: char, s: string)
    requires c !in k
    ensures FindChar(k + [c] + s, c) == Some(|k|)
  {
    var t := k + [c] + s;
    assert t[|k|] == c && c in t;
    assert t[..|k|] == k;
  }

  lemma {:induction false} DottedOfSplit(s: string)
    ensures Dotted(Split(s, '.')) == s && forall l :: l in Split(s, '.') ==> '.' !in l && forall c :: c in l ==> c in s
    decreases |s|
  {
    var at := FindChar(s, '.');
    if at.Some? {
      var i := at.value;
      DottedOfSplit(s[i + 1..]);
      var rest := Split(s[i + 1..], '.');
      assert ([s[..i]] + rest)[1..] == rest;
      assert s == s[..i] + "." + s[i + 1..];
    }
  }

  lemma LabelsOfDotted(labels: seq<string>)
    requires labels != [] && forall l :: l in labels ==> IsLabel(l)
    ensures forall c :: c in Dotted(labels) ==> IsAlnum(c) || c == '.' || c == '-'
    ensures Dotted(labels) != ""
  {
    assert labels[0] in labels;
    if 1 < |labels| {
      assert forall l :: l in labels[1..] ==> l in labels;
      LabelsOfDotted(labels[1..]);
    }
  }

  lemma ReadableIs(s: string)
    ensures IsReadableHost(s) <==> SameUpToCase(s, "localhost") || SameUpToCase(s, "localhost.localdomain")
  {
    LowerForgetsCase(s, "localhost");
    LowerForgetsCase(s, "localhost.localdomain");
    LowerStays("localhost");
    LowerStays("localhost.localdomain");
  }

  lemma LowerStays(s: string)
    requires forall i :: 0 <= i < |s| ==> !('A' <= s[i] <= 'Z')
    ensures Lower(s) == s
  {
  }

  lemma TopIs(l: string)
    ensures IsTop(l) <==>
              var last := Lower(l);
              !AllDigits(last) && (forall c :: c in last ==> IsAlpha(c)) && 2 <= |last| <= 24 && last !in FILE_EXTENSIONS
  {
    var last := Lower(l);
    assert |last| == |l| && forall i :: 0 <= i < |l| ==> (IsAlpha(last[i]) <==> IsLetter(l[i]));
    if forall c :: c in last ==> IsAlpha(c) {
      forall c | c in l ensures IsLetter(c) {
        var i :| 0 <= i < |l| && l[i] == c;
        assert last[i] in last;
      }
      assert last != "" ==> last[0] in last && !IsDigit(last[0]);
    }
  }

  /** The loopback's short name has no dot, so no dotted name is it. */
  lemma DottedIsNotShort(labels: seq<string>)
    requires 2 <= |labels|
    ensures !SameUpToCase(Dotted(labels), "localhost")
  {
    var s := Dotted(labels);
    assert s[|labels[0]|] == '.';
    if SameUpToCase(s, "localhost") {
      LettersOnly(|labels[0]|);
      assert false;
    }
  }

  lemma LettersOnly(i: nat)
    requires i < |"localhost"|
    ensures 'a' <= "localhost"[i] <= 'z'
  {
  }

  lemma FqdnNamesHost(s: string)
    requires IsFqdn(s)
    ensures NamesHost(s)
  {
    hide IsTop, IsReadableHost, IsLabel, Lower, Split, Dotted;
    var parts := Split(s, '.');
    DottedOfSplit(s);
    ReadableIs(s);
    TopIs(parts[|parts| - 1]);
    forall l | l in parts ensures IsLabel(l) {
      PartIsLabel(s, l);
    }
    assert parts[|parts| - 1] in parts;
    assert IsHostName(parts);
  }

  lemma PartIsLabel(s: string, l: string)
    requires IsFqdn(s) && l in Split(s, '.')
    ensures IsLabel(l)
  {
    hide IsTop, IsReadableHost, Split, Lower;
    DottedOfSplit(s);
    assert l != "";
  }

  lemma HostNameIsFqdn(labels: seq<string>)
    requires IsHostName(labels)
    ensures IsFqdn(Dotted(labels))
  {
    hide IsTop, IsReadableHost, Dotted;
    var s := Dotted(labels);
    LabelsOfDotted(labels);
    SplitOfDotted(labels);
    TopIs(labels[|labels| - 1]);
    ReadableIs(s);
    DottedIsNotShort(labels);
    assert "" !in labels;
  }

  /** The host rule, exactly: which texts are taken for a host. */
  lemma FqdnIsHostName(s: string)
    ensures IsFqdn(s) <==> NamesHost(s)
  {
    hide IsFqdn, IsTop, IsLabel, Dotted;
    if IsFqdn(s) {
      FqdnNamesHost(s);
    }
    if NamesHost(s) {
      var labels :| IsHostName(labels) && s == Dotted(labels);
      HostNameIsFqdn(labels);
    }
  }

  // ---- names of files ------------------------------------------------------------------

  predicate IsDocument(e: string) {
    e in {"json", "jsonl", "txt", "log", "md", "csv", "tsv", "html", "xml"}
  }

  predicate IsSource(e: string) {
    e in {"py", "rs", "swift", "sh", "h", "c", "cpp", "hpp", "metal", "air"}
  }

  predicate IsSetting(e: string) {
    e in {"toml", "yaml", "yml", "lock", "cfg", "ini", "plist", "sb", "sha256"}
  }

  predicate IsWeights(e: string) {
    e in {"safetensors", "bin", "npz", "gguf", "npy", "png", "jpg", "svg", "mlpackage", "gputrace"}
  }

  predicate IsBuilt(e: string) {
    e in {"so", "dylib", "o", "a", "gz", "zip", "tar", "metallib", "framework"}
  }

  /** The extensions that keep a file's name readable. */
  predicate IsExtension(e: string) {
    IsDocument(e) || IsSource(e) || IsSetting(e) || IsWeights(e) || IsBuilt(e)
  }

  lemma DocumentIsListed(e: string)
    requires IsDocument(e)
    ensures e in FILE_EXTENSIONS && Lower(e) == e && '.' !in e
  {
    LowerStays(e);
  }

  lemma SourceIsListed(e: string)
    requires IsSource(e)
    ensures e in FILE_EXTENSIONS && Lower(e) == e && '.' !in e
  {
    LowerStays(e);
  }

  lemma SettingIsListed(e: string)
    requires IsSetting(e)
    ensures e in FILE_EXTENSIONS && Lower(e) == e && '.' !in e
  {
    LowerStays(e);
  }

  lemma WeightsIsListed(e: string)
    requires IsWeights(e)
    ensures e in FILE_EXTENSIONS && Lower(e) == e && '.' !in e
  {
    LowerStays(e);
  }

  lemma BuiltIsListed(e: string)
    requires IsBuilt(e)
    ensures e in FILE_EXTENSIONS && Lower(e) == e && '.' !in e
  {
    LowerStays(e);
  }

  lemma ExtensionIsListed(e: string)
    requires IsExtension(e)
    ensures e in FILE_EXTENSIONS && Lower(e) == e && '.' !in e
  {
    hide IsDocument, IsSource, IsSetting, IsWeights, IsBuilt, Lower;
    if IsDocument(e) {
      DocumentIsListed(e);
    } else if IsSource(e) {
      SourceIsListed(e);
    } else if IsSetting(e) {
      SettingIsListed(e);
    } else if IsWeights(e) {
      WeightsIsListed(e);
    } else {
      BuiltIsListed(e);
    }
  }

  /** A name with one of these extensions, in whatever case, is never taken for a host. */
  lemma FileNameIsNoHost(stem: string, e: string, extension: string)
    requires IsExtension(e) && SameUpToCase(extension, e)
    ensures !IsFqdn(stem + "." + extension)
  {
    hide IsExtension;
    ExtensionIsListed(e);
    LowerForgetsCase(extension, e);
    var s := stem + "." + extension;
    if IsFqdn(s) {
      NoDotIn(extension, e);
      LastOfSplit(stem, extension);
    }
  }

  lemma NoDotIn(extension: string, e: string)
    requires '.' !in e && SameUpToCase(extension, e)
    ensures '.' !in extension
  {
    forall i | 0 <= i < |extension| ensures extension[i] != '.' {
      assert SameLetter(extension[i], e[i]) && e[i] in e;
    }
  }

  /** The last label is what stands behind the last dot. */
  lemma {:induction false} LastOfSplit(stem: string, last: string)
    requires '.' !in last
    ensures var parts := Split(stem + "." + last, '.'); 2 <= |parts| && parts[|parts| - 1] == last
    decreases |stem|
  {
    var s := stem + "." + last;
    var at := FindChar(stem, '.');
    if at.None? {
      SplitUnfolds(stem, last);
      NoSplit(last);
    } else {
      var i := at.value;
      LastOfSplit(stem[i + 1..], last);
      assert s == stem[..i] + "." + (stem[i + 1..] + "." + last);
      SplitUnfolds(stem[..i], stem[i + 1..] + "." + last);
    }
  }

  // ---- keys ----------------------------------------------------------------------------

  /** Letters, numerals, `_`, `-` and `.`, with a letter among them. */
  predicate IsKey(key: string) {
    && (forall c :: c in key ==> IsLetter(c) || IsNumeral(c) || c == '_' || c == '-' || c == '.')
    && exists c :: c in key && IsLetter(c)
  }

  lemma KeyIs(key: string)
    ensures LooksLikeAssignmentKey(key) <==> IsKey(key)
  {
  }

  /** `sub` stands at `i`. */
  predicate StandsAt(s: string, i: nat, sub: string) {
    i + |sub| <= |s| && s[i..i + |sub|] == sub
  }

  /** `word` stands at `i`, in whatever case. */
  predicate SpelledAt(s: string, i: nat, word: string) {
    i + |word| <= |s| && SameUpToCase(s[i..i + |word|], word)
  }

  predicate Spells(s: string, word: string) {
    exists i: nat :: i <= |s| && SpelledAt(s, i, word)
  }

  lemma {:induction false} ContainsIs(s: string, sub: string)
    ensures Contains(s, sub) <==> exists i: nat :: StandsAt(s, i, sub)
  {
    hide StandsAt;
    if sub <= s {
      StandsInFront(s, sub);
    } else {
      if s != "" {
        ContainsIs(s[1..], sub);
        if i: nat :| StandsAt(s[1..], i, sub) {
          StandsOneOn(s, i, sub);
        }
      }
      if i: nat :| StandsAt(s, i, sub) {
        StandsBehind(s, i, sub);
      }
    }
  }

  lemma StandsInFront(s: string, sub: string)
    requires sub <= s
    ensures StandsAt(s, 0, sub)
  {
  }

  lemma StandsOneOn(s: string, i: nat, sub: string)
    requires s != "" && StandsAt(s[1..], i, sub)
    ensures StandsAt(s, i + 1, sub)
  {
    assert s[i + 1..i + 1 + |sub|] == s[1..][i..i + |sub|];
  }

  lemma StandsBehind(s: string, i: nat, sub: string)
    requires StandsAt(s, i, sub) && !(sub <= s)
    ensures s != "" && 0 < i && StandsAt(s[1..], i - 1, sub)
  {
    assert s[0..0 + |sub|] == s[..|sub|];
    assert s[1..][i - 1..i - 1 + |sub|] == s[i..i + |sub|];
  }

  predicate AllCapitals(word: string) {
    forall i :: 0 <= i < |word| ==> 'A' <= word[i] <= 'Z'
  }

  lemma UpperIs(s: string, word: string)
    requires AllCapitals(word)
    ensures Upper(s) == word <==> SameUpToCase(s, word)
  {
    if Upper(s) == word {
      forall i | 0 <= i < |s| ensures SameLetter(s[i], word[i]) {
        assert Upper(s)[i] == word[i];
      }
    }
  }

  lemma UpperContains(s: string, word: string)
    requires AllCapitals(word)
    ensures Contains(Upper(s), word) <==> Spells(s, word)
  {
    hide Contains, SameUpToCase, AllCapitals;
    ContainsIs(Upper(s), word);
    forall i: nat ensures StandsAt(Upper(s), i, word) <==> SpelledAt(s, i, word) {
      if i + |word| <= |s| {
        assert Upper(s)[i..i + |word|] == Upper(s[i..i + |word|]);
        UpperIs(s[i..i + |word|], word);
      }
    }
  }

  /** The words that make a key a credential. */
  predicate IsMarker(word: string) {
    IsSecretWord(word) || IsAddressWord(word) || IsPersonWord(word)
  }

  predicate IsSecretWord(word: string) {
    word in {"SECRET", "PASSWORD", "PASSWD", "TOKEN", "CREDENTIAL", "AUTH", "BEARER", "SIGNATURE"}
  }

  predicate IsAddressWord(word: string) {
    word in {"SESSION", "COOKIE", "PRIVATE", "ENDPOINT", "URL", "URI", "HOST", "KEY"}
  }

  predicate IsPersonWord(word: string) {
    word in {"HOME", "USER", "LOGNAME", "ACCOUNT", "EMAIL", "PATH", "DIR"}
  }

  lemma MarkersAre(word: string)
    ensures word in CREDENTIAL_KEY_MARKERS <==> IsMarker(word)
  {
  }

  lemma SecretWordsAreCapitals(word: string)
    requires IsSecretWord(word)
    ensures AllCapitals(word)
  {
  }

  lemma AddressWordsAreCapitals(word: string)
    requires IsAddressWord(word)
    ensures AllCapitals(word)
  {
  }

  lemma PersonWordsAreCapitals(word: string)
    requires IsPersonWord(word)
    ensures AllCapitals(word)
  {
  }

  lemma MarkersAreCapitals(word: string)
    requires IsMarker(word)
    ensures AllCapitals(word)
  {
    hide AllCapitals, IsSecretWord, IsAddressWord, IsPersonWord;
    if IsSecretWord(word) {
      SecretWordsAreCapitals(word);
    } else if IsAddressWord(word) {
      AddressWordsAreCapitals(word);
    } else {
      PersonWordsAreCapitals(word);
    }
  }

  /** The credential rule, exactly: the key spells one of the words in it, in whatever case. */
  lemma CredentialIs(key: string)
    ensures IsCredentialKey(key) <==> exists word :: IsMarker(word) && Spells(key, word)
  {
    hide Spells, Contains, IsMarker, AllCapitals;
    forall word | IsMarker(word) ensures Contains(Upper(key), word) <==> Spells(key, word) {
      MarkersAreCapitals(word);
      UpperContains(key, word);
    }
    forall word ensures word in CREDENTIAL_KEY_MARKERS <==> IsMarker(word) {
      MarkersAre(word);
    }
  }
}
