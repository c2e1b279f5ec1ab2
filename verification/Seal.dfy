/** What clipping leaves of the scrub's guarantee, for every reason (bench-runner, scrub.rs). */
module Seal {
  import opened Wrappers
  import opened Text
  import opened Scrub
  import opened ScrubSafety
  import opened ScrubSecrets
  import opened ScrubKeeps
  import opened ScrubFixed
  import opened Utf8
  import opened SealCut

  // ---- components of cut text ---------------------------------------------------------------

  lemma FindCharAhead(a: string, c: char, b: string)
    requires c in a
    ensures FindChar(a + b, c) == FindChar(a, c)
  {
    hide FindChar;
    var i := FindChar(a, c).value;
    assert a == a[..i] + [c] + a[i + 1..];
    FirstChar(a[..i], c, a[i + 1..] + b);
    assert a + b == a[..i] + [c] + (a[i + 1..] + b);
  }

  /** Components on either side of a slash are apart. */
  lemma {:induction false} ComponentsAcross(a: string, b: string)
    ensures Components(a + ['/'] + b, '/') == Components(a, '/') + Components(b, '/')
    decreases |a|
  {
    hide FindChar;
    var t := a + ['/'] + b;
    var at := FindChar(a, '/');
    if at.None? {
      FirstChar(a, '/', b);
      assert t[..|a|] == a && t[|a| + 1..] == b;
    } else {
      var i := at.value;
      assert t == a + (['/'] + b);
      FindCharAhead(a, '/', ['/'] + b);
      assert t[..i] == a[..i] && t[i + 1..] == a[i + 1..] + ['/'] + b;
      ComponentsAcross(a[i + 1..], b);
    }
  }

  lemma NoSlashComponents(r: string)
    requires '/' !in r
    ensures |Components(r, '/')| == if r == "" then 0 else 1
  {
  }

  /** The part up to the first slash, and what stands behind it. */
  lemma UpToFirstSlash(r: string, e: string, i: nat)
    requires FindChar(r, '/') == Some(i) && i < |r|
    ensures Components(r, '/') == (if i == 0 then [] else [r[..i]]) + Components(r[i + 1..], '/')
    ensures Components(r + e, '/') == (if i == 0 then [] else [r[..i]]) + Components(r[i + 1..] + e, '/')
  {
    hide FindChar;
    assert '/' in r;
    FindCharAhead(r, '/', e);
    assert (r + e)[..i] == r[..i] && (r + e)[i + 1..] == r[i + 1..] + e;
  }

  /** Text behind the last slash counts as one component. */
  lemma {:induction false} TailMerges(r: string, e: string)
    requires e != "" && '/' !in e
    ensures |Components(r + e, '/')| == |Components(r, '/')| + if r == "" || r[|r| - 1] == '/' then 1 else 0
    decreases |r|
  {
    hide FindChar, Components;
    var at := FindChar(r, '/');
    if at.None? {
      NoSlashComponents(r);
      NoSlashComponents(r + e);
      assert r != "" ==> r[|r| - 1] in r;
    } else {
      var i := at.value;
      UpToFirstSlash(r, e, i);
      TailMerges(r[i + 1..], e);
      assert r[i + 1..] != "" ==> r[i + 1..][|r[i + 1..]| - 1] == r[|r| - 1];
    }
  }

  lemma {:induction false} PrefixComponents(r: string, w: string)
    ensures |Components(r, '/')| <= |Components(r + w, '/')|
    decreases |r|
  {
    hide FindChar, Components;
    var at := FindChar(r, '/');
    if at.None? {
      NoSlashComponents(r);
      if r != "" {
        AtLeastOne(r, w);
      }
    } else {
      UpToFirstSlash(r, w, at.value);
      PrefixComponents(r[at.value + 1..], w);
    }
  }

  lemma AtLeastOne(r: string, w: string)
    requires r != "" && r[0] != '/'
    ensures 1 <= |Components(r + w, '/')|
  {
    hide FindChar;
    var at := FindChar(r + w, '/');
    assert (r + w)[0] == r[0];
  }

  lemma {:induction false} SuffixComponents(x: string, s: string)
    ensures |Components(s, '/')| <= |Components(x + s, '/')|
    decreases |x|
  {
    hide FindChar, Components;
    var at := FindChar(x, '/');
    if at.Some? {
      UpToFirstSlash(x, s, at.value);
      SuffixComponents(x[at.value + 1..], s);
    } else if x == "" {
      assert x + s == s;
    } else if s != "" && s[0] == '/' {
      LeadingSlash(s);
      ComponentsAcross(x, s[1..]);
      assert x + ['/'] + s[1..] == x + s;
    } else {
      HeadMerges(x, s);
      NoSlashComponents("");
    }
  }

  lemma LeadingSlash(s: string)
    requires s != "" && s[0] == '/'
    ensures Components(s, '/') == Components(s[1..], '/')
  {
    assert "" + ['/'] + s[1..] == s;
    ComponentsAcross("", s[1..]);
  }

  // ---- the fragments a cut goes through -----------------------------------------------------

  /** Two components and a slash behind them: with the marker as a third, the shape of a path. */
  predicate Dangling(r: string) {
    r != "" && r[|r| - 1] == '/' && |Components(r, '/')| == 2
  }

  lemma DotsAreNoFqdn(f: string)
    requires DOTS in f
    ensures !IsFqdn(f)
  {
  }

  /** A marker behind a text takes the place of its port. */
  lemma DotsEndNoHost(x: string)
    ensures ScrubHostLike(x + [DOTS]).None?
  {
    hide IsFqdn;
    var f := x + [DOTS];
    assert f[|x|] == DOTS;
    DotsAreNoFqdn(f);
    var colon := FindLast(f, ':');
    if colon.Some? {
      var port := f[colon.value + 1..];
      assert port[|x| - (colon.value + 1)] == DOTS && DOTS in port;
    }
  }

  /** A marker in front of a text belongs to its host. */
  lemma DotsOpenNoHost(x: string)
    ensures ScrubHostLike([DOTS] + x).None?
  {
    hide IsFqdn;
    var f := [DOTS] + x;
    assert f[0] == DOTS;
    DotsAreNoFqdn(f);
    var colon := FindLast(f, ':');
    if colon.Some? {
      assert f[..colon.value][0] == DOTS;
      DotsAreNoFqdn(f[..colon.value]);
    }
  }

  lemma DotsStopTrimming(x: string)
    ensures TrimEnd(x + [DOTS], IsQuote) == x + [DOTS]
  {
  }

  /** Before the marker, a fragment keeps what its quotes opened with. */
  lemma StripBeforeDots(p: string) returns (quotes: string)
    ensures AllIn(quotes, IsQuote) && StripQuotes(p + [DOTS]) == StripQuotes(p) + (quotes + [DOTS])
  {
    hide TrimStart, TrimEnd;
    var bare := TrimStart(p, IsQuote);
    TrimStartCuts(p, IsQuote);
    TrimEndCuts(bare, IsQuote);
    quotes := bare[|StripQuotes(p)|..];
    DotsStopTrimming(bare);
    Associate(StripQuotes(p), quotes, [DOTS]);
    if bare == "" {
      assert p[..|p|] == p;
      TrimStartSkips(p, [DOTS], IsQuote);
      TrimStartStopsAt([DOTS], IsQuote);
      assert bare + [DOTS] == [DOTS];
    } else {
      TrimStartStops(p, [DOTS], IsQuote);
    }
  }

  /** Stripped, a prefix of a fragment is a prefix of the stripped fragment. */
  lemma StripOfPrefix(p: string, w: string) returns (rest: string)
    requires StripQuotes(p) != ""
    ensures StripQuotes(p + w) == StripQuotes(p) + rest
  {
    var bare := TrimStart(p, IsQuote);
    TrimStartStops(p, w, IsQuote);
    TrimEndCuts(bare, IsQuote);
    var r := StripQuotes(p);
    var behind := bare[|r|..] + w;
    assert bare + w == r + behind;
    TrimEndStops(r, behind, IsQuote);
    rest := TrimEnd(behind, IsQuote);
  }

  /** No navigation sign opens a text that goes on as one that has none. */
  lemma SameOpening(r: string, e: string, w: string)
    requires '/' in r && !IsPathLike(r + w)
    ensures !StartsWith(r + e, "/") && !StartsWith(r + e, "~") && !StartsWith(r + e, "./") && !StartsWith(r + e, "../")
    ensures |Components(r + w, '/')| <= 2
  {
    hide Components;
    assert '/' in r + w;
    var f, q := r + e, r + w;
    assert f[0] == r[0] == q[0];
    if StartsWith(f, "./") {
      OpeningFits(r, e, w, "./");
    }
    if StartsWith(f, "../") {
      OpeningFits(r, e, w, "../");
    }
  }

  lemma OpeningFits(r: string, e: string, w: string, sign: string)
    requires '/' in r && sign != "" && '/' !in sign[..|sign| - 1] && sign <= r + e
    ensures sign <= r + w
  {
    if |r| < |sign| {
      WithinSign(r, e, sign);
    } else {
      assert (r + w)[..|sign|] == r[..|sign|] == (r + e)[..|sign|];
    }
  }

  lemma WithinSign(r: string, e: string, sign: string)
    requires |r| < |sign| && sign <= r + e
    ensures forall c :: c in r ==> c in sign[..|sign| - 1]
  {
    var lead := sign[..|sign| - 1];
    assert forall k :: 0 <= k < |r| ==> lead[k] == r[k];
  }

  lemma HeadFragment(p: string, w: string)
    requires !IsPathLike(StripQuotes(p + w))
    ensures ScrubHostLike(StripQuotes(p + [DOTS])).None?
    ensures IsPathLike(StripQuotes(p + [DOTS])) <==> Dangling(StripQuotes(p))
  {
    hide StripQuotes, Components, ScrubHostLike;
    var quotes := StripBeforeDots(p);
    var r, e := StripQuotes(p), quotes + [DOTS];
    assert '/' !in e && r + e == r + quotes + [DOTS];
    DotsEndNoHost(r + quotes);
    if '/' in r {
      var rest := StripOfPrefix(p, w);
      SameOpening(r, e, rest);
      TailMerges(r, e);
      PrefixComponents(r, rest);
    } else {
      assert r != "" ==> r[|r| - 1] in r;
    }
  }

  lemma OneLetter(c: char)
    requires c != '/'
    ensures |Components([c], '/')| == 1
  {
    assert '/' !in [c];
  }

  lemma NoComponents()
    ensures Components("", '/') == []
  {
  }

  lemma {:induction false} TrimEndKeepsLead(x: string, s: string, p: char -> bool)
    requires TrimEnd(s, p) != ""
    ensures TrimEnd(x + s, p) == x + TrimEnd(s, p)
  {
    if p(s[|s| - 1]) {
      assert (x + s)[..|x + s| - 1] == x + s[..|s| - 1];
      TrimEndKeepsLead(x, s[..|s| - 1], p);
    }
  }

  /** What stands behind the marker has at most the components its fragment had. */
  lemma TailFragment(x: string, s: string)
    requires !IsPathLike(StripQuotes(x + s))
    ensures ScrubHostLike(StripQuotes([DOTS] + s)).None? && !IsPathLike(StripQuotes([DOTS] + s))
  {
    hide ScrubHostLike, Components;
    var end := TrimEnd(s, IsQuote);
    TrimKeepsPrefix([DOTS], s, IsQuote);
    assert StripQuotes([DOTS] + s) == [DOTS] + end;
    DotsOpenNoHost(end);
    if '/' in end {
      FewBehindDots(x, s);
      assert ([DOTS] + end)[0] == DOTS;
    }
  }

  lemma FewBehindDots(x: string, s: string)
    requires !IsPathLike(StripQuotes(x + s)) && '/' in TrimEnd(s, IsQuote)
    ensures |Components([DOTS] + TrimEnd(s, IsQuote), '/')| <= 2
  {
    hide Components, IsPathLike;
    var end := TrimEnd(s, IsQuote);
    TrimStartCuts(x, IsQuote);
    if TrimStart(x, IsQuote) == "" {
      assert x[..|x|] == x;
      TrimStartSkips(x, s, IsQuote);
      var lead := TrimEndSplits(s, IsQuote);
      QuotesThenInner(lead, StripQuotes(s));
    } else {
      TrimStartStops(x, s, IsQuote);
      TrimEndKeepsLead(TrimStart(x, IsQuote), s, IsQuote);
      BehindText(TrimStart(x, IsQuote), end);
    }
  }

  lemma NoPathMeans(u: string)
    requires '/' in u && !IsPathLike(u)
    ensures u[0] != '/' && |Components(u, '/')| <= 2
  {
  }

  /** Only quotes were cut off in front. */
  lemma QuotesThenInner(lead: string, u: string)
    requires AllIn(lead, IsQuote) && '/' in lead + u && !IsPathLike(u)
    ensures |Components([DOTS] + (lead + u), '/')| <= 2
  {
    hide Components, IsPathLike;
    assert '/' !in lead && '/' in u;
    NoPathMeans(u);
    assert [DOTS] + (lead + u) == [DOTS] + lead + u;
    HeadMerges([DOTS] + lead, u);
  }

  /** Text that does not open with a slash was cut off in front. */
  lemma BehindText(x: string, end: string)
    requires x != "" && '/' in end && !IsPathLike(x + end)
    ensures |Components([DOTS] + end, '/')| <= 2
  {
    hide Components, IsPathLike;
    NoPathMeans(x + end);
    if end[0] == '/' {
      assert x + end == x + ['/'] + end[1..] && [DOTS] + end == [DOTS] + ['/'] + end[1..];
      ComponentsAcross(x, end[1..]);
      ComponentsAcross([DOTS], end[1..]);
      AtLeastOne(x, "");
      assert x + "" == x;
      OneLetter(DOTS);
    } else {
      HeadMerges([DOTS], end);
      SuffixComponents(x, end);
    }
  }

  // ---- the clipped text ----------------------------------------------------------------------

  /** The fragment of `s` that starts at `lo` and reaches at least to `h`. */
  lemma FragmentReaches(s: string, lo: nat, h: nat) returns (hi: nat)
    requires lo <= h <= |s| && (forall k :: lo <= k < h ==> !IsBreak(s[k])) && (lo == 0 || IsBreak(s[lo - 1]))
    ensures h <= hi <= |s| && IsFragment(s, lo, hi)
    decreases |s| - h
  {
    if h == |s| || IsBreak(s[h]) {
      hi := h;
    } else {
      hi := FragmentReaches(s, lo, h + 1);
    }
  }

  /** The fragment of `s` that ends at `hi` and reaches back at least to `t`. */
  lemma FragmentReachesBack(s: string, t: nat, hi: nat) returns (lo: nat)
    requires t <= hi <= |s| && (forall k :: t <= k < hi ==> !IsBreak(s[k])) && (hi == |s| || IsBreak(s[hi]))
    ensures lo <= t && IsFragment(s, lo, hi)
    decreases t
  {
    if t == 0 || IsBreak(s[t - 1]) {
      lo := t;
    } else {
      lo := FragmentReachesBack(s, t - 1, hi);
    }
  }

  lemma ClippedAt(s: string, h: nat, t: nat)
    requires h <= t <= |s|
    ensures var out := Clipped(s, h, t);
            && |out| == h + 11 + (|s| - t)
            && (forall k :: 0 <= k < h ==> out[k] == s[k])
            && out[h] == DOTS && out[h + 1] == '[' && out[h + 9] == ']' && out[h + 10] == DOTS
            && (forall k :: h + 2 <= k < h + 9 ==> 'a' <= out[k] <= 'z')
            && (forall k :: h + 11 <= k < |out| ==> out[k] == s[t + (k - h - 11)])
            && (forall k :: t <= k < |s| ==> s[k] == out[h + 11 + (k - t)])
  {
    assert |CUT| == 11;
    assert CUT[0] == DOTS && CUT[1] == '[' && CUT[9] == ']' && CUT[10] == DOTS;
    assert forall k :: 2 <= k < 9 ==> CUT[k] == "[clipped]"[k - 1];
    var out := Clipped(s, h, t);
    assert forall k :: 0 <= k < 11 ==> out[h + k] == CUT[k];
  }

  /** `out[lo..hi]` is what a cut behind two components and their slash leaves: the marker reads as a third. */
  predicate CutBehindSlash(out: string, h: nat, lo: nat, hi: nat) {
    lo <= h < |out| && hi == h + 1 && Dangling(StripQuotes(out[lo..h]))
  }

  lemma FragmentOfHead(s: string, h: nat, t: nat, lo: nat, hi: nat)
    requires h <= t <= |s| && FragmentsClean(s) && IsFragment(Clipped(s, h, t), lo, hi) && hi <= h + 1
    ensures var out := Clipped(s, h, t);
            ScrubHostLike(StripQuotes(out[lo..hi])).None?
            && (IsPathLike(StripQuotes(out[lo..hi])) <==> CutBehindSlash(out, h, lo, hi))
  {
    hide StripQuotes, ScrubHostLike, IsPathLike, Dangling, Clipped, FragmentsClean;
    var out := Clipped(s, h, t);
    ClippedAt(s, h, t);
    assert lo <= h;
    if hi <= h {
      assert out[lo..hi] == s[lo..hi];
      CleanFragment(s, lo, hi);
    } else {
      var end := FragmentReaches(s, lo, h);
      CleanFragment(s, lo, end);
      assert s[lo..end] == s[lo..h] + s[h..end];
      assert out[lo..h] == s[lo..h] && out[lo..hi] == s[lo..h] + [DOTS];
      HeadFragment(s[lo..h], s[h..end]);
    }
  }

  /** Behind the marker the clipped text is the tail, character for character. */
  lemma SliceOfTail(s: string, h: nat, t: nat, lo: nat, hi: nat)
    requires h <= t <= |s| && h + 11 <= lo <= hi <= h + 11 + (|s| - t)
    ensures hi <= |Clipped(s, h, t)| && Clipped(s, h, t)[lo..hi] == s[t + (lo - h - 11)..t + (hi - h - 11)]
  {
    assert |CUT| == 11;
    SliceOnRight(s[..h] + CUT, s[t..], lo, hi);
    SliceOfSuffix(s, t, lo - h - 11, hi - h - 11);
  }

  lemma SliceOfSuffix(s: string, t: nat, lo: nat, hi: nat)
    requires t <= |s| && lo <= hi <= |s| - t
    ensures s[t..][lo..hi] == s[t + lo..t + hi]
  {
  }

  lemma OneMoreInFront(out: string, lo: nat, hi: nat)
    requires lo < hi <= |out|
    ensures out[lo..hi] == [out[lo]] + out[lo + 1..hi]
  {
  }

  lemma FragmentOfTail(s: string, h: nat, t: nat, lo: nat, hi: nat)
    requires h <= t <= |s| && FragmentsClean(s) && IsFragment(Clipped(s, h, t), lo, hi) && h + 10 <= lo
    ensures var out := Clipped(s, h, t);
            ScrubHostLike(StripQuotes(out[lo..hi])).None? && !IsPathLike(StripQuotes(out[lo..hi]))
  {
    hide StripQuotes, ScrubHostLike, IsPathLike, Clipped, Sealed;
    ClippedAt(s, h, t);
    if lo == h + 10 {
      FragmentBehindDots(s, h, t, hi);
    } else {
      FragmentBehindMarker(s, h, t, lo, hi);
    }
  }

  lemma FragmentBehindDots(s: string, h: nat, t: nat, hi: nat)
    requires h <= t <= |s| && FragmentsClean(s) && IsFragment(Clipped(s, h, t), h + 10, hi)
    ensures var f := Clipped(s, h, t)[h + 10..hi]; ScrubHostLike(StripQuotes(f)).None? && !IsPathLike(StripQuotes(f))
  {
    hide StripQuotes, ScrubHostLike, IsPathLike, Clipped, Sealed, FragmentsClean;
    var out, n := Clipped(s, h, t), h + 11;
    ClippedAt(s, h, t);
    assert n <= hi;
    var end := t + (hi - n);
    var start := FragmentReachesBack(s, t, end);
    CleanFragment(s, start, end);
    assert s[start..end] == s[start..t] + s[t..end];
    OneMoreInFront(out, h + 10, hi);
    SliceOfTail(s, h, t, n, hi);
    TailFragment(s[start..t], s[t..end]);
  }

  lemma CleanFragment(s: string, lo: nat, hi: nat)
    requires FragmentsClean(s) && IsFragment(s, lo, hi)
    ensures !IsPathLike(StripQuotes(s[lo..hi])) && ScrubHostLike(StripQuotes(s[lo..hi])).None?
  {
    hide StripQuotes, ScrubHostLike, IsPathLike, Sealed;
    assert Clean(s[lo..hi]);
    assert ShapeFree(s[lo..hi]);
  }

  lemma MarkerBreaks()
    ensures !IsBreak(DOTS) && IsBreak('[') && IsBreak(']')
  {
  }

  lemma TailIsFragment(s: string, h: nat, t: nat, lo: nat, hi: nat)
    requires h <= t <= |s| && IsFragment(Clipped(s, h, t), lo, hi) && h + 10 < lo
    ensures h + 11 < lo <= hi <= h + 11 + (|s| - t) && IsFragment(s, t + (lo - h - 11), t + (hi - h - 11))
  {
    hide Clipped, IsBreak;
    MarkerBreaks();
    ClippedAt(s, h, t);
  }

  lemma FragmentBehindMarker(s: string, h: nat, t: nat, lo: nat, hi: nat)
    requires h <= t <= |s| && FragmentsClean(s) && IsFragment(Clipped(s, h, t), lo, hi) && h + 10 < lo
    ensures var f := Clipped(s, h, t)[lo..hi]; ScrubHostLike(StripQuotes(f)).None? && !IsPathLike(StripQuotes(f))
  {
    hide StripQuotes, ScrubHostLike, IsPathLike, Clipped, FragmentsClean, IsFragment;
    TailIsFragment(s, h, t, lo, hi);
    SliceOfTail(s, h, t, lo, hi);
    CleanFragment(s, t + (lo - h - 11), t + (hi - h - 11));
  }

  lemma WordIsNeither(word: string)
    requires forall c :: c in word ==> 'a' <= c <= 'z'
    ensures ScrubHostLike(StripQuotes(word)).None? && !IsPathLike(StripQuotes(word))
  {
    hide IsFqdn;
    assert word != "" ==> word[0] in word && word[|word| - 1] in word;
    TrimmedIsItself(word);
    NoDotNoFqdn(word);
    NoLast(word, ':');
  }

  lemma FragmentOfMarker(s: string, h: nat, t: nat, lo: nat, hi: nat)
    requires h <= t <= |s| && IsFragment(Clipped(s, h, t), lo, hi) && h + 1 < hi && lo < h + 10
    ensures var out := Clipped(s, h, t);
            ScrubHostLike(StripQuotes(out[lo..hi])).None? && !IsPathLike(StripQuotes(out[lo..hi]))
  {
    hide StripQuotes, ScrubHostLike, IsPathLike, Clipped;
    var out := Clipped(s, h, t);
    ClippedAt(s, h, t);
    assert h + 2 <= lo <= hi <= h + 9;
    WordIsNeither(out[lo..hi]);
  }

  lemma ClippedNoUrl(s: string, h: nat, t: nat)
    requires h <= t <= |s| && NoUrl(s)
    ensures NoUrl(Clipped(s, h, t))
  {
    hide NoUrl;
    assert s == s[..h] + s[h..] && s == s[..t] + s[t..];
    PartsNoUrl(s[..h], s[h..]);
    PartsNoUrl(s[..t], s[t..]);
    NoSlashNoUrl(CUT);
    JoinNoUrl(s[..h], CUT);
    JoinNoUrl(s[..h] + CUT, s[t..]);
  }

  lemma PartsNoUrl(a: string, b: string)
    requires NoUrl(a + b)
    ensures NoUrl(a) && NoUrl(b)
  {
    forall i: nat | i < |a| ensures !UrlAt(a, i) {
      assert !UrlAt(a + b, i);
    }
    forall i: nat | i < |b| ensures !UrlAt(b, i) {
      assert !UrlAt(a + b, |a| + i);
    }
  }

  lemma ClippedPrintable(s: string, h: nat, t: nat)
    requires h <= t <= |s| && Printable(s)
    ensures Printable(Clipped(s, h, t))
  {
  }

  /** Cut anywhere: no host, and no path but the fragment the marker cuts short behind two components and a slash. */
  lemma ClippedFragment(s: string, h: nat, t: nat, lo: nat, hi: nat)
    requires h <= t <= |s| && FragmentsClean(s) && IsFragment(Clipped(s, h, t), lo, hi)
    ensures var out := Clipped(s, h, t);
            ScrubHostLike(StripQuotes(out[lo..hi])).None?
            && (IsPathLike(StripQuotes(out[lo..hi])) <==> CutBehindSlash(out, h, lo, hi))
  {
    hide ScrubHostLike, IsPathLike, StripQuotes, FragmentsClean, Clipped, Dangling;
    if hi <= h + 1 {
      FragmentOfHead(s, h, t, lo, hi);
    } else if h + 10 <= lo {
      FragmentOfTail(s, h, t, lo, hi);
    } else {
      FragmentOfMarker(s, h, t, lo, hi);
    }
  }

  // ---- the sealed reason -----------------------------------------------------------------------

  /** Where the run of characters between breaks starts that reaches up to `h`. */
  function RunStart(s: string, h: nat): (lo: nat)
    requires h <= |s|
    ensures lo <= h && (forall k :: lo <= k < h ==> !IsBreak(s[k])) && (lo == 0 || IsBreak(s[lo - 1]))
  {
    if h == 0 || IsBreak(s[h - 1]) then h else RunStart(s, h - 1)
  }

  /** What the head of an over-long text keeps of the fragment it is cut in. */
  function CutShort(s: string): string {
    s[RunStart(s, HeadCut(s))..HeadCut(s)]
  }

  /** Some fragment reads as a path. */
  ghost predicate HoldsPath(out: string) {
    exists lo: nat, hi: nat :: IsFragment(out, lo, hi) && IsPathLike(StripQuotes(out[lo..hi]))
  }

  /** The condition on a scrubbed text: too long, and cut behind two components and their slash. */
  predicate CutMakesPath(s: string) {
    SEALED_REASON_BYTE_LIMIT < Width(s) && Dangling(StripQuotes(CutShort(s)))
  }

  lemma {:induction false} RunStartIsUnique(s: string, h: nat, lo: nat)
    requires lo <= h <= |s| && (forall k :: lo <= k < h ==> !IsBreak(s[k])) && (lo == 0 || IsBreak(s[lo - 1]))
    ensures lo == RunStart(s, h)
    decreases h
  {
    if 0 < h && !IsBreak(s[h - 1]) {
      RunStartIsUnique(s, h - 1, lo);
    }
  }

  lemma ClippedHoldsPath(s: string, h: nat, t: nat)
    requires h <= t <= |s| && FragmentsClean(s)
    ensures HoldsPath(Clipped(s, h, t)) <==> Dangling(StripQuotes(s[RunStart(s, h)..h]))
  {
    hide IsPathLike, StripQuotes, FragmentsClean, Clipped, Dangling, ScrubHostLike;
    var out, start := Clipped(s, h, t), RunStart(s, h);
    ClippedAt(s, h, t);
    assert out[start..h] == s[start..h];
    if HoldsPath(out) {
      var lo: nat, hi: nat :| IsFragment(out, lo, hi) && IsPathLike(StripQuotes(out[lo..hi]));
      ClippedFragment(s, h, t, lo, hi);
      RunStartIsUnique(s, h, lo);
    }
    if Dangling(StripQuotes(s[start..h])) {
      assert IsFragment(out, start, h + 1);
      ClippedFragment(s, h, t, start, h + 1);
    }
  }

  lemma CleanHoldsNoPath(s: string)
    requires FragmentsClean(s)
    ensures !HoldsPath(s)
    ensures forall lo: nat, hi: nat :: IsFragment(s, lo, hi) ==> ScrubHostLike(StripQuotes(s[lo..hi])).None?
  {
    hide IsPathLike, StripQuotes, FragmentsClean, ScrubHostLike;
    forall lo: nat, hi: nat | IsFragment(s, lo, hi)
      ensures !IsPathLike(StripQuotes(s[lo..hi])) && ScrubHostLike(StripQuotes(s[lo..hi])).None?
    {
      CleanFragment(s, lo, hi);
    }
  }

  lemma SealedTextIsSafe(s: string)
    requires FragmentsClean(s) && NoUrl(s) && Printable(s)
    ensures NoUrl(SealedText(s)) && Printable(SealedText(s))
    ensures forall lo: nat, hi: nat :: IsFragment(SealedText(s), lo, hi) ==>
              ScrubHostLike(StripQuotes(SealedText(s)[lo..hi])).None?
    ensures HoldsPath(SealedText(s)) <==> CutMakesPath(s)
  {
    hide IsPathLike, StripQuotes, FragmentsClean, ScrubHostLike, NoUrl, Printable, Clipped, Dangling, HoldsPath, Width,
         HeadCut, TailCut, RunStart;
    CleanHoldsNoPath(s);
    if SEALED_REASON_BYTE_LIMIT < Width(s) {
      HeadBeforeTail(s);
      var h, t := HeadCut(s), TailCut(s);
      ClippedNoUrl(s, h, t);
      ClippedPrintable(s, h, t);
      ClippedHoldsPath(s, h, t);
      forall lo: nat, hi: nat | IsFragment(Clipped(s, h, t), lo, hi)
        ensures ScrubHostLike(StripQuotes(Clipped(s, h, t)[lo..hi])).None?
      {
        ClippedFragment(s, h, t, lo, hi);
      }
    }
  }

  /**
   For every reason: what is sealed holds no `://`, no control character and no host, with a port or without. A
   fragment of it reads as a path if and only if the scrubbed reason is over 2048 bytes and its 1016 bytes of head end
   in two components and a slash.
   */
  lemma SealedReasonIsSafe(reason: string)
    ensures var s := ScrubRest(Controlled(reason)); var out := SealedText(s);
            && !Contains(out, "://")
            && Printable(out)
            && (forall lo: nat, hi: nat :: IsFragment(out, lo, hi) ==> ScrubHostLike(StripQuotes(out[lo..hi])).None?)
            && (HoldsPath(out) <==> CutMakesPath(s))
  {
    hide ScrubRest, Controlled, StripQuotes, FragmentsClean, ScrubHostLike, NoUrl, Printable, Contains, HoldsPath,
         CutMakesPath, SealedText;
    ControlledIsPrintable(reason);
    RestPrintable(Controlled(reason));
    RestClean(Controlled(reason));
    var s := ScrubRest(Controlled(reason));
    SealedTextIsSafe(s);
    NoUrlIffNotContained(SealedText(s));
  }

  // ---- a reason whose seal holds a path ------------------------------------------------------------

  /** Letters, digits and slashes that are no path yet, but for want of one more component. */
  predicate AlmostPath(u: string) {
    Dangling(u) && !IsPathLike(u) && forall c :: c in u ==> IsAlnum(c) || c == '/'
  }

  lemma AlmostPathMeans(u: string)
    requires AlmostPath(u)
    ensures u != "" && u[|u| - 1] == '/' && '/' in u && ':' !in u && '=' !in u && '@' !in u
    ensures OneToken(u) && !IsSeparator(u[0]) && Trimmed(u) && (forall c :: c in u ==> !IsBreak(c)) && !IsPathLike(u)
  {
    hide IsPathLike, Components;
    assert u[|u| - 1] in u && u[0] in u;
  }

  lemma AlmostPathStays(u: string)
    requires AlmostPath(u)
    ensures ScrubTokenSpec(u) == u && StripQuotes(u) == u
  {
    hide IsPathLike, IsFqdn, ScrubCore, ScrubPiece, AlmostPath, Trimmed;
    AlmostPathMeans(u);
    TrimmedIsItself(u);
    UnwrappedUnfolds(u);
    TrimmedCore(u);
    AlmostPathBare(u);
    PieceIsItsCore(u);
  }

  lemma PieceIsItsCore(piece: string)
    requires piece != ""
    ensures ScrubPiece(piece) == ScrubCore(piece)
  {
  }

  lemma AlmostPathBare(u: string)
    requires AlmostPath(u)
    ensures ScrubBare(u) == u
  {
    hide IsPathLike, AlmostPath, IsFqdn, Contains;
    AlmostPathMeans(u);
    NoSlashNoUrl(u);
    NoUrlIffNotContained(u);
    NoLast(u, ':');
    SlashIsNoFqdn(u);
  }

  lemma SlashIsNoFqdn(u: string)
    requires '/' in u
    ensures !IsFqdn(u)
  {
  }

  lemma AlmostPathLine(gap: string, u: string, after: string)
    requires AllIn(gap, IsSeparator) && AlmostPath(u) && IsProse(after) && OpensWithSeparator(after)
    ensures ScrubRest(gap + (u + after)) == gap + (u + after)
  {
    hide ScrubRest, CredentialSlot, ScrubTokenSpec, AlmostPath, IsProse, IsPathLike;
    AlmostPathMeans(u);
    TakesToken(u, after);
    RestUnfolds(gap + (u + after), gap, u, after);
    ProseHasNoColon(after);
    NoColonNoSlot(u, after);
    AlmostPathStays(u);
    ProseRestUnchanged(after);
  }

  /** Such a word passes through a scrub among prose. */
  lemma {:induction false} AlmostPathAmongProse(before: string, u: string, after: string)
    requires IsProse(before) && ClosedBySeparator(before) && AlmostPath(u) && IsProse(after) && OpensWithSeparator(after)
    ensures ScrubRest(before + (u + after)) == before + (u + after)
    decreases |before|
  {
    hide ScrubRest, CredentialSlot, ScrubTokenSpec, SealedSlot, AlmostPath, IsProse, AllIn, OneToken, TrimStart, TakeToken;
    var gap, token, more := FirstTokenOf(before);
    if token == "" {
      assert before == gap;
      AlmostPathLine(gap, u, after);
    } else {
      ProseParts(before, gap, token, more);
      NoColonAmong(token, more, u, after);
      NoColonNoSlot(token, more + (u + after));
      ProseTokenUnchanged(token);
      UnfoldBefore(gap, token, more, u + after);
      AlmostPathAmongProse(more, u, after);
      OneTokenIn(gap, token, more, u + after);
    }
  }

  lemma OneTokenIn(gap: string, token: string, more: string, x: string)
    ensures gap + (token + more) + x == gap + (token + (more + x))
  {
  }

  lemma NoColonAmong(token: string, more: string, u: string, after: string)
    requires IsProse(token) && IsProse(more) && AlmostPath(u) && IsProse(after)
    ensures '=' !in token && ':' !in token && ':' !in more + (u + after)
  {
  }

  /** Among prose, with the head ending behind such a word, the sealed text holds a path and the scrubbed one does not. */
  lemma CutBehindAlmostPath(before: string, u: string, after: string)
    requires IsProse(before) && ClosedBySeparator(before) && AlmostPath(u) && IsProse(after) && OpensWithSeparator(after)
    requires Printable(before + (u + after)) && after != ""
    requires Width(before + u) == HEAD_ROOM && SEALED_REASON_BYTE_LIMIT < Width(before + (u + after))
    ensures var reason := before + (u + after); var s := ScrubRest(Controlled(reason));
            s == reason && !HoldsPath(s) && HoldsPath(SealedText(s))
  {
    hide ScrubRest, Controlled, AlmostPath, IsProse, HoldsPath, CutMakesPath, SealedText, Printable, Width;
    var reason := before + (u + after);
    PrintableIsUntouched(reason);
    AlmostPathAmongProse(before, u, after);
    HeadEndsBehind(before, u, after);
    SealedReasonIsSafe(reason);
    RestClean(Controlled(reason));
    CleanHoldsNoPath(reason);
  }

  lemma HeadEndsBehind(before: string, u: string, after: string)
    requires ClosedBySeparator(before) && AlmostPath(u) && OpensWithSeparator(after) && after != ""
    requires Width(before + u) == HEAD_ROOM && SEALED_REASON_BYTE_LIMIT < Width(before + (u + after))
    ensures CutMakesPath(before + (u + after))
  {
    hide IsPathLike, AlmostPath, Width, CharsWithin, RunStart;
    AlmostPathMeans(u);
    var s, n := before + (u + after), |before + u|;
    assert s[..n] == before + u;
    HeadCutIs(s, n);
    RunOf(before, u, after);
    AlmostPathStays(u);
    AlmostPathDangles(u);
  }

  /** A word behind a separator is the run that ends with it. */
  lemma RunOf(before: string, u: string, after: string)
    requires ClosedBySeparator(before) && forall c :: c in u ==> !IsBreak(c)
    ensures var s, n := before + (u + after), |before + u|; RunStart(s, n) == |before| && s[|before|..n] == u
  {
    hide RunStart;
    var s, n := before + (u + after), |before + u|;
    assert forall k :: |before| <= k < n ==> s[k] == u[k - |before|] && u[k - |before|] in u;
    assert before != "" ==> s[|before| - 1] == before[|before| - 1];
    RunStartIsUnique(s, n, |before|);
  }

  lemma AlmostPathDangles(u: string)
    requires AlmostPath(u)
    ensures Dangling(u)
  {
  }

  /** A prefix that fills the head's room is the head. */
  lemma HeadCutIs(s: string, n: nat)
    requires n < |s| && Width(s[..n]) == HEAD_ROOM
    ensures HeadCut(s) == n
  {
    hide Width, CharsWithin;
    WithinMeans(s, HEAD_ROOM);
    var h := HeadCut(s);
    if h + 1 < n {
      CutsInOrder(s, h + 1, n);
    }
    if n < h {
      CutsInOrder(s, n, h);
    }
  }

  function Times(c: char, n: nat): string {
    seq(n, i => c)
  }

  /** A reason of 2117 bytes: prose, then `a/b/`, where the head ends, then prose again. */
  lemma SealMakesPath()
    ensures var reason := Times('x', 1011) + " " + ("a/b/" + (" " + Times('y', 1100)));
            var s := ScrubRest(Controlled(reason));
            s == reason && !HoldsPath(s) && HoldsPath(SealedText(s))
  {
    hide ScrubRest, Controlled, HoldsPath, SealedText, AlmostPath, Encode;
    var before, after := Times('x', 1011) + " ", " " + Times('y', 1100);
    PairIsAlmostPath();
    AsciiEncodes(before + "a/b/");
    AsciiEncodes(before + ("a/b/" + after));
    CutBehindAlmostPath(before, "a/b/", after);
  }

  lemma PairIsAlmostPath()
    ensures AlmostPath("a/b/")
  {
    hide Components;
    var u := "a/b/";
    assert u == "a" + ['/'] + "b/" && "b/" == "b" + ['/'] + "";
    ComponentsAcross("a", "b/");
    ComponentsAcross("b", "");
    OneLetter('a');
    OneLetter('b');
    NoComponents();
    assert u[0] == 'a' && "./"[0] == '.' && "../"[0] == '.';
  }
}
