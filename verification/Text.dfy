/** Searching, splitting and trimming strings of Unicode scalar values. */
module Text {
  import opened Wrappers

  /** The first position whose character satisfies `p`. */
  function FindFirst(s: string, p: char -> bool): (r: Option<nat>)
    ensures r.Some? ==> r.value < |s| && p(s[r.value]) && forall i :: 0 <= i < r.value ==> !p(s[i])
    ensures r.None? ==> forall i :: 0 <= i < |s| ==> !p(s[i])
  {
    if s == "" then None
    else if p(s[0]) then Some(0)
    else
      match FindFirst(s[1..], p)
      case None => None
      case Some(i) => Some(i + 1)
  }

  lemma NoneIs(s: string, p: char -> bool)
    requires forall k :: 0 <= k < |s| ==> !p(s[k])
    ensures FindFirst(s, p).None?
  {
  }

  lemma FirstIs(s: string, p: char -> bool, i: nat)
    requires i < |s| && p(s[i]) && forall k :: 0 <= k < i ==> !p(s[k])
    ensures FindFirst(s, p) == Some(i)
  {
  }

  /** Nothing found in the lead: the search goes on behind it. */
  lemma {:induction false} FindFirstBehind(lead: string, s: string, p: char -> bool)
    requires forall k :: 0 <= k < |lead| ==> !p(lead[k])
    ensures FindFirst(lead + s, p)
            == match FindFirst(s, p) case None => None case Some(i) => Some(|lead| + i)
  {
    if lead == "" {
      assert lead + s == s;
    } else {
      assert (lead + s)[1..] == lead[1..] + s;
      FindFirstBehind(lead[1..], s, p);
    }
  }

  /** Nothing to find in the trail: the search never gets there. */
  lemma {:induction false} FindFirstBefore(s: string, trail: string, p: char -> bool)
    requires forall k :: 0 <= k < |trail| ==> !p(trail[k])
    ensures FindFirst(s + trail, p) == FindFirst(s, p)
  {
    if s == "" {
      assert s + trail == trail;
      NoneIs(trail, p);
    } else {
      assert (s + trail)[1..] == s[1..] + trail;
      FindFirstBefore(s[1..], trail, p);
    }
  }

  /** The first position holding `c`. */
  function FindChar(s: string, c: char): (r: Option<nat>)
    ensures r.Some? ==> r.value < |s| && s[r.value] == c && c !in s[..r.value]
    ensures r.None? ==> c !in s
  {
    if s == "" then None
    else if s[0] == c then Some(0)
    else
      match FindChar(s[1..], c)
      case None => None
      case Some(i) =>
        assert s[..i + 1] == [s[0]] + s[1..][..i];
        Some(i + 1)
  }

  /** The last position holding `c`. */
  function FindLast(s: string, c: char): (r: Option<nat>)
    ensures r.Some? ==> r.value < |s| && s[r.value] == c
  {
    if s == "" then None
    else if s[|s| - 1] == c then Some(|s| - 1)
    else FindLast(s[..|s| - 1], c)
  }

  lemma {:induction false} NoLast(s: string, c: char)
    requires c !in s
    ensures FindLast(s, c).None?
  {
    if s != "" {
      NoLast(s[..|s| - 1], c);
    }
  }

  lemma {:induction false} LastIs(lead: string, c: char, trail: string)
    requires c !in trail
    ensures FindLast(lead + [c] + trail, c) == Some(|lead|)
    decreases |trail|
  {
    var s := lead + [c] + trail;
    if trail != "" {
      assert s[..|s| - 1] == lead + [c] + trail[..|trail| - 1];
      LastIs(lead, c, trail[..|trail| - 1]);
    }
  }

  predicate Contains(s: string, sub: string) {
    sub <= s || (s != "" && Contains(s[1..], sub))
  }

  predicate StartsWith(s: string, prefix: string) {
    prefix <= s
  }

  predicate AllIn(s: string, p: char -> bool) {
    forall i :: 0 <= i < |s| ==> p(s[i])
  }

  /** The nonempty parts between occurrences of `c`. */
  function Components(s: string, c: char): (parts: seq<string>) {
    match FindChar(s, c)
    case None => if s == "" then [] else [s]
    case Some(i) => (if i == 0 then [] else [s[..i]]) + Components(s[i + 1..], c)
  }

  lemma ComponentsUnfold(s: string, c: char)
    requires c in s
    ensures var i := FindChar(s, c).value;
            Components(s, c) == (if i == 0 then [] else [s[..i]]) + Components(s[i + 1..], c)
  {
  }

  /** A component is nonempty, holds no separator, and is made of the text's own characters. */
  predicate IsPart(p: string, s: string, c: char) {
    p != "" && c !in p && |p| <= |s| && (c in s ==> |p| < |s|) && forall d :: d in p ==> d in s
  }

  lemma HeadIsPart(s: string, c: char, i: nat)
    requires 0 < i < |s| && s[i] == c && c !in s[..i]
    ensures IsPart(s[..i], s, c)
  {
  }

  lemma PartOfTail(p: string, s: string, c: char, n: nat)
    requires 0 < n <= |s| && IsPart(p, s[n..], c)
    ensures IsPart(p, s, c)
  {
  }

  /** Components are nonempty, hold no separator, and are shorter than a text that does. */
  lemma {:induction false} ComponentsSmaller(s: string, c: char, i: nat)
    requires i < |Components(s, c)|
    ensures var p := Components(s, c)[i]; p != "" && c !in p && |p| <= |s| && (c in s ==> |p| < |s|)
    ensures forall d :: d in Components(s, c)[i] ==> d in s
    ensures IsPart(Components(s, c)[i], s, c)
    decreases |s|
  {
    hide FindChar;
    var at := FindChar(s, c);
    if at.Some? {
      hide Components, IsPart;
      ComponentsUnfold(s, c);
      var head := if at.value == 0 then [] else [s[..at.value]];
      if |head| <= i {
        ComponentsSmaller(s[at.value + 1..], c, i - |head|);
        PartOfTail(Components(s, c)[i], s, c, at.value + 1);
      } else {
        HeadIsPart(s, c, at.value);
      }
      PartMeans(Components(s, c)[i], s, c);
    }
  }

  lemma PartMeans(p: string, s: string, c: char)
    requires IsPart(p, s, c)
    ensures p != "" && c !in p && |p| <= |s| && (c in s ==> |p| < |s|) && forall d :: d in p ==> d in s
  {
  }

  /** All parts between occurrences of `c`, empty ones included. */
  function Split(s: string, c: char): (parts: seq<string>)
    ensures parts != []
  {
    match FindChar(s, c)
    case None => [s]
    case Some(i) => [s[..i]] + Split(s[i + 1..], c)
  }

  /** ASCII lower case. */
  function LowerChar(c: char): char {
    if 'A' <= c <= 'Z' then c - 'A' + 'a' else c
  }

  function Lower(s: string): string {
    seq(|s|, i requires 0 <= i < |s| => LowerChar(s[i]))
  }

  /** The same letter, or the two cases of one. */
  predicate SameLetter(a: char, b: char) {
    || a == b
    || ('a' <= a <= 'z' && b as int == a as int - 32)
    || ('a' <= b <= 'z' && a as int == b as int - 32)
  }

  predicate SameUpToCase(a: string, b: string) {
    |a| == |b| && forall i :: 0 <= i < |a| ==> SameLetter(a[i], b[i])
  }

  lemma LowerForgetsCase(a: string, b: string)
    ensures Lower(a) == Lower(b) <==> SameUpToCase(a, b)
  {
    if Lower(a) == Lower(b) {
      forall i | 0 <= i < |a| ensures SameLetter(a[i], b[i]) {
        assert Lower(a)[i] == Lower(b)[i];
      }
    }
  }

  // ---- trimming ---------------------------------------------------------------

  function TrimStart(s: string, p: char -> bool): (r: string)
    ensures |r| <= |s|
  {
    if s != "" && p(s[0]) then TrimStart(s[1..], p) else s
  }

  function TrimEnd(s: string, p: char -> bool): (r: string)
    ensures |r| <= |s|
  {
    if s != "" && p(s[|s| - 1]) then TrimEnd(s[..|s| - 1], p) else s
  }

  function Trim(s: string, p: char -> bool): string {
    TrimEnd(TrimStart(s, p), p)
  }

  /** What TrimStart cuts off is a run of trimmed characters, and it cuts off all of them. */
  lemma {:induction false} TrimStartCuts(s: string, p: char -> bool)
    ensures var r := TrimStart(s, p); var cut := |s| - |r|;
            && s == s[..cut] + r && AllIn(s[..cut], p)
            && (r != "" ==> !p(r[0]))
  {
    if s != "" && p(s[0]) {
      TrimStartCuts(s[1..], p);
      var cut := |s[1..]| - |TrimStart(s, p)|;
      assert s[..cut + 1] == [s[0]] + s[1..][..cut];
      assert s == [s[0]] + s[1..];
    } else {
      assert s[..0] == "";
    }
  }

  lemma {:induction false} TrimEndCuts(s: string, p: char -> bool)
    ensures var r := TrimEnd(s, p);
            && s == r + s[|r|..] && AllIn(s[|r|..], p)
            && (r != "" ==> !p(r[|r| - 1]))
  {
    if s != "" && p(s[|s| - 1]) {
      var shorter, r := s[..|s| - 1], TrimEnd(s, p);
      TrimEndCuts(shorter, p);
      OneLonger(s, r);
    } else {
      assert s[|s|..] == "";
    }
  }

  lemma OneLonger(s: string, r: string)
    requires s != "" && |r| < |s| && s[..|s| - 1] == r + s[..|s| - 1][|r|..]
    ensures s == r + s[|r|..] && s[|r|..] == s[..|s| - 1][|r|..] + [s[|s| - 1]]
  {
  }

  lemma {:induction false} TrimStartSkips(lead: string, s: string, p: char -> bool)
    requires AllIn(lead, p)
    ensures TrimStart(lead + s, p) == TrimStart(s, p)
  {
    if lead == "" {
      assert lead + s == s;
    } else {
      assert (lead + s)[1..] == lead[1..] + s;
      TrimStartSkips(lead[1..], s, p);
    }
  }

  lemma TrimStartStopsAt(s: string, p: char -> bool)
    requires s != "" && !p(s[0])
    ensures TrimStart(s, p) == s
  {
  }

  lemma {:induction false} TrimStartStops(s: string, t: string, p: char -> bool)
    requires TrimStart(s, p) != ""
    ensures TrimStart(s + t, p) == TrimStart(s, p) + t
  {
    if p(s[0]) {
      assert (s + t)[1..] == s[1..] + t;
      TrimStartStops(s[1..], t, p);
    }
  }

  lemma {:induction false} TrimEndSkips(s: string, trail: string, p: char -> bool)
    requires AllIn(trail, p)
    ensures TrimEnd(s + trail, p) == TrimEnd(s, p)
  {
    if trail == "" {
      assert s + trail == s;
    } else {
      assert (s + trail)[..|s + trail| - 1] == s + trail[..|trail| - 1];
      TrimEndSkips(s, trail[..|trail| - 1], p);
    }
  }

  lemma {:induction false} TrimEndStops(k: string, s: string, p: char -> bool)
    requires k != "" && !p(k[|k| - 1])
    ensures TrimEnd(k + s, p) == k + TrimEnd(s, p)
  {
    if s == "" {
      assert k + s == k;
    } else if p(s[|s| - 1]) {
      assert (k + s)[..|k + s| - 1] == k + s[..|s| - 1];
      TrimEndStops(k, s[..|s| - 1], p);
    }
  }

  /** Trimming is insensitive to more of the same on either side. */
  lemma TrimWrapped(lead: string, s: string, trail: string, p: char -> bool)
    requires AllIn(lead, p) && AllIn(trail, p)
    ensures Trim(lead + s + trail, p) == Trim(s, p)
  {
    assert lead + s + trail == lead + (s + trail);
    TrimStartSkips(lead, s + trail, p);
    TrimStartCuts(s, p);
    if TrimStart(s, p) == "" {
      assert s[..|s|] == s;
      TrimStartSkips(s, trail, p);
      TrimStartSkips(trail, "", p);
      assert trail + "" == trail;
    } else {
      TrimStartStops(s, trail, p);
      TrimEndSkips(TrimStart(s, p), trail, p);
    }
  }

  /** A prefix that neither starts nor ends with a trimmed character is kept whole. */
  lemma TrimKeepsPrefix(k: string, s: string, p: char -> bool)
    requires k != "" && !p(k[0]) && !p(k[|k| - 1])
    ensures Trim(k + s, p) == k + TrimEnd(s, p)
  {
    TrimEndStops(k, s, p);
  }

  lemma TrimAfterTrimEnd(s: string, p: char -> bool)
    ensures Trim(TrimEnd(s, p), p) == Trim(s, p)
  {
    hide TrimStart, TrimEnd, Trim;
    var e := TrimEnd(s, p);
    TrimEndCuts(s, p);
    var trail := s[|e|..];
    TrimWrapped("", e, trail, p);
    assert "" + e + trail == s;
  }

  lemma TrimEndAll(s: string, p: char -> bool)
    requires AllIn(s, p)
    ensures TrimEnd(s, p) == ""
  {
    TrimEndSkips("", s, p);
    assert "" + s == s;
  }

  /** What trimming only the end leaves: some trimmed characters, then the trimmed text. */
  lemma TrimEndSplits(s: string, p: char -> bool) returns (lead: string)
    ensures AllIn(lead, p) && TrimEnd(s, p) == lead + Trim(s, p)
  {
    var a := TrimStart(s, p);
    TrimStartCuts(s, p);
    lead := s[..|s| - |a|];
    if a == "" {
      assert s[..|s|] == s;
      TrimEndAll(s, p);
      return "";
    }
    assert s == lead + a;
    TrimEndThrough(lead, a, p);
  }

  lemma {:induction false} TrimEndThrough(lead: string, a: string, p: char -> bool)
    requires a != "" && !p(a[0])
    ensures TrimEnd(lead + a, p) == lead + TrimEnd(a, p)
    decreases |a|
  {
    var whole := lead + a;
    if p(a[|a| - 1]) {
      assert whole[..|whole| - 1] == lead + a[..|a| - 1];
      TrimEndThrough(lead, a[..|a| - 1], p);
    }
  }

  lemma {:induction false} TrimStartKeepsOthers(s: string, p: char -> bool, c: char)
    ensures c in TrimStart(s, p) ==> c in s
    ensures c in s && !p(c) ==> c in TrimStart(s, p)
  {
    if s != "" && p(s[0]) {
      TrimStartKeepsOthers(s[1..], p, c);
      assert s == [s[0]] + s[1..];
    }
  }

  lemma {:induction false} TrimEndKeepsOthers(s: string, p: char -> bool, c: char)
    ensures c in TrimEnd(s, p) ==> c in s
    ensures c in s && !p(c) ==> c in TrimEnd(s, p)
  {
    if s != "" && p(s[|s| - 1]) {
      TrimEndKeepsOthers(s[..|s| - 1], p, c);
      assert s == s[..|s| - 1] + [s[|s| - 1]];
    }
  }

  /** Trimming drops only trimmed characters. */
  lemma TrimKeepsOthers(s: string, p: char -> bool, c: char)
    ensures c in Trim(s, p) ==> c in s
    ensures c in s && !p(c) ==> c in Trim(s, p)
  {
    TrimStartKeepsOthers(s, p, c);
    TrimEndKeepsOthers(TrimStart(s, p), p, c);
  }
}
