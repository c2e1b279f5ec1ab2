/** The entry point of every sealed reason: scrub, then clip, with the cut between characters (bench-runner, scrub.rs). */
module SealCut {
  import opened Wrappers
  import opened Sums
  import opened Scrub
  import opened Utf8
  import opened Clip

  const SEALED_REASON_BYTE_LIMIT: nat := 2048

  /** What the marker leaves of the limit, and the half of it the head may take. */
  const ROOM: nat := 2033
  const HEAD_ROOM: nat := 1016

  const DOTS: char := '\U{2026}'

  /** The marker, as text. */
  const CUT: string := [DOTS] + "[clipped]" + [DOTS]

  /** The first `h` characters and those from `t` on, around the marker. */
  function Clipped(s: string, h: nat, t: nat): string
    requires h <= t <= |s|
  {
    s[..h] + CUT + s[t..]
  }

  /** The size of a text in bytes. */
  function Width(s: string): nat {
    |Encode(s)|
  }

  // ---- cuts between characters ---------------------------------------------------------

  /** How many leading characters fit in `budget` bytes. */
  function CharsWithin(s: string, budget: nat): (n: nat)
    ensures n <= |s|
  {
    if s == "" || budget < |EncodeChar(s[0])| then 0 else 1 + CharsWithin(s[1..], budget - |EncodeChar(s[0])|)
  }

  /** How many leading characters it takes to reach `start` bytes. */
  function CharsPast(s: string, start: nat): (n: nat)
    ensures n <= |s|
  {
    if s == "" || start == 0 then 0 else 1 + CharsPast(s[1..], Monus(start, |EncodeChar(s[0])|))
  }

  lemma WidthUnfolds(s: string, n: nat)
    requires 0 < n <= |s|
    ensures Width(s[..n]) == |EncodeChar(s[0])| + Width(s[1..][..n - 1])
  {
    hide EncodeChar;
    assert s[..n][1..] == s[1..][..n - 1];
  }

  /** They fit, and one more would not. */
  lemma {:induction false} WithinMeans(s: string, budget: nat)
    ensures var n := CharsWithin(s, budget);
            Width(s[..n]) <= budget && (n < |s| ==> budget < Width(s[..n + 1]))
    decreases |s|
  {
    hide EncodeChar, Width;
    NoWidth();
    if s == "" || budget < |EncodeChar(s[0])| {
      assert s[..0] == "";
      if s != "" {
        WidthUnfolds(s, 1);
      }
    } else {
      var m := CharsWithin(s[1..], budget - |EncodeChar(s[0])|);
      WithinMeans(s[1..], budget - |EncodeChar(s[0])|);
      WidthUnfolds(s, m + 1);
      if m + 1 < |s| {
        WidthUnfolds(s, m + 2);
      }
    }
  }

  lemma NoWidth()
    ensures Width("") == 0
  {
  }

  /** They reach it, and one less would not. */
  lemma {:induction false} PastMeans(s: string, start: nat)
    requires start <= Width(s)
    ensures var n := CharsPast(s, start);
            start <= Width(s[..n]) && (0 < n ==> Width(s[..n - 1]) < start)
    decreases |s|
  {
    hide EncodeChar, Width;
    NoWidth();
    assert s[..0] == "";
    if s != "" && start != 0 {
      var next := Monus(start, |EncodeChar(s[0])|);
      assert s[..|s|] == s && s[1..][..|s| - 1] == s[1..];
      WidthUnfolds(s, |s|);
      PastMeans(s[1..], next);
      var m := CharsPast(s[1..], next);
      WidthUnfolds(s, m + 1);
      if 0 < m {
        WidthUnfolds(s, m);
      }
    }
  }

  /** A later cut leaves more bytes before it. */
  lemma CutsInOrder(s: string, k: nat, n: nat)
    requires k < n <= |s|
    ensures Width(s[..k]) < Width(s[..n])
  {
    hide EncodeChar;
    assert s[..n] == s[..k] + s[k..n];
    EncodeJoins(s[..k], s[k..n]);
  }

  lemma WidthSplits(s: string, k: nat)
    requires k <= |s|
    ensures Encode(s) == Encode(s[..k]) + Encode(s[k..]) && Width(s) == Width(s[..k]) + Width(s[k..])
  {
    hide Encode;
    assert s == s[..k] + s[k..];
    EncodeJoins(s[..k], s[k..]);
  }

  lemma CharCutIsBoundary(s: string, k: nat)
    requires k <= |s|
    ensures Width(s[..k]) <= |Encode(s)| && IsBoundary(Encode(s), Width(s[..k]))
  {
    WidthSplits(s, k);
    if k < |s| {
      EncodedCharIsValid(s[k], Encode(s[k + 1..]));
      assert s[k..][1..] == s[k + 1..];
      assert Encode(s)[Width(s[..k])] == EncodeChar(s[k])[0];
    } else {
      assert s[..k] == s;
    }
  }

  /** The largest boundary within a budget is where the characters that fit in it end. */
  lemma HeadIs(s: string, budget: nat, i: nat)
    requires LastBoundary(Encode(s), budget, i)
    ensures i == Width(s[..CharsWithin(s, budget)])
  {
    hide Encode, IsBoundary, CharsWithin;
    var n := CharsWithin(s, budget);
    WithinMeans(s, budget);
    CharCutIsBoundary(s, n);
    LastBoundaryMeans(Encode(s), budget, i);
    var k := BoundaryIsBetweenChars(s, i);
    assert Width(s[..k]) == i;
    if n + 1 < k {
      CutsInOrder(s, n + 1, k);
    }
    if k < n {
      CutsInOrder(s, k, n);
    }
  }

  /** The smallest boundary past a start is where the characters that reach it end. */
  lemma TailIs(s: string, start: nat, i: nat)
    requires FirstBoundary(Encode(s), start, i) && start <= Width(s)
    ensures i == Width(s[..CharsPast(s, start)])
  {
    hide Encode, IsBoundary, CharsPast;
    var n := CharsPast(s, start);
    PastMeans(s, start);
    CharCutIsBoundary(s, n);
    FirstBoundaryMeans(Encode(s), start, i);
    var k := BoundaryIsBetweenChars(s, i);
    assert Width(s[..k]) == i;
    if n < k {
      CutsInOrder(s, n, k);
    }
    if k + 1 < n {
      CutsInOrder(s, k, n - 1);
    }
  }

  // ---- the sealed reason ----------------------------------------------------------------

  /** How many characters of an over-long text are kept in front of the marker. */
  function HeadCut(s: string): (h: nat)
    ensures h <= |s|
  {
    CharsWithin(s, HEAD_ROOM)
  }

  /** Where the tail must start, in bytes, to fit in what the head leaves. */
  function TailByte(s: string): nat
    requires SEALED_REASON_BYTE_LIMIT < Width(s)
  {
    WithinMeans(s, HEAD_ROOM);
    Width(s) - (ROOM - Width(s[..HeadCut(s)]))
  }

  function TailCut(s: string): (t: nat)
    requires SEALED_REASON_BYTE_LIMIT < Width(s)
    ensures t <= |s|
  {
    CharsPast(s, TailByte(s))
  }

  lemma HeadBeforeTail(s: string)
    requires SEALED_REASON_BYTE_LIMIT < Width(s)
    ensures HeadCut(s) <= TailCut(s)
  {
    hide Width, CharsPast;
    WithinMeans(s, HEAD_ROOM);
    PastMeans(s, TailByte(s));
    if TailCut(s) < HeadCut(s) {
      CutsInOrder(s, TailCut(s), HeadCut(s));
    }
  }

  /** The text as it is sealed. */
  function SealedText(s: string): string {
    if Width(s) <= SEALED_REASON_BYTE_LIMIT then s
    else
      HeadBeforeTail(s);
      Clipped(s, HeadCut(s), TailCut(s))
  }

  lemma CharWidth(s: string, n: nat)
    requires n < |s|
    ensures Width(s[..n + 1]) <= Width(s[..n]) + 4
  {
    assert s[..n + 1] == s[..n] + [s[n]];
    EncodeJoins(s[..n], [s[n]]);
    assert [s[n]][1..] == "";
  }

  /** Both ends of an over-long text are kept, about a kilobyte each, and no character is lost that would still fit. */
  lemma BothEndsKept(s: string)
    requires SEALED_REASON_BYTE_LIMIT < Width(s)
    ensures HEAD_ROOM - 3 <= Width(s[..HeadCut(s)]) <= HEAD_ROOM
    ensures ROOM - 3 <= Width(s[..HeadCut(s)]) + Width(s[TailCut(s)..]) <= ROOM
    ensures HeadCut(s) < |s| && HEAD_ROOM < Width(s[..HeadCut(s) + 1])
    ensures 0 < TailCut(s) && ROOM < Width(s[..HeadCut(s)]) + Width(s[TailCut(s) - 1..])
  {
    hide Width, CharsPast, CharsWithin;
    var h, t := HeadCut(s), TailCut(s);
    WithinMeans(s, HEAD_ROOM);
    PastMeans(s, TailByte(s));
    WidthSplits(s, t);
    NoWidth();
    assert s[..|s|] == s && s[..0] == "";
    CharWidth(s, h);
    CharWidth(s, t - 1);
    WidthSplits(s, t - 1);
  }

  lemma CutIsMarker()
    ensures Encode(CUT) == MARKER
  {
    hide Encode;
    EncodeJoins([DOTS] + "[clipped]", [DOTS]);
    EncodeJoins([DOTS], "[clipped]");
    DotsEncode();
    WordEncodes();
  }

  lemma DotsEncode()
    ensures Encode([DOTS]) == ELLIPSIS
  {
    assert [DOTS][1..] == "";
    assert Encode([DOTS]) == EncodeChar(DOTS);
  }

  lemma WordEncodes()
    ensures Encode("[clipped]") == CLIPPED
  {
    hide Encode;
    AsciiEncodes("[clipped]");
  }

  lemma {:induction false} AsciiEncodes(s: string)
    requires forall c :: c in s ==> c as int < 0x80
    ensures |Encode(s)| == |s| && forall i :: 0 <= i < |s| ==> Encode(s)[i] == s[i] as int
  {
    if s != "" {
      assert s[0] in s && forall c :: c in s[1..] ==> c in s;
      AsciiEncodes(s[1..]);
      assert EncodeChar(s[0]) == [s[0] as int];
    }
  }

  lemma ClippedEncodes(s: string, h: nat, t: nat)
    requires h <= t <= |s|
    ensures Width(s[..h]) <= |Encode(s)| && Width(s[..t]) <= |Encode(s)|
    ensures Encode(Clipped(s, h, t)) == Encode(s)[..Width(s[..h])] + MARKER + Encode(s)[Width(s[..t])..]
  {
    hide Encode;
    EncodeJoins(s[..h] + CUT, s[t..]);
    EncodeJoins(s[..h], CUT);
    CutIsMarker();
    WidthSplits(s, h);
    WidthSplits(s, t);
  }

  lemma SealedIsClipping(s: string, out: seq<Byte>)
    requires IsClipping(Encode(s), SEALED_REASON_BYTE_LIMIT, out)
    ensures out == Encode(SealedText(s))
  {
    hide Encode, LastBoundary, FirstBoundary, CharsWithin, CharsPast, Clipped;
    if SEALED_REASON_BYTE_LIMIT < Width(s) {
      assert |MARKER| == 15;
      var head: nat, tail: nat :| IsCut(Encode(s), SEALED_REASON_BYTE_LIMIT, head, tail) && head <= tail <= |Encode(s)|
                                  && out == Encode(s)[..head] + MARKER + Encode(s)[tail..];
      HeadIs(s, HEAD_ROOM, head);
      assert |Encode(s)| - (SEALED_REASON_BYTE_LIMIT - |MARKER| - head) == TailByte(s);
      WithinMeans(s, HEAD_ROOM);
      TailIs(s, TailByte(s), tail);
      HeadBeforeTail(s);
      ClippedEncodes(s, HeadCut(s), TailCut(s));
    }
  }

  /** The sealed reason is the scrubbed one, cut as above. */
  method ScrubReasonForSeal(reason: string) returns (out: seq<Byte>)
    ensures out == Encode(SealedText(ScrubRest(Controlled(reason))))
    ensures |out| <= SEALED_REASON_BYTE_LIMIT
    ensures SEALED_REASON_BYTE_LIMIT < Width(ScrubRest(Controlled(reason))) ==> SEALED_REASON_BYTE_LIMIT - 3 <= |out|
  {
    hide ScrubRest, Controlled, Encode, IsClipping, SealedText;
    var scrubbed := ScrubEngineText(reason);
    EncodedIsValid(scrubbed);
    out := ClipToBytes(Encode(scrubbed), SEALED_REASON_BYTE_LIMIT);
    SealedIsClipping(scrubbed, out);
  }
}
