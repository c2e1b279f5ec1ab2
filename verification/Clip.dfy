/** Clipping sealed text to a byte budget without splitting a UTF-8 character (bench-runner, scrub.rs). */
module Clip {
  import opened Utf8

  // ---- the boundary searches --------------------------------------------------------

  /** `i` is the largest boundary at or below `limit`. */
  predicate LastBoundary(s: seq<Byte>, limit: nat, i: nat) {
    && i <= |s| && i <= limit && IsBoundary(s, i)
    && forall j :: i < j <= limit && j <= |s| ==> !IsBoundary(s, j)
  }

  /** `i` is the smallest boundary at or above `start`. */
  predicate FirstBoundary(s: seq<Byte>, start: nat, i: nat) {
    && start <= i <= |s| && IsBoundary(s, i)
    && forall j :: start <= j < i ==> !IsBoundary(s, j)
  }

  /** At most three bytes are given up. */
  method FloorBoundary(s: seq<Byte>, start: nat) returns (i: nat)
    requires ValidUtf8(s)
    ensures LastBoundary(s, start, i)
    ensures start <= |s| ==> start <= i + 3
    ensures |s| <= start ==> i == |s|
  {
    i := start;
    if |s| <= i {
      return |s|;
    }
    while 0 < i && !IsBoundary(s, i)
      invariant i <= start
      invariant forall j :: i < j <= start ==> !IsBoundary(s, j)
    {
      i := i - 1;
    }
    if i + 4 <= start {
      BoundaryWithinFour(s, i + 1);
    }
  }

  /** At most three bytes are skipped. */
  method CeilBoundary(s: seq<Byte>, start: nat) returns (i: nat)
    requires ValidUtf8(s) && start <= |s|
    ensures FirstBoundary(s, start, i) && i <= start + 3
  {
    i := start;
    while i < |s| && !IsBoundary(s, i)
      invariant start <= i <= |s|
      invariant forall j :: start <= j < i ==> !IsBoundary(s, j)
    {
      i := i + 1;
    }
    if start + 3 < i {
      BoundaryWithinFour(s, start);
    }
  }

  // ---- clipping ------------------------------------------------------------------------

  /** An ellipsis, `[clipped]`, an ellipsis. */
  const ELLIPSIS: seq<Byte> := [0xE2, 0x80, 0xA6]

  const CLIPPED: seq<Byte> := [0x5B, 0x63, 0x6C, 0x69, 0x70, 0x70, 0x65, 0x64, 0x5D]

  const MARKER: seq<Byte> := ELLIPSIS + CLIPPED + ELLIPSIS

  lemma {:induction false} AsciiIsValid(s: seq<Byte>)
    requires forall k :: 0 <= k < |s| ==> s[k] <= 0x7F
    ensures ValidUtf8(s)
  {
    if s != [] {
      AsciiIsValid(s[1..]);
    }
  }

  lemma EllipsisIsValid()
    ensures ValidUtf8(ELLIPSIS)
  {
    assert CharLength(ELLIPSIS) == 3 && ELLIPSIS[3..] == [];
  }

  lemma MarkerIsValid()
    ensures ValidUtf8(MARKER) && |MARKER| == 15
  {
    hide ValidUtf8;
    EllipsisIsValid();
    AsciiIsValid(CLIPPED);
    JoinKeepsValid(ELLIPSIS, CLIPPED);
    JoinKeepsValid(ELLIPSIS + CLIPPED, ELLIPSIS);
  }

  /**
   Where a text is cut: behind the largest boundary in the first half of the room the marker leaves, and before the
   smallest boundary that lets the tail fit in what the head left over.
   */
  predicate IsCut(text: seq<Byte>, cap: nat, head: nat, tail: nat)
    requires |MARKER| < cap < |text|
  {
    && LastBoundary(text, (cap - |MARKER|) / 2, head)
    && FirstBoundary(text, |text| - (cap - |MARKER| - head), tail)
  }

  lemma CutKeepsOrder(text: seq<Byte>, cap: nat, head: nat, tail: nat)
    requires |MARKER| < cap < |text| && IsCut(text, cap, head, tail)
    ensures head <= tail <= |text|
  {
  }

  lemma LastBoundaryIsUnique(s: seq<Byte>, limit: nat, i: nat, j: nat)
    requires LastBoundary(s, limit, i) && LastBoundary(s, limit, j)
    ensures i == j
  {
  }

  /** There is one cut. */
  lemma CutIsUnique(text: seq<Byte>, cap: nat, head: nat, tail: nat, head': nat, tail': nat)
    requires |MARKER| < cap < |text| && IsCut(text, cap, head, tail) && IsCut(text, cap, head', tail')
    ensures head == head' && tail == tail'
  {
    LastBoundaryIsUnique(text, (cap - |MARKER|) / 2, head, head');
  }

  /** The whole text, its longest prefix of whole characters, or its two ends around the marker. */
  ghost predicate IsClipping(text: seq<Byte>, cap: nat, out: seq<Byte>) {
    if |text| <= cap then out == text
    else if cap <= |MARKER| then |out| <= |text| && out == text[..|out|] && LastBoundary(text, cap, |out|)
    else
      exists head: nat, tail: nat ::
        IsCut(text, cap, head, tail) && head <= tail <= |text| && out == text[..head] + MARKER + text[tail..]
  }

  /** A text and a cap have one clipping. */
  lemma ClippingIsUnique(text: seq<Byte>, cap: nat, out: seq<Byte>, out': seq<Byte>)
    requires IsClipping(text, cap, out) && IsClipping(text, cap, out')
    ensures out == out'
  {
    hide IsCut, LastBoundary;
    if |text| <= cap {
    } else if cap <= |MARKER| {
      LastBoundaryIsUnique(text, cap, |out|, |out'|);
    } else {
      var head: nat, tail: nat :| IsCut(text, cap, head, tail) && head <= tail <= |text|
                                  && out == text[..head] + MARKER + text[tail..];
      var head': nat, tail': nat :| IsCut(text, cap, head', tail') && head' <= tail' <= |text|
                                    && out' == text[..head'] + MARKER + text[tail'..];
      CutIsUnique(text, cap, head, tail, head', tail');
    }
  }

  /**
   The whole text when it fits; otherwise valid UTF-8 that uses the budget up to three bytes, cut where nothing more
   of the text would fit on either side of the marker.
   */
  method ClipToBytes(text: seq<Byte>, cap: nat) returns (out: seq<Byte>)
    requires ValidUtf8(text)
    ensures ValidUtf8(out) && |out| <= cap
    ensures cap < |text| ==> cap - 3 <= |out|
    ensures IsClipping(text, cap, out)
  {
    hide LastBoundary, FirstBoundary;
    if |text| <= cap {
      return text;
    }
    if cap <= |MARKER| {
      var keep := FloorBoundary(text, cap);
      LastBoundaryMeans(text, cap, keep);
      BoundaryCutsValid(text, keep);
      return text[..keep];
    }
    var room: nat := cap - |MARKER|;
    var headLength := FloorBoundary(text, room / 2);
    LastBoundaryMeans(text, room / 2, headLength);
    var budget: nat := room - headLength;
    var tailStart := CeilBoundary(text, |text| - budget);
    FirstBoundaryMeans(text, |text| - budget, tailStart);
    out := text[..headLength] + MARKER + text[tailStart..];
    assert IsCut(text, cap, headLength, tailStart);
    MarkerIsValid();
    BoundaryCutsValid(text, headLength);
    BoundaryCutsValid(text, tailStart);
    JoinKeepsValid(text[..headLength], MARKER);
    JoinKeepsValid(text[..headLength] + MARKER, text[tailStart..]);
  }

  lemma LastBoundaryMeans(s: seq<Byte>, limit: nat, i: nat)
    requires LastBoundary(s, limit, i)
    ensures i <= |s| && i <= limit && IsBoundary(s, i)
  {
  }

  lemma FirstBoundaryMeans(s: seq<Byte>, start: nat, i: nat)
    requires FirstBoundary(s, start, i)
    ensures start <= i <= |s| && IsBoundary(s, i)
  {
  }
}
