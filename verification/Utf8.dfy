/** UTF-8, section 3 of RFC 3629: well-formed bytes, their character boundaries, and the encoding of a text. */
module Utf8 {
  type Byte = x: int | 0 <= x < 256

  predicate Within(s: seq<Byte>, k: nat, lo: int, hi: int) {
    k < |s| && lo <= s[k] <= hi
  }

  predicate IsContinuation(b: Byte) {
    0x80 <= b <= 0xBF
  }

  predicate Continues(s: seq<Byte>, k: nat) {
    k < |s| && IsContinuation(s[k])
  }

  /** The length of the well-formed character `s` starts with, or 0 where there is none. */
  function CharLength(s: seq<Byte>): (n: nat)
    ensures n <= 4 && n <= |s|
    ensures 0 < n ==> !IsContinuation(s[0]) && forall k :: 0 < k < n ==> IsContinuation(s[k])
  {
    if Within(s, 0, 0, 0x7F) then 1
    else if Within(s, 0, 0xC2, 0xDF) && Continues(s, 1) then 2
    else if Within(s, 0, 0xE0, 0xE0) && Within(s, 1, 0xA0, 0xBF) && Continues(s, 2) then 3
    else if Within(s, 0, 0xE1, 0xEC) && Continues(s, 1) && Continues(s, 2) then 3
    else if Within(s, 0, 0xED, 0xED) && Within(s, 1, 0x80, 0x9F) && Continues(s, 2) then 3
    else if Within(s, 0, 0xEE, 0xEF) && Continues(s, 1) && Continues(s, 2) then 3
    else if Within(s, 0, 0xF0, 0xF0) && Within(s, 1, 0x90, 0xBF) && Continues(s, 2) && Continues(s, 3) then 4
    else if Within(s, 0, 0xF1, 0xF3) && Continues(s, 1) && Continues(s, 2) && Continues(s, 3) then 4
    else if Within(s, 0, 0xF4, 0xF4) && Within(s, 1, 0x80, 0x8F) && Continues(s, 2) && Continues(s, 3) then 4
    else 0
  }

  predicate ValidUtf8(s: seq<Byte>)
    decreases |s|
  {
    s == [] || (var n := CharLength(s); 0 < n && ValidUtf8(s[n..]))
  }

  /** Rust's own boundary test: an end of the text, or a byte that is not a continuation. */
  predicate IsBoundary(s: seq<Byte>, i: nat) {
    i == 0 || i == |s| || (i < |s| && !IsContinuation(s[i]))
  }

  lemma CharLengthOfPrefix(s: seq<Byte>, t: seq<Byte>)
    requires CharLength(s) <= |t| && t <= s
    ensures 0 < CharLength(s) ==> CharLength(t) == CharLength(s)
  {
    assert forall k :: 0 <= k < |t| ==> t[k] == s[k];
  }

  lemma CharLengthOfExtension(s: seq<Byte>, t: seq<Byte>)
    requires 0 < CharLength(s)
    ensures CharLength(s + t) == CharLength(s)
  {
    assert forall k :: 0 <= k < |s| ==> (s + t)[k] == s[k];
  }

  /** Cutting valid text at a boundary leaves two valid texts. */
  lemma {:induction false} BoundaryCutsValid(s: seq<Byte>, i: nat)
    requires ValidUtf8(s) && i <= |s| && IsBoundary(s, i)
    ensures ValidUtf8(s[..i]) && ValidUtf8(s[i..])
    decreases |s|
  {
    hide CharLength;
    if i == 0 || i == |s| {
      assert s[..i] == if i == 0 then [] else s;
      assert s[i..] == if i == 0 then s else [];
    } else {
      var n := CharLength(s);
      BoundaryCutsValid(s[n..], i - n);
      assert s[n..][i - n..] == s[i..] && s[n..][..i - n] == s[..i][n..];
      CharLengthOfPrefix(s, s[..i]);
    }
  }

  lemma {:induction false} JoinKeepsValid(a: seq<Byte>, b: seq<Byte>)
    requires ValidUtf8(a) && ValidUtf8(b)
    ensures ValidUtf8(a + b)
    decreases |a|
  {
    hide CharLength;
    if a == [] {
      assert a + b == b;
    } else {
      var n := CharLength(a);
      JoinKeepsValid(a[n..], b);
      CharLengthOfExtension(a, b);
      assert (a + b)[n..] == a[n..] + b;
    }
  }

  /** Four bytes in a row always hold the start of a character, unless the text ends first. */
  lemma {:induction false} BoundaryWithinFour(s: seq<Byte>, i: nat)
    requires ValidUtf8(s) && i + 3 <= |s|
    ensures IsBoundary(s, i) || IsBoundary(s, i + 1) || IsBoundary(s, i + 2) || IsBoundary(s, i + 3)
    decreases |s|
  {
    hide CharLength;
    if s != [] {
      var n := CharLength(s);
      if n <= i {
        BoundaryWithinFour(s[n..], i - n);
        assert n < |s| ==> IsBoundary(s, n) by {
          if n < |s| {
            assert 0 < CharLength(s[n..]);
            assert s[n..][0] == s[n];
          }
        }
      } else if n < |s| && i < n <= i + 3 {
        assert 0 < CharLength(s[n..]);
        assert s[n..][0] == s[n];
      }
    }
  }

  // ---- encoding ----------------------------------------------------------------------

  function EncodeChar(c: char): (bytes: seq<Byte>)
    ensures 1 <= |bytes| <= 4
  {
    var n := c as int;
    if n < 0x80 then [n]
    else if n < 0x800 then [0xC0 + n / 64, 0x80 + n % 64]
    else if n < 0x10000 then [0xE0 + n / 4096, 0x80 + n / 64 % 64, 0x80 + n % 64]
    else [0xF0 + n / 262144, 0x80 + n / 4096 % 64, 0x80 + n / 64 % 64, 0x80 + n % 64]
  }

  function Encode(s: string): seq<Byte> {
    if s == "" then [] else EncodeChar(s[0]) + Encode(s[1..])
  }

  lemma {:induction false} EncodeJoins(s: string, t: string)
    ensures Encode(s + t) == Encode(s) + Encode(t)
  {
    hide EncodeChar;
    if s == "" {
      assert s + t == t;
    } else {
      assert (s + t)[1..] == s[1..] + t;
      EncodeJoins(s[1..], t);
    }
  }

  /** An encoded character is one well-formed character. */
  lemma EncodedCharIsValid(c: char, rest: seq<Byte>)
    ensures CharLength(EncodeChar(c) + rest) == |EncodeChar(c)|
    ensures !IsContinuation(EncodeChar(c)[0])
    ensures forall k :: 0 < k < |EncodeChar(c)| ==> IsContinuation(EncodeChar(c)[k])
  {
    hide EncodeChar, CharLength;
    EncodedCharAlone(c);
    CharLengthOfExtension(EncodeChar(c), rest);
  }

  lemma EncodedCharAlone(c: char)
    ensures CharLength(EncodeChar(c)) == |EncodeChar(c)|
  {
    hide EncodeChar, CharLength;
    if |EncodeChar(c)| <= 2 {
      ShortCharAlone(c);
    } else if |EncodeChar(c)| == 3 {
      ThreeByteCharAlone(c);
    } else {
      FourByteCharAlone(c);
    }
  }

  lemma ShortCharAlone(c: char)
    requires |EncodeChar(c)| <= 2
    ensures CharLength(EncodeChar(c)) == |EncodeChar(c)|
  {
  }

  /** Neither an overlong encoding nor a surrogate. */
  lemma ThreeByteCharAlone(c: char)
    requires |EncodeChar(c)| == 3
    ensures CharLength(EncodeChar(c)) == |EncodeChar(c)|
  {
    hide CharLength;
    var n := c as int;
    assert n < 0xD800 || 0xE000 <= n;
    var s := EncodeChar(c);
    assert s[0] == 0xE0 ==> 0xA0 <= s[1];
    assert s[0] == 0xED ==> s[1] <= 0x9F;
    ThreeByteLength(s);
  }

  lemma ThreeByteLength(s: seq<Byte>)
    requires |s| == 3 && 0xE0 <= s[0] <= 0xEF && IsContinuation(s[1]) && IsContinuation(s[2])
    requires (s[0] == 0xE0 ==> 0xA0 <= s[1]) && (s[0] == 0xED ==> s[1] <= 0x9F)
    ensures CharLength(s) == 3
  {
  }

  lemma FourByteCharAlone(c: char)
    requires |EncodeChar(c)| == 4
    ensures CharLength(EncodeChar(c)) == |EncodeChar(c)|
  {
    hide CharLength;
    var n := c as int;
    assert 0x10000 <= n < 0x11_0000;
    var s := EncodeChar(c);
    assert s[0] == 0xF0 ==> 0x90 <= s[1];
    assert s[0] == 0xF4 ==> s[1] <= 0x8F;
    FourByteLength(s);
  }

  lemma FourByteLength(s: seq<Byte>)
    requires |s| == 4 && 0xF0 <= s[0] <= 0xF4 && IsContinuation(s[1]) && IsContinuation(s[2]) && IsContinuation(s[3])
    requires (s[0] == 0xF0 ==> 0x90 <= s[1]) && (s[0] == 0xF4 ==> s[1] <= 0x8F)
    ensures CharLength(s) == 4
  {
  }

  /** Every text encodes to valid UTF-8. */
  lemma {:induction false} EncodedIsValid(s: string)
    ensures ValidUtf8(Encode(s))
  {
    hide EncodeChar, CharLength;
    if s != "" {
      EncodedIsValid(s[1..]);
      EncodedCharIsValid(s[0], Encode(s[1..]));
      assert Encode(s)[|EncodeChar(s[0])|..] == Encode(s[1..]);
    }
  }

  lemma BoundaryPastFirst(c: char, rest: seq<Byte>, i: nat)
    requires 0 < i <= |EncodeChar(c) + rest| && IsBoundary(EncodeChar(c) + rest, i)
    ensures |EncodeChar(c)| <= i
  {
    hide EncodeChar;
    var head := EncodeChar(c);
    EncodedCharIsValid(c, rest);
    assert forall k :: 0 <= k < |head| ==> (head + rest)[k] == head[k];
  }

  /** A boundary in the encoding of a text falls between two of its characters. */
  lemma {:induction false} BoundaryIsBetweenChars(s: string, i: nat) returns (k: nat)
    requires i <= |Encode(s)| && IsBoundary(Encode(s), i)
    ensures k <= |s| && Encode(s[..k]) == Encode(s)[..i] && Encode(s[k..]) == Encode(s)[i..]
  {
    hide EncodeChar, CharLength;
    if i == 0 {
      k := 0;
      assert s[..0] == "" && s[0..] == s;
    } else {
      var head, tail := EncodeChar(s[0]), Encode(s[1..]);
      BoundaryPastFirst(s[0], tail, i);
      var j := i - |head|;
      assert j < |tail| ==> Encode(s)[i] == tail[j];
      var m := BoundaryIsBetweenChars(s[1..], j);
      k := m + 1;
      assert s[..k] == [s[0]] + s[1..][..m] && s[k..] == s[1..][m..];
      assert s[..k][1..] == s[1..][..m];
      assert Encode(s)[..i] == head + tail[..j] && Encode(s)[i..] == tail[j..];
    }
  }

  // ---- the order of encodings ------------------------------------------------------------

  /** Character by character. */
  predicate TextAtMost(a: string, b: string) {
    a == "" || (b != "" && (a[0] < b[0] || (a[0] == b[0] && TextAtMost(a[1..], b[1..]))))
  }

  /** Byte by byte, as the source compares strings. */
  predicate BytesAtMost(a: seq<Byte>, b: seq<Byte>) {
    a == [] || (b != [] && (a[0] < b[0] || (a[0] == b[0] && BytesAtMost(a[1..], b[1..]))))
  }

  lemma {:induction false} CommonLead(lead: seq<Byte>, a: seq<Byte>, b: seq<Byte>)
    ensures BytesAtMost(lead + a, lead + b) == BytesAtMost(a, b)
  {
    if lead == [] {
      assert lead + a == a && lead + b == b;
    } else {
      assert (lead + a)[1..] == lead[1..] + a && (lead + b)[1..] == lead[1..] + b;
      CommonLead(lead[1..], a, b);
    }
  }

  /** The first byte that differs decides. */
  lemma FirstDifference(a: seq<Byte>, b: seq<Byte>, k: nat)
    requires k < |a| && k < |b| && a[..k] == b[..k] && a[k] < b[k]
    ensures BytesAtMost(a, b) && !BytesAtMost(b, a)
  {
    assert a == a[..k] + a[k..] && b == a[..k] + b[k..];
    CommonLead(a[..k], a[k..], b[k..]);
    CommonLead(a[..k], b[k..], a[k..]);
  }

  /** Digits of a larger number: equal up to the first place that differs, and larger there. */
  lemma Digits(n: nat, m: nat)
    requires n < m
    ensures n / 64 < m / 64 || (n / 64 == m / 64 && n % 64 < m % 64)
  {
  }

  lemma ThreeDigits(n: nat, m: nat)
    requires n < m
    ensures n / 4096 < m / 4096
            || (n / 4096 == m / 4096
                && (n / 64 % 64 < m / 64 % 64 || (n / 64 % 64 == m / 64 % 64 && n % 64 < m % 64)))
  {
    Digits(n, m);
    DivideTwice(n);
    DivideTwice(m);
    if n / 64 < m / 64 {
      Digits(n / 64, m / 64);
    }
  }

  lemma DivideTwice(n: nat)
    ensures n / 64 / 64 == n / 4096
  {
  }

  lemma FourDigits(n: nat, m: nat)
    requires n < m
    ensures n / 262144 < m / 262144
            || (n / 262144 == m / 262144
                && (n / 4096 % 64 < m / 4096 % 64
                    || (n / 4096 % 64 == m / 4096 % 64
                        && (n / 64 % 64 < m / 64 % 64 || (n / 64 % 64 == m / 64 % 64 && n % 64 < m % 64)))))
  {
    ThreeDigits(n, m);
    DivideThrice(n);
    DivideThrice(m);
    if n / 4096 < m / 4096 {
      Digits(n / 4096, m / 4096);
    }
  }

  lemma DivideThrice(n: nat)
    ensures n / 4096 / 64 == n / 262144
  {
  }

  lemma LongerIsHigher(c: char, d: char)
    requires c < d
    ensures |EncodeChar(c)| <= |EncodeChar(d)|
    ensures |EncodeChar(c)| < |EncodeChar(d)| ==> EncodeChar(c)[0] < EncodeChar(d)[0]
  {
  }

  predicate DiffersAt(a: seq<Byte>, b: seq<Byte>, k: nat) {
    k < |a| && k < |b| && a[..k] == b[..k] && a[k] < b[k]
  }

  lemma ShortCharDiffers(c: char, d: char) returns (k: nat)
    requires c < d && |EncodeChar(c)| == |EncodeChar(d)| <= 2
    ensures DiffersAt(EncodeChar(c), EncodeChar(d), k)
  {
    Digits(c as int, d as int);
    k := if EncodeChar(c)[0] == EncodeChar(d)[0] then 1 else 0;
  }

  lemma ThreeByteCharDiffers(c: char, d: char) returns (k: nat)
    requires c < d && |EncodeChar(c)| == |EncodeChar(d)| == 3
    ensures DiffersAt(EncodeChar(c), EncodeChar(d), k)
  {
    var n, m := c as int, d as int;
    ThreeDigits(n, m);
    k := if n / 4096 != m / 4096 then 0 else if n / 64 % 64 != m / 64 % 64 then 1 else 2;
  }

  lemma FourByteCharDiffers(c: char, d: char) returns (k: nat)
    requires c < d && |EncodeChar(c)| == |EncodeChar(d)| == 4
    ensures DiffersAt(EncodeChar(c), EncodeChar(d), k)
  {
    var n, m := c as int, d as int;
    FourDigits(n, m);
    k := if n / 262144 != m / 262144 then 0
         else if n / 4096 % 64 != m / 4096 % 64 then 1
         else if n / 64 % 64 != m / 64 % 64 then 2 else 3;
  }

  lemma SmallerCharDiffers(c: char, d: char) returns (k: nat)
    requires c < d
    ensures DiffersAt(EncodeChar(c), EncodeChar(d), k)
  {
    hide EncodeChar;
    LongerIsHigher(c, d);
    if |EncodeChar(c)| < |EncodeChar(d)| {
      k := 0;
    } else if |EncodeChar(c)| <= 2 {
      k := ShortCharDiffers(c, d);
    } else if |EncodeChar(c)| == 3 {
      k := ThreeByteCharDiffers(c, d);
    } else {
      k := FourByteCharDiffers(c, d);
    }
  }

  /** The order of texts is the byte order of their encodings. */
  lemma {:induction false} TextOrderIsByteOrder(a: string, b: string)
    ensures TextAtMost(a, b) <==> BytesAtMost(Encode(a), Encode(b))
  {
    hide EncodeChar;
    if a != "" && b != "" {
      var x, y := Encode(a[1..]), Encode(b[1..]);
      if a[0] == b[0] {
        CommonLead(EncodeChar(a[0]), x, y);
        TextOrderIsByteOrder(a[1..], b[1..]);
      } else if a[0] < b[0] {
        var k := SmallerCharDiffers(a[0], b[0]);
        DifferenceStays(EncodeChar(a[0]), x, EncodeChar(b[0]), y, k);
      } else {
        var k := SmallerCharDiffers(b[0], a[0]);
        DifferenceStays(EncodeChar(b[0]), y, EncodeChar(a[0]), x, k);
      }
    }
  }

  lemma DifferenceStays(p: seq<Byte>, x: seq<Byte>, q: seq<Byte>, y: seq<Byte>, k: nat)
    requires DiffersAt(p, q, k)
    ensures BytesAtMost(p + x, q + y) && !BytesAtMost(q + y, p + x)
  {
    assert (p + x)[..k] == p[..k] && (q + y)[..k] == q[..k];
    FirstDifference(p + x, q + y, k);
  }
}
