/** Arithmetic on naturals: bounded products, sums of sequences. */
module Sums {
  import opened Wrappers

  function Min(x: nat, y: nat): nat {
    if x <= y then x else y
  }

  /** Subtraction that stops at zero. */
  function Monus(x: nat, y: nat): nat {
    if x < y then 0 else x - y
  }

  lemma ProductFits(b: u32, n: u32)
    ensures 0 <= b * n < 0x1_0000_0000_0000_0000
  {
    ScaleUp(b, 0xffff_ffff, n);
  }

  lemma ScaleUp(a: nat, b: nat, c: nat)
    requires a <= b
    ensures 0 <= a * c <= b * c
  {
    assert b * c - a * c == (b - a) * c;
  }

  function Sum(s: seq<nat>): nat {
    if s == [] then 0 else s[0] + Sum(s[1..])
  }

  function RealSum(s: seq<real>): real {
    if s == [] then 0.0 else s[0] + RealSum(s[1..])
  }

  lemma {:induction false} SumConcat(a: seq<nat>, b: seq<nat>)
    ensures Sum(a + b) == Sum(a) + Sum(b)
  {
    if a == [] {
      assert a + b == b;
    } else {
      assert (a + b)[1..] == a[1..] + b;
      SumConcat(a[1..], b);
    }
  }

  lemma {:induction false} SumOfConstant(s: seq<nat>, c: nat)
    requires forall i :: 0 <= i < |s| ==> s[i] == c
    ensures Sum(s) == |s| * c
  {
    if s != [] {
      SumOfConstant(s[1..], c);
      assert |s| * c == (|s| - 1) * c + c;
    }
  }

  /** A sequence of positive numbers has at most as many entries as its sum. */
  lemma {:induction false} LengthAtMostSum(s: seq<nat>)
    requires forall i :: 0 <= i < |s| ==> 1 <= s[i]
    ensures |s| <= Sum(s)
  {
    if s != [] {
      LengthAtMostSum(s[1..]);
    }
  }

  /** Pointwise domination of sums, with equality exactly for equal sequences. */
  lemma {:induction false} SumMonotone(a: seq<nat>, b: seq<nat>)
    requires |a| == |b|
    requires forall i :: 0 <= i < |a| ==> a[i] <= b[i]
    ensures Sum(a) <= Sum(b)
    ensures Sum(a) == Sum(b) <==> a == b
  {
    if a != [] {
      SumMonotone(a[1..], b[1..]);
      assert a == [a[0]] + a[1..] && b == [b[0]] + b[1..];
    }
  }
}
