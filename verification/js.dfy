/** The few JavaScript number and string operations the pipeline relies on, over exact reals:
    Math.round, Math.floor, the % operator, the ToUint8 conversion a Uint8Array store performs,
    Number.prototype.toString(16) on integers and String.prototype.padStart. */
module Js {

  import Glsl

  /** A value of type `T | null`. */
  datatype Nullable<+T> = Null | Value(value: T)
  {
    /** `this || fallback` for an object-or-null value. */
    function Or(fallback: T): (r: T)
      ensures Value? ==> r == value
      ensures Null? ==> r == fallback
    {
      match this
      case Value(v) => v
      case Null => fallback
    }
  }

  /** Math.floor. */
  function Floor(x: real): (r: int)
    ensures r as real <= x < r as real + 1.0
  {
    x.Floor
  }

  /** Math.round: the nearest integer, halves rounded towards +Infinity. */
  function Round(x: real): (r: int)
    ensures x - 0.5 < r as real <= x + 0.5
  {
    (x + 0.5).Floor
  }

  /** The integer part of x, rounded towards zero. */
  function Trunc(x: real): (r: int)
    ensures 0.0 <= x ==> 0.0 <= r as real <= x < r as real + 1.0
    ensures x < 0.0 ==> r as real - 1.0 < x <= r as real <= 0.0
  {
    if 0.0 <= x then x.Floor else -((-x).Floor)
  }

  /** x % m: the remainder of a quotient truncated towards zero, so it has the sign of x. */
  function Rem(x: real, m: real): (r: real)
    requires 0.0 < m
    ensures 0.0 <= x ==> 0.0 <= r < m
    ensures x < 0.0 ==> -m < r <= 0.0
    ensures IsInteger((x - r) / m)
  {
    var q := Trunc(x / m);
    var k := q as real * m;
    RemBounds(x, m, q);
    MultipleOver(q, m, x, k);
    x - k
  }

  /** Removing the remainder leaves q times m, whose quotient by m is the integer q. */
  lemma MultipleOver(q: int, m: real, x: real, k: real)
    requires 0.0 < m && k == q as real * m
    ensures IsInteger((x - (x - k)) / m)
  {
    assert x - (x - k) == k;
    Glsl.ScaleThenDivide(q as real, m);
    assert k / m == q as real;
  }

  predicate IsInteger(v: real) {
    v.Floor as real == v
  }

  lemma RemBounds(x: real, m: real, q: int)
    requires 0.0 < m
    requires q == Trunc(x / m)
    ensures 0.0 <= x ==> 0.0 <= x - q as real * m < m
    ensures x < 0.0 ==> -m < x - q as real * m <= 0.0
  {
    var d := x / m;
    DivideThenMultiply(x, m);
    if 0.0 <= x {
      Glsl.DivideByPositive(-x, m);
      assert 0.0 <= d;
      RemCore(x, m, d, q as real, q as real + 1.0);
      assert (q as real + 1.0) * m == q as real * m + m;
    } else {
      Glsl.DivideByPositive(x, m);
      assert d <= 0.0;
      RemCore(x, m, d, q as real - 1.0, q as real);
      assert (q as real - 1.0) * m == q as real * m - m;
    }
  }

  lemma DivideThenMultiply(x: real, m: real)
    requires m != 0.0
    ensures (x / m) * m == x
  {
  }

  lemma RemCore(x: real, m: real, d: real, lo: real, hi: real)
    requires 0.0 < m && x == d * m
    requires lo <= d <= hi
    ensures lo * m <= x <= hi * m
    ensures lo < d ==> lo * m < x
    ensures d < hi ==> x < hi * m
  {
    ScaleBetween(lo, d, hi, m);
  }

  /** Scaling by a positive m keeps a <= b < c and a < b <= c. */
  lemma ScaleBetween(a: real, b: real, c: real, m: real)
    requires 0.0 < m && a <= b <= c
    ensures a < b ==> a * m < b * m
    ensures a * m <= b * m <= c * m
    ensures b < c ==> b * m < c * m
  {
    Glsl.MulLeRight(m, a, b);
    Glsl.MulLeRight(m, b, c);
    if a < b { Glsl.MulLtRight(m, a, b); }
    if b < c { Glsl.MulLtRight(m, b, c); }
  }

  /** ToUint8, the conversion a store into a Uint8Array applies: truncate, then reduce modulo 256. */
  function ToUint8(x: real): (r: int)
    ensures 0 <= r < 256
    ensures 0.0 <= x < 256.0 ==> r == x.Floor
  {
    Trunc(x) % 256
  }

  /** The lower-case digit for a value below 16, as toString(16) writes it. */
  function HexDigit(d: int): (c: char)
    requires 0 <= d < 16
    ensures IsLowerHexDigit(c)
  {
    "0123456789abcdef"[d]
  }

  predicate IsLowerHexDigit(c: char) {
    '0' <= c <= '9' || 'a' <= c <= 'f'
  }

  /** The base-16 numeral of a natural number, most significant digit first, without leading zeros. */
  function ToBase16(n: nat): (s: string)
    ensures 1 <= |s|
    ensures n < 16 <==> |s| == 1
    ensures n < 256 ==> |s| <= 2
    ensures forall i :: 0 <= i < |s| ==> IsLowerHexDigit(s[i])
  {
    if n < 16 then [HexDigit(n)] else ToBase16(n / 16) + [HexDigit(n % 16)]
  }

  /** Number.prototype.toString(16) applied to an integer. */
  function IntToString16(n: int): (s: string)
    ensures 0 <= n ==> s == ToBase16(n)
    ensures n < 0 ==> s == "-" + ToBase16(-n)
  {
    if n < 0 then "-" + ToBase16(-n) else ToBase16(n)
  }

  /** String.prototype.padStart(width, fill) with a one-character fill. */
  function PadStart(s: string, width: nat, fill: char): (r: string)
    ensures |r| == if |s| < width then width else |s|
    ensures r[|r| - |s|..] == s
    ensures forall i :: 0 <= i < |r| - |s| ==> r[i] == fill
    decreases width - |s|
  {
    if |s| < width then
      var r := PadStart([fill] + s, width, fill);
      PadOne(r, s, fill);
      r
    else
      s
  }

  /** A string ending in fill + s, with fill before that, ends in s with fill before it. */
  lemma PadOne(r: string, s: string, fill: char)
    requires |s| + 1 <= |r|
    requires r[|r| - (|s| + 1)..] == [fill] + s
    requires forall i :: 0 <= i < |r| - (|s| + 1) ==> r[i] == fill
    ensures r[|r| - |s|..] == s
    ensures forall i :: 0 <= i < |r| - |s| ==> r[i] == fill
  {
    var k := |r| - (|s| + 1);
    assert r[k] == ([fill] + s)[0];
    assert r[k + 1..] == r[k..][1..];
  }
}
