/** The vector records and scalar built-ins the shaders of the heat pipeline use, over exact reals.
    Min, Max, Clamp, Mix and Smoothstep follow their definitions in section 8.3 (Common Functions)
    of the OpenGL ES Shading Language specification; where that section leaves a result undefined
    (clamp with minVal > maxVal, smoothstep with edge0 >= edge1) the function requires the opposite. */
module Glsl {

  datatype Vec2 = Vec2(x: real, y: real)

  datatype Vec3 = Vec3(x: real, y: real, z: real)

  /** A four-component value; as a texel, x, y, z, w are the r, g, b, a channels. */
  datatype Vec4 = Vec4(x: real, y: real, z: real, w: real)

  /** len is length(v) as section 8.5 (Geometric Functions) defines it: the non-negative square root
      of the sum of the squared components. Square roots are never computed in this model; a length
      is an input that satisfies this relation. */
  predicate IsLength(len: real, v: Vec2) {
    0.0 <= len && len * len == v.x * v.x + v.y * v.y
  }

  /** A vector has one length: two non-negative reals with the same square are equal. */
  lemma {:induction false} LengthUnique(l1: real, l2: real, v: Vec2)
    requires IsLength(l1, v) && IsLength(l2, v)
    ensures l1 == l2
  {
    SquareInjective(l1, l2, v.x * v.x + v.y * v.y);
  }

  lemma {:induction false} SquareInjective(a: real, b: real, sq: real)
    requires 0.0 <= a && 0.0 <= b && a * a == sq && b * b == sq
    ensures a == b
  {
    if a < b {
      SquareLess(a, b);
      assert false;
    } else if b < a {
      SquareLess(b, a);
      assert false;
    }
  }

  /** Squaring is strictly increasing on the non-negative reals. */
  lemma {:induction false} SquareLess(a: real, b: real)
    requires 0.0 <= a < b
    ensures a * a < b * b
  {
    assert b * b - a * a == (b - a) * (b + a);
    MulLtRight(b - a, 0.0, b + a);
  }

  /** min(x, y): y when y < x, otherwise x. */
  function Min(x: real, y: real): (r: real)
    ensures r <= x && r <= y
    ensures r == x || r == y
  {
    if y < x then y else x
  }

  /** max(x, y): y when x < y, otherwise x. */
  function Max(x: real, y: real): (r: real)
    ensures r >= x && r >= y
    ensures r == x || r == y
  {
    if x < y then y else x
  }

  /** clamp(x, minVal, maxVal) = min(max(x, minVal), maxVal). */
  function Clamp(x: real, lo: real, hi: real): (r: real)
    requires lo <= hi
    ensures lo <= r <= hi
    ensures lo <= x <= hi ==> r == x
    ensures x < lo ==> r == lo
    ensures hi < x ==> r == hi
  {
    Min(Max(x, lo), hi)
  }

  /** mix(x, y, a) = x * (1 - a) + y * a: the linear blend of x and y by a. */
  function Mix(x: real, y: real, a: real): (r: real)
    ensures a == 0.0 ==> r == x
    ensures a == 1.0 ==> r == y
    ensures x == y ==> r == x
    ensures 0.0 <= a <= 1.0 ==> Min(x, y) <= r <= Max(x, y)
  {
    MixIsAffine(x, y, a);
    x * (1.0 - a) + y * a
  }

  /** mix on three components with one blend factor. */
  function Mix3(x: Vec3, y: Vec3, a: real): (r: Vec3)
    ensures r.x == Mix(x.x, y.x, a) && r.y == Mix(x.y, y.y, a) && r.z == Mix(x.z, y.z, a)
  {
    Vec3(Mix(x.x, y.x, a), Mix(x.y, y.y, a), Mix(x.z, y.z, a))
  }

  /** For a blend factor in [0, 1], mix is non-decreasing in both end points. */
  lemma MixMonotone(x1: real, y1: real, x2: real, y2: real, a: real)
    requires 0.0 <= a <= 1.0 && x1 <= x2 && y1 <= y2
    ensures Mix(x1, y1, a) <= Mix(x2, y2, a)
  {
    var b := 1.0 - a;
    MulLeRight(b, x1, x2);
    MulLeRight(a, y1, y2);
    SumLe(b * x1, b * x2, a * y1, a * y2);
    assert Mix(x1, y1, a) == b * x1 + a * y1;
    assert Mix(x2, y2, a) == b * x2 + a * y2;
  }

  lemma SumLe(p: real, q: real, r: real, s: real)
    requires p <= q && r <= s
    ensures p + r <= q + s
  {
  }

  /** What a fragment shader's main() does: discard the fragment, or write gl_FragColor. */
  datatype Fragment = Discard | Emit(color: Vec4)

  /** A product of two non-negative reals is non-negative. */
  lemma MulNonneg(a: real, b: real)
    requires 0.0 <= a && 0.0 <= b
    ensures 0.0 <= a * b
  {
  }

  /** Multiplying both sides of b <= c by a non-negative a keeps the order. */
  lemma MulLeRight(a: real, b: real, c: real)
    requires 0.0 <= a && b <= c
    ensures a * b <= a * c
  {
    MulNonneg(a, c - b);
  }

  /** Multiplying both sides of b < c by a positive a keeps the strict order. */
  lemma MulLtRight(a: real, b: real, c: real)
    requires 0.0 < a && b < c
    ensures a * b < a * c
  {
    assert a * c - a * b == a * (c - b);
  }

  /** A fraction a in [0, 1] of a non-negative b is at most b. */
  lemma FractionOf(a: real, b: real)
    requires 0.0 <= a <= 1.0 && 0.0 <= b
    ensures a * b <= b
  {
    MulNonneg(1.0 - a, b);
  }

  /** The blend moves from x towards y by the fraction a of their gap. */
  lemma MixIsAffine(x: real, y: real, a: real)
    ensures x * (1.0 - a) + y * a == x + a * (y - x)
    ensures 0.0 <= a <= 1.0 ==> Min(x, y) <= x + a * (y - x) <= Max(x, y)
  {
    if 0.0 <= a <= 1.0 {
      if x <= y {
        MulNonneg(a, y - x);
        MulNonneg(1.0 - a, y - x);
      } else {
        MulNonneg(a, x - y);
        MulNonneg(1.0 - a, x - y);
      }
    }
  }

  /** The Hermite polynomial t * t * (3 - 2t) that smoothstep applies to its clamped parameter. */
  function Hermite(t: real): (r: real)
    requires 0.0 <= t <= 1.0
    ensures 0.0 <= r <= 1.0
    ensures t == 0.0 ==> r == 0.0
    ensures t == 1.0 ==> r == 1.0
  {
    assert 1.0 - t * t * (3.0 - 2.0 * t) == (1.0 - t) * (1.0 - t) * (1.0 + 2.0 * t);
    MulNonneg(t, t);
    MulNonneg(t * t, 3.0 - 2.0 * t);
    MulNonneg(1.0 - t, 1.0 - t);
    MulNonneg((1.0 - t) * (1.0 - t), 1.0 + 2.0 * t);
    t * t * (3.0 - 2.0 * t)
  }

  /** The difference of two Hermite values factors through the difference of their arguments. */
  lemma HermiteDifference(t: real, u: real)
    ensures u * u * (3.0 - 2.0 * u) - t * t * (3.0 - 2.0 * t)
         == (u - t) * (3.0 * (u + t) - 2.0 * (u * u + u * t + t * t))
  {
  }

  /** The second factor of that difference is non-negative on [0, 1]. */
  lemma HermiteSlope(t: real, u: real)
    requires 0.0 <= t <= 1.0 && 0.0 <= u <= 1.0
    ensures 0.0 <= 3.0 * (u + t) - 2.0 * (u * u + u * t + t * t)
  {
    var ut := u * t;
    assert t * u == ut;
    FractionOf(u, u);
    FractionOf(t, t);
    FractionOf(t, u);
    FractionOf(u, t);
    LinearSlope(u, t, u * u, ut, t * t);
  }

  lemma LinearSlope(u: real, t: real, uu: real, ut: real, tt: real)
    requires uu <= u && tt <= t && ut <= u && ut <= t
    ensures 0.0 <= 3.0 * (u + t) - 2.0 * (uu + ut + tt)
  {
  }

  /** The Hermite polynomial is non-decreasing on [0, 1]. */
  lemma {:induction false} HermiteMonotone(t: real, u: real)
    requires 0.0 <= t <= u <= 1.0
    ensures Hermite(t) <= Hermite(u)
  {
    HermiteDifference(t, u);
    HermiteSlope(t, u);
    MulNonneg(u - t, 3.0 * (u + t) - 2.0 * (u * u + u * t + t * t));
  }

  /** Dividing by a positive d keeps the sign of n and compares it with 1 as n compares with d. */
  lemma DivideByPositive(n: real, d: real)
    requires 0.0 < d
    ensures n <= 0.0 ==> n / d <= 0.0
    ensures d <= n ==> 1.0 <= n / d
    ensures n < d ==> n / d < 1.0
  {
    var q := n / d;
    MultiplyQuotient(n, d);
    if d <= n && q < 1.0 {
      MulLtRight(d, q, 1.0);
      assert false;
    }
    if n < d && 1.0 <= q {
      MulLeRight(d, 1.0, q);
      assert false;
    }
  }

  lemma ScaleThenDivide(a: real, d: real)
    requires d != 0.0
    ensures a * d / d == a
  {
  }

  lemma MultiplyQuotient(n: real, d: real)
    requires d != 0.0
    ensures d * (n / d) == n
  {
  }

  /** The parameter smoothstep feeds to the Hermite polynomial. */
  function SmoothParam(e0: real, e1: real, x: real): (t: real)
    requires e0 < e1
    ensures 0.0 <= t <= 1.0
    ensures x <= e0 ==> t == 0.0
    ensures e1 <= x ==> t == 1.0
  {
    var q := (x - e0) / (e1 - e0);
    DivideByPositive(x - e0, e1 - e0);
    Clamp(q, 0.0, 1.0)
  }

  /** smoothstep(edge0, edge1, x): t = clamp((x - edge0) / (edge1 - edge0), 0, 1); t * t * (3 - 2t). */
  function Smoothstep(e0: real, e1: real, x: real): (r: real)
    requires e0 < e1
    ensures 0.0 <= r <= 1.0
    ensures x <= e0 ==> r == 0.0
    ensures e1 <= x ==> r == 1.0
  {
    Hermite(SmoothParam(e0, e1, x))
  }

  /** smoothstep is non-decreasing in x. */
  lemma {:induction false} SmoothstepMonotone(e0: real, e1: real, x: real, y: real)
    requires e0 < e1
    requires x <= y
    ensures Smoothstep(e0, e1, x) <= Smoothstep(e0, e1, y)
  {
    var qx := (x - e0) / (e1 - e0);
    var qy := (y - e0) / (e1 - e0);
    assert qx <= qy by {
      assert qy - qx == (y - x) / (e1 - e0);
    }
    HermiteMonotone(SmoothParam(e0, e1, x), SmoothParam(e0, e1, y));
  }
}
