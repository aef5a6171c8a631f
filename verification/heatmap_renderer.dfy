/** The HeatmapRenderer component: the draw/feedback fragment kernel written inline as GLSL, the
    mobile-aware radius formula, the allocation of its two render targets and its initial uniforms.
    The kernel is a pure function of the uniforms, the texel's uv, the aspect-corrected distance from
    the pointer, and a sampler standing for texture lookups in the previous frame. */
module HeatmapRenderer {
  import opened Glsl
  import opened Js
  import DrawRenderer
  import Scene

  type DrawUniforms = DrawRenderer.DrawUniforms

  /** A texture lookup in the previous frame, filtering and wrapping included. */
  type Sampler = Vec2 -> Vec4

  /** The uniforms for which the kernel's arithmetic is defined: no division by zero and smoothstep
      edges in increasing order. */
  predicate WellFormed(u: DrawUniforms) {
    u.resolution.x != 0.0 && u.resolution.y != 0.0 && u.radius.z != 0.0 && u.radius.x < u.radius.y
  }

  /** uResolution.x / uResolution.y. */
  function Aspect(u: DrawUniforms): (a: real)
    requires WellFormed(u)
    ensures a != 0.0 && a * u.resolution.y == u.resolution.x
  {
    var a := u.resolution.x / u.resolution.y;
    NonZeroQuotient(u.resolution.x, u.resolution.y);
    a
  }

  lemma NonZeroQuotient(n: real, d: real)
    requires n != 0.0 && d != 0.0
    ensures n / d != 0.0 && n / d * d == n
  {
  }

  /** The pointer with its y divided by the aspect ratio. */
  function AspectPosition(u: DrawUniforms): (p: Vec2)
    requires WellFormed(u)
    ensures p.x == u.position.x && p.y * Aspect(u) == u.position.y
  {
    Vec2(u.position.x, u.position.y / Aspect(u))
  }

  /** The texel's uv with its y divided by the aspect ratio. */
  function AspectUv(u: DrawUniforms, vUv: Vec2): (p: Vec2)
    requires WellFormed(u)
    ensures p.x == vUv.x && p.y * Aspect(u) == vUv.y
  {
    Vec2(vUv.x, vUv.y / Aspect(u))
  }

  /** d is distance(pos, uv) in the kernel: the length of the aspect-corrected separation of the
      texel from the pointer. */
  predicate IsKernelDistance(u: DrawUniforms, vUv: Vec2, d: real)
    requires WellFormed(u)
  {
    var p, q := AspectPosition(u), AspectUv(u, vUv);
    IsLength(d, Vec2(p.x - q.x, p.y - q.y))
  }

  /** 1 - dist: the brush weight of a texel at distance d, after the distance is measured in units of
      the radius (uRadius.z pixels of a canvas uResolution.x wide) and smoothed between uRadius.x and
      uRadius.y. */
  function Weight(u: DrawUniforms, d: real): (w: real)
    requires WellFormed(u)
    ensures 0.0 <= w <= 1.0
    ensures d / (u.radius.z / u.resolution.x) <= u.radius.x ==> w == 1.0
    ensures u.radius.y <= d / (u.radius.z / u.resolution.x) ==> w == 0.0
  {
    1.0 - Smoothstep(u.radius.x, u.radius.y, d / (u.radius.z / u.resolution.x))
  }

  /** With a positive radius and width, a texel further from the pointer never weighs more. */
  lemma {:induction false} WeightFallsOff(u: DrawUniforms, d1: real, d2: real)
    requires WellFormed(u) && 0.0 < u.radius.z && 0.0 < u.resolution.x
    requires d1 <= d2
    ensures Weight(u, d2) <= Weight(u, d1)
  {
    var scale := u.radius.z / u.resolution.x;
    DivideByPositive(-u.radius.z, u.resolution.x);
    Scene.DivideMonotone(d1, d2, scale);
    SmoothstepMonotone(u.radius.x, u.radius.y, d1 / scale, d2 / scale);
  }

  /** offset: the direction's xyz scaled by its w, negated in x, and weighted by w. */
  function Offset(u: DrawUniforms, w: real): (o: Vec2)
    ensures u.direction.w == 0.0 || (u.direction.x == 0.0 && u.direction.y == 0.0) ==> o == Vec2(0.0, 0.0)
    ensures w == 0.0 ==> o == Vec2(0.0, 0.0)
  {
    var dir := Vec3(u.direction.x * u.direction.w, u.direction.y * u.direction.w, u.direction.z * u.direction.w);
    Vec2(-dir.x * w, dir.y * w)
  }

  /** The previous frame's texel the kernel reads, displaced by a hundredth of the offset, after the
      multiplication by uFadeDamping. */
  function Faded(u: DrawUniforms, vUv: Vec2, d: real, sample: Sampler): (c: Vec4)
    requires WellFormed(u)
    ensures Offset(u, Weight(u, d)) == Vec2(0.0, 0.0) ==>
              c == Scale(sample(vUv), u.fadeDamping)
  {
    var o := Offset(u, Weight(u, d));
    Scale(sample(Vec2(vUv.x + o.x * 0.01, vUv.y + o.y * 0.01)), u.fadeDamping)
  }

  /** color *= s on all four channels. */
  function Scale(c: Vec4, s: real): (r: Vec4)
    ensures s == 1.0 ==> r == c
    ensures 0.0 <= s <= 1.0 ==> Below(r, c)
  {
    FractionOfMagnitude(c.x, s);
    FractionOfMagnitude(c.y, s);
    FractionOfMagnitude(c.z, s);
    FractionOfMagnitude(c.w, s);
    Vec4(c.x * s, c.y * s, c.z * s, c.w * s)
  }

  /** Every channel of a has at most the magnitude of the same channel of b, and the same sign. */
  predicate Below(a: Vec4, b: Vec4) {
    Shrunk(a.x, b.x) && Shrunk(a.y, b.y) && Shrunk(a.z, b.z) && Shrunk(a.w, b.w)
  }

  predicate Shrunk(a: real, b: real) {
    (0.0 <= b ==> 0.0 <= a <= b) && (b <= 0.0 ==> b <= a <= 0.0)
  }

  lemma FractionOfMagnitude(x: real, s: real)
    ensures 0.0 <= s <= 1.0 ==> Shrunk(x * s, x)
  {
    if 0.0 <= s <= 1.0 {
      if 0.0 <= x {
        FractionOf(s, x);
        MulNonneg(x, s);
      } else {
        FractionOf(s, -x);
        MulNonneg(-x, s);
      }
    }
  }

  /** The kernel's main() for a texel at distance d from the pointer: the faded previous texel,
      pushed by the offset in red and green and then clamped to [-1, 1], with uDraw times the weight
      added to blue, and an opaque alpha. */
  function DrawFragment(u: DrawUniforms, vUv: Vec2, d: real, sample: Sampler): (c: Vec4)
    requires WellFormed(u) && IsKernelDistance(u, vUv, d)
    ensures -1.0 <= c.x <= 1.0 && -1.0 <= c.y <= 1.0
    ensures c.w == 1.0
    ensures var p, o := Faded(u, vUv, d, sample), Offset(u, Weight(u, d));
            && (-1.0 <= p.x + o.x <= 1.0 ==> c.x == p.x + o.x)
            && (1.0 < p.x + o.x ==> c.x == 1.0) && (p.x + o.x < -1.0 ==> c.x == -1.0)
            && (-1.0 <= p.y + o.y <= 1.0 ==> c.y == p.y + o.y)
            && (1.0 < p.y + o.y ==> c.y == 1.0) && (p.y + o.y < -1.0 ==> c.y == -1.0)
            && c.z == p.z + u.draw * Weight(u, d)
  {
    Kernel(u, vUv, d, sample)
  }

  /** DrawFragment's computation, for any d. */
  function Kernel(u: DrawUniforms, vUv: Vec2, d: real, sample: Sampler): Vec4
    requires WellFormed(u)
  {
    var w := Weight(u, d);
    Composite(Faded(u, vUv, d, sample), Offset(u, w), u.draw, w)
  }

  /** The kernel's last steps on the faded texel p: add the offset to red and green and clamp them,
      add the draw amount times the weight to blue, and make the texel opaque. */
  function Composite(p: Vec4, o: Vec2, draw: real, w: real): (c: Vec4)
    ensures -1.0 <= c.x <= 1.0 && -1.0 <= c.y <= 1.0
    ensures c.w == 1.0 && c.z == p.z + draw * w
    ensures -1.0 <= p.x + o.x <= 1.0 ==> c.x == p.x + o.x
    ensures (1.0 < p.x + o.x ==> c.x == 1.0) && (p.x + o.x < -1.0 ==> c.x == -1.0)
    ensures -1.0 <= p.y + o.y <= 1.0 ==> c.y == p.y + o.y
    ensures (1.0 < p.y + o.y ==> c.y == 1.0) && (p.y + o.y < -1.0 ==> c.y == -1.0)
  {
    Vec4(Clamp(p.x + o.x, -1.0, 1.0), Clamp(p.y + o.y, -1.0, 1.0), p.z + draw * w, 1.0)
  }

  /** The brush adds to blue between none and all of a non-negative draw amount, and nothing
      without drawing. */
  lemma BlueGain(u: DrawUniforms, vUv: Vec2, d: real, sample: Sampler)
    requires WellFormed(u) && IsKernelDistance(u, vUv, d)
    ensures var p, c := Faded(u, vUv, d, sample), DrawFragment(u, vUv, d, sample);
            && (0.0 <= u.draw ==> p.z <= c.z <= p.z + u.draw)
            && (u.draw == 0.0 ==> c.z == p.z)
  {
    AddedDraw(u.draw, Weight(u, d));
  }

  /** A weight in [0, 1] adds between none and all of a non-negative draw amount. */
  lemma AddedDraw(draw: real, w: real)
    requires 0.0 <= w <= 1.0
    ensures 0.0 <= draw ==> 0.0 <= draw * w <= draw
    ensures draw == 0.0 ==> draw * w == 0.0
  {
    if 0.0 <= draw {
      FractionOf(w, draw);
      MulNonneg(draw, w);
    }
  }

  /** A direction with zero w, or zero x and y, displaces nothing: the kernel reads the texel's own
      uv, and red and green are only faded and clamped. */
  lemma StillDirectionReadsOwnTexel(u: DrawUniforms, vUv: Vec2, d: real, sample: Sampler)
    requires WellFormed(u) && IsKernelDistance(u, vUv, d)
    requires u.direction.w == 0.0 || (u.direction.x == 0.0 && u.direction.y == 0.0)
    ensures Faded(u, vUv, d, sample) == Scale(sample(vUv), u.fadeDamping)
    ensures var p := Scale(sample(vUv), u.fadeDamping);
            DrawFragment(u, vUv, d, sample).x == Clamp(p.x, -1.0, 1.0)
            && DrawFragment(u, vUv, d, sample).y == Clamp(p.y, -1.0, 1.0)
  {
  }

  /** No spontaneous energy: without drawing and without displacement, a fade in [0, 1] maps a texel
      whose red and green lie in [-1, 1] to the same texel scaled by the fade, so no channel grows in
      magnitude or changes sign, and a black texel stays black. */
  lemma {:induction false} NoSpontaneousEnergy(u: DrawUniforms, vUv: Vec2, d: real, sample: Sampler)
    requires WellFormed(u) && IsKernelDistance(u, vUv, d) && u.draw == 0.0 && 0.0 <= u.fadeDamping <= 1.0
    requires u.direction.w == 0.0 || (u.direction.x == 0.0 && u.direction.y == 0.0)
    requires -1.0 <= sample(vUv).x <= 1.0 && -1.0 <= sample(vUv).y <= 1.0
    ensures var prev, c := sample(vUv), DrawFragment(u, vUv, d, sample);
            && c == Scale(prev, u.fadeDamping).(w := 1.0)
            && Shrunk(c.x, prev.x) && Shrunk(c.y, prev.y) && Shrunk(c.z, prev.z)
            && (prev.x == prev.y == prev.z == 0.0 ==> c == Vec4(0.0, 0.0, 0.0, 1.0))
  {
    var prev := sample(vUv);
    StillDirectionReadsOwnTexel(u, vUv, d, sample);
    var p := Scale(prev, u.fadeDamping);
    assert Below(p, prev);
  }

  lemma DampingKeepsDistance(u: DrawUniforms, s: real, vUv: Vec2, d: real)
    requires WellFormed(u) && IsKernelDistance(u, vUv, d)
    ensures WellFormed(u.(sizeDamping := s)) && IsKernelDistance(u.(sizeDamping := s), vUv, d)
  {
    var v := u.(sizeDamping := s);
    assert Aspect(v) == Aspect(u);
    assert AspectPosition(v) == AspectPosition(u) && AspectUv(v, vUv) == AspectUv(u, vUv);
  }

  lemma DampingKeepsKernel(u: DrawUniforms, s: real, vUv: Vec2, d: real, sample: Sampler)
    requires WellFormed(u)
    ensures WellFormed(u.(sizeDamping := s))
    ensures Kernel(u.(sizeDamping := s), vUv, d, sample) == Kernel(u, vUv, d, sample)
  {
    DampingKeepsTerms(u, s, vUv, d, sample);
  }

  lemma DampingKeepsTerms(u: DrawUniforms, s: real, vUv: Vec2, d: real, sample: Sampler)
    requires WellFormed(u)
    ensures var v := u.(sizeDamping := s);
            WellFormed(v) && Weight(v, d) == Weight(u, d)
            && Offset(v, Weight(v, d)) == Offset(u, Weight(u, d))
            && Faded(v, vUv, d, sample) == Faded(u, vUv, d, sample)
  {
  }

  /** uSizeDamping is declared but never read: the kernel does not depend on it. */
  lemma SizeDampingUnused(u: DrawUniforms, s: real, vUv: Vec2, d: real, sample: Sampler)
    requires WellFormed(u) && IsKernelDistance(u, vUv, d)
    ensures WellFormed(u.(sizeDamping := s)) && IsKernelDistance(u.(sizeDamping := s), vUv, d)
    ensures DrawFragment(u.(sizeDamping := s), vUv, d, sample) == DrawFragment(u, vUv, d, sample)
  {
    DampingKeepsDistance(u, s, vUv, d);
    DampingKeepsKernel(u, s, vUv, d, sample);
  }

  /** The brush centre: the texel under the pointer (the same aspect-corrected point) is at distance
      0 (and by KernelDistanceUnique at no other), so with a non-negative inner edge its weight is 1
      and blue gains the whole draw amount. */
  lemma BrushCentre(u: DrawUniforms, vUv: Vec2, sample: Sampler)
    requires WellFormed(u) && AspectUv(u, vUv) == AspectPosition(u) && 0.0 <= u.radius.x
    ensures IsKernelDistance(u, vUv, 0.0) && Weight(u, 0.0) == 1.0
    ensures DrawFragment(u, vUv, 0.0, sample).z == Faded(u, vUv, 0.0, sample).z + u.draw
  {
    var p, q := AspectPosition(u), AspectUv(u, vUv);
    assert Vec2(p.x - q.x, p.y - q.y) == Vec2(0.0, 0.0);
    assert 0.0 / (u.radius.z / u.resolution.x) == 0.0;
  }

  /** The distance a texel is given is the only one the kernel could compute for it. */
  lemma KernelDistanceUnique(u: DrawUniforms, vUv: Vec2, d1: real, d2: real)
    requires WellFormed(u) && IsKernelDistance(u, vUv, d1) && IsKernelDistance(u, vUv, d2)
    ensures d1 == d2
  {
    var p, q := AspectPosition(u), AspectUv(u, vUv);
    LengthUnique(d1, d2, Vec2(p.x - q.x, p.y - q.y));
  }

  /** Outside the brush: a texel whose scaled distance from the pointer reaches the outer edge gains
      nothing in blue, whatever the draw amount. */
  lemma OutsideBrush(u: DrawUniforms, vUv: Vec2, d: real, sample: Sampler)
    requires WellFormed(u) && IsKernelDistance(u, vUv, d)
    requires u.radius.y <= d / (u.radius.z / u.resolution.x)
    ensures DrawFragment(u, vUv, d, sample).z == Faded(u, vUv, d, sample).z
  {
  }

  /** With the direction the Scene component supplies, the kernel never displaces. */
  lemma SceneDirectionIsStill(u: DrawUniforms, vUv: Vec2, d: real, sample: Sampler)
    requires WellFormed(u) && u.direction == Scene.DrawDirection
    ensures Offset(u, Weight(u, d)) == Vec2(0.0, 0.0)
    ensures Faded(u, vUv, d, sample) == Scale(sample(vUv), u.fadeDamping)
  {
  }

  /** radiusSize: 350 (mobile) or 220 pixels per 1000 pixels of height, scaled by radiusRatio. */
  function RadiusSize(isMobile: bool, height: real, radiusRatio: real): (r: real)
    requires radiusRatio != 0.0
    ensures r * radiusRatio == (if isMobile then 350.0 else 220.0) * height
    ensures 0.0 < height && 0.0 < radiusRatio ==> 0.0 < r
  {
    var q := height / radiusRatio;
    NonZeroSign(height, radiusRatio);
    (if isMobile then 350.0 else 220.0) * q
  }

  lemma NonZeroSign(n: real, d: real)
    requires d != 0.0
    ensures n / d * d == n
    ensures 0.0 < n && 0.0 < d ==> 0.0 < n / d
  {
  }

  /** At equal height and ratio the touch radius is 350/220 of the pointer radius. */
  lemma MobileRadiusRatio(height: real, radiusRatio: real)
    requires radiusRatio != 0.0
    ensures RadiusSize(true, height, radiusRatio) * 220.0 == RadiusSize(false, height, radiusRatio) * 350.0
  {
    var q := height / radiusRatio;
    assert RadiusSize(true, height, radiusRatio) == 350.0 * q;
    assert RadiusSize(false, height, radiusRatio) == 220.0 * q;
  }

  /** The options both targets get: float texels, linear filtering, and otherwise the three.js
      defaults (no mipmaps, a depth buffer, no stencil buffer). */
  const HeatTargetOptions := DrawRenderer.TargetOptions(DrawRenderer.FloatTexels, Null, true, false, true, false)

  /** The target memo: two targets of resolution[0] x resolution[1], A written and B read. */
  function AllocateTargets<F>(width: nat, height: nat, blank: F): (p: DrawRenderer.Pair<F>)
    ensures p.Valid()
    ensures p.Current().width == p.Previous().width == width
    ensures p.Current().height == p.Previous().height == height
    ensures p.Current().options == p.Previous().options == HeatTargetOptions
    ensures p.Current().texture == p.Previous().texture == blank
  {
    DrawRenderer.Pair([DrawRenderer.Target(0, width, height, HeatTargetOptions, blank),
                       DrawRenderer.Target(1, width, height, HeatTargetOptions, blank)], 0)
  }

  /** The material's uniforms at construction. */
  function InitialUniforms(width: real, height: real, isMobile: bool, radiusRatio: real): (u: DrawUniforms)
    requires radiusRatio != 0.0
    ensures u.radius == Vec3(0.0, 0.5, RadiusSize(isMobile, height, radiusRatio))
    ensures u.resolution == Vec3(width, height, 1.0)
    ensures u.position == Vec2(0.5, 0.5) && u.direction == Vec4(0.0, 0.0, 0.0, 100.0)
    ensures u.sizeDamping == 1.0 && u.fadeDamping == 0.95 && u.draw == 0.0
    ensures 0.0 < width && 0.0 < height && 0.0 < radiusRatio ==> WellFormed(u)
  {
    DrawRenderer.DrawUniforms(Vec3(0.0, 0.5, RadiusSize(isMobile, height, radiusRatio)), Vec2(0.5, 0.5),
                              Vec4(0.0, 0.0, 0.0, 100.0), Vec3(width, height, 1.0), 1.0, 0.95, 0.0)
  }

  /** The sync effect: position, direction, draw amount and resolution follow the props. */
  function SyncInputs(u: DrawUniforms, position: Vec2, direction: Vec4, draw: real, width: real, height: real)
    : (r: DrawUniforms)
    ensures r.position == position && r.direction == direction && r.draw == draw
    ensures r.resolution == Vec3(width, height, 1.0)
    ensures r.radius == u.radius && r.sizeDamping == u.sizeDamping && r.fadeDamping == u.fadeDamping
  {
    u.(position := position, direction := direction, draw := draw, resolution := Vec3(width, height, 1.0))
  }
}
