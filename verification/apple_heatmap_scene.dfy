/** The AppleHeatmapScene component: pointer positions normalised by the viewport, the same
    event-driven heat accumulator as AppleStyleHeatmap but without a leave handler and with a
    max(0, .) on the decayed value, the logo kernel with its mask discard, and the generated
    heat-noise texture. Sines, cosines, GLSL random() and pow() results are inputs. */
module AppleHeatmapScene {
  import opened Glsl
  import opened Js
  import Scene
  import HeatmapRenderer
  import AppleStyleHeatmap

  type HoldState = AppleStyleHeatmap.HoldState

  // ---------------------------------------------------------------------------------------------
  // Pointer normalisation

  /** The viewport's size in world units. */
  datatype Viewport = Viewport(width: real, height: real)
  {
    predicate HasArea() {
      0.0 < width && 0.0 < height
    }
  }

  /** handlePointerMove's coordinates: the hit point divided by half the viewport on each axis. */
  function Normalize(point: Vec2, v: Viewport): (n: Vec2)
    requires v.HasArea()
    ensures n.x * (v.width / 2.0) == point.x && n.y * (v.height / 2.0) == point.y
    ensures -v.width / 2.0 <= point.x <= v.width / 2.0 <==> -1.0 <= n.x <= 1.0
    ensures -v.height / 2.0 <= point.y <= v.height / 2.0 <==> -1.0 <= n.y <= 1.0
  {
    HalfSpan(point.x, v.width / 2.0);
    HalfSpan(point.y, v.height / 2.0);
    Vec2(point.x / (v.width / 2.0), point.y / (v.height / 2.0))
  }

  /** Dividing by a positive half-width h maps [-h, h] onto [-1, 1] and nothing else into it. */
  lemma HalfSpan(a: real, h: real)
    requires 0.0 < h
    ensures a / h * h == a
    ensures -h <= a <= h <==> -1.0 <= a / h <= 1.0
  {
    DivideByPositive(a, h);
    DivideByPositive(-a, h);
    assert -a / h == -(a / h);
  }

  /** The inverse of Normalize: the hit point with the given normalised coordinates. */
  function WorldPoint(n: Vec2, v: Viewport): (point: Vec2)
  {
    Vec2(n.x * (v.width / 2.0), n.y * (v.height / 2.0))
  }

  lemma NormalizeRoundTrip(n: Vec2, v: Viewport)
    requires v.HasArea()
    ensures Normalize(WorldPoint(n, v), v) == n
    ensures WorldPoint(Normalize(n, v), v) == n
  {
    ScaleThenDivide(n.x, v.width / 2.0);
    ScaleThenDivide(n.y, v.height / 2.0);
  }

  // ---------------------------------------------------------------------------------------------
  // Event-driven heat

  /** handlePointerMove: the mouse follows the pointer; while holding, the accumulator grows by
      0.05 and the published amount is the accumulator capped at 1.3. */
  function Move(s: HoldState, point: Vec2, v: Viewport): (r: HoldState)
    requires v.HasArea()
    ensures r == AppleStyleHeatmap.Move(s, Normalize(point, v))
    ensures !s.holding ==> r == s.(mouse := Normalize(point, v))
  {
    var mouse := Normalize(point, v);
    if s.holding then
      var acc := s.acc + 0.05;
      s.(mouse := mouse, acc := acc, amount := Min(1.3, acc))
    else
      s.(mouse := mouse)
  }

  /** The useFrame callback: without hold and with heat published, the accumulator decays by 0.95
      and max(0, accumulator) is published; otherwise nothing changes. */
  function Frame(s: HoldState): (r: HoldState)
    ensures !s.holding && 0.0 < s.amount ==> r.acc == 0.95 * s.acc && r.amount == Max(0.0, r.acc)
    ensures s.holding || s.amount <= 0.0 ==> r == s
    ensures !s.holding && 0.0 < s.amount ==> 0.0 <= r.amount
    ensures r.mouse == s.mouse && r.holding == s.holding
  {
    if !s.holding && s.amount > 0.0 then
      var acc := s.acc * 0.95;
      s.(acc := acc, amount := Max(0.0, acc))
    else
      s
  }

  /** On a non-negative accumulator the max(0, .) never acts: the frame is AppleStyleHeatmap's. */
  lemma FrameIsStyleFrame(s: HoldState)
    requires 0.0 <= s.acc
    ensures Frame(s) == AppleStyleHeatmap.Frame(s)
  {
  }

  datatype Event = PointerMove(point: Vec2) | PointerDown | PointerUp | Tick

  function Apply(s: HoldState, v: Viewport, e: Event): HoldState
    requires v.HasArea()
  {
    match e
    case PointerMove(point) => Move(s, point, v)
    case PointerDown => s.(holding := true)
    case PointerUp => s.(holding := false)
    case Tick => Frame(s)
  }

  function Run(s: HoldState, v: Viewport, es: seq<Event>): HoldState
    requires v.HasArea()
    decreases |es|
  {
    if |es| == 0 then s else Run(Apply(s, v, es[0]), v, es[1..])
  }

  /** handlePointerDown and handlePointerUp set and clear holding and touch nothing else. */
  lemma PressAndReleaseKeepHeat(s: HoldState, v: Viewport)
    requires v.HasArea()
    ensures Apply(s, v, PointerDown).holding && !Apply(s, v, PointerUp).holding
    ensures Apply(s, v, PointerDown).(holding := s.holding) == s
    ensures Apply(s, v, PointerUp).(holding := s.holding) == s
  {
  }

  /** Every event keeps the published amount non-negative and at most the accumulator, so the
      published heat is never negative. */
  lemma {:induction false} RunKeepsOrdered(s: HoldState, v: Viewport, es: seq<Event>)
    requires v.HasArea() && AppleStyleHeatmap.Ordered(s)
    ensures AppleStyleHeatmap.Ordered(Run(s, v, es))
    ensures 0.0 <= Run(s, v, es).amount
    decreases |es|
  {
    if |es| > 0 {
      var s' := Apply(s, v, es[0]);
      assert AppleStyleHeatmap.Ordered(s');
      RunKeepsOrdered(s', v, es[1..]);
    }
  }

  /** n moves at the same hit point. */
  function Moves(s: HoldState, point: Vec2, v: Viewport, n: nat): HoldState
    requires v.HasArea()
    decreases n
  {
    if n == 0 then s else Move(Moves(s, point, v, n - 1), point, v)
  }

  lemma {:induction false} MovesAreStyleMoves(s: HoldState, point: Vec2, v: Viewport, n: nat)
    requires v.HasArea()
    ensures Moves(s, point, v, n) == AppleStyleHeatmap.Moves(s, Normalize(point, v), n)
    decreases n
  {
    if n > 0 {
      MovesAreStyleMoves(s, point, v, n - 1);
    }
  }

  /** As written, the cap is lost on release: press, 30 moves and a release leave the accumulator at
      1.5, and the next frame publishes max(0, 0.95 * 1.5) = 1.425, above 1.3. */
  lemma ReleaseExceedsCap(point: Vec2, v: Viewport)
    requires v.HasArea()
    ensures var pressed := AppleStyleHeatmap.InitialHold.(holding := true);
            var held := Moves(pressed, point, v, 30);
            held.acc == 1.5 && Frame(held.(holding := false)).amount == 1.425
            && Frame(held.(holding := false)).amount > Scene.MaxHeat
  {
    var pressed := AppleStyleHeatmap.InitialHold.(holding := true);
    MovesAreStyleMoves(pressed, point, v, 30);
    AppleStyleHeatmap.MovesWhileHolding(pressed, Normalize(point, v), 30);
  }

  /** The corrected scene: moves cap the accumulator itself, as AppleStyleHeatmap.CappedMove does. */
  function CappedApply(s: HoldState, v: Viewport, e: Event): HoldState
    requires v.HasArea()
  {
    match e
    case PointerMove(point) => AppleStyleHeatmap.CappedMove(s, Normalize(point, v))
    case PointerDown => s.(holding := true)
    case PointerUp => s.(holding := false)
    case Tick => Frame(s)
  }

  function CappedRun(s: HoldState, v: Viewport, es: seq<Event>): HoldState
    requires v.HasArea()
    decreases |es|
  {
    if |es| == 0 then s else CappedRun(CappedApply(s, v, es[0]), v, es[1..])
  }

  /** With capped moves, every sequence of pointer events and frames from a capped state publishes
      only amounts in [0, 1.3]. */
  lemma {:induction false} CappedRunStaysCapped(s: HoldState, v: Viewport, es: seq<Event>)
    requires v.HasArea() && AppleStyleHeatmap.Capped(s)
    ensures AppleStyleHeatmap.Capped(CappedRun(s, v, es))
    ensures 0.0 <= CappedRun(s, v, es).amount <= Scene.MaxHeat
    decreases |es|
  {
    if |es| > 0 {
      var s' := CappedApply(s, v, es[0]);
      assert AppleStyleHeatmap.Capped(s');
      CappedRunStaysCapped(s', v, es[1..]);
    }
  }

  // ---------------------------------------------------------------------------------------------
  // Logo kernel

  /** The logo material's uniforms that the kernel reads. */
  datatype LogoUniforms = LogoUniforms(
    mouse: Vec2, heatAmount: real, opacity: real, power: real,
    scale: Vec2, offset: Vec2, heatRange: Vec4, stretch: Vec4)

  const Orange := Vec3(1.0, 0.6, 0.2)

  /** mousePos = uMouse * 0.5 + 0.5: the same map as the draw position of the canonical scene. */
  function MousePosition(u: LogoUniforms): (p: Vec2)
    ensures p == Scene.DrawPosition(u.mouse)
    ensures -1.0 <= u.mouse.x <= 1.0 && -1.0 <= u.mouse.y <= 1.0 ==> 0.0 <= p.x <= 1.0 && 0.0 <= p.y <= 1.0
  {
    Vec2(u.mouse.x * 0.5 + 0.5, u.mouse.y * 0.5 + 0.5)
  }

  /** The base of the alpha's pow(): max(0, 1 - distToMouse), in [0, 1] for a distance. */
  function Reach(dist: real): (r: real)
    ensures 0.0 <= r
    ensures 0.0 <= dist ==> r <= 1.0
    ensures 1.0 <= dist ==> r == 0.0
  {
    Max(0.0, 1.0 - dist)
  }

  /** distToMouse = distance(uv, mousePos): dist is the length of the texel's separation from the
      pointer on the texture. */
  predicate IsMouseDistance(u: LogoUniforms, uv: Vec2, dist: real) {
    var p := MousePosition(u);
    IsLength(dist, Vec2(uv.x - p.x, uv.y - p.y))
  }

  /** The logo kernel's main() at distToMouse `dist`. `falloff` is the value of
      smoothstep(heatRadius, 0.0, distToMouse), whose edges are in decreasing order, so it is an
      input here; `random` is random(uv + uTime * 0.1), and `pow` is x |-> pow(x, uPower). The
      sampled heat-texture colour is never used, so the heat texture is not an input. */
  function LogoFragment(u: LogoUniforms, uv: Vec2, mask: HeatmapRenderer.Sampler, falloff: real,
                        random: real, dist: real, pow: real -> real): (f: Fragment)
    requires IsMouseDistance(u, uv, dist)
    ensures f.Discard? <==> mask(AppleStyleHeatmap.ScaledUv(Scaling(u), uv)).w < 0.1
    ensures f.Emit? ==>
              var i := falloff * u.heatAmount;
              var glow := random * 0.1 * i;
              f.color.x == 1.0 + glow
              && f.color.y == 1.0 - 0.4 * i + glow && f.color.z == 1.0 - 0.8 * i + glow
              && (0.0 <= i <= 1.0 ==> Orange.y <= f.color.y - glow <= 1.0 && Orange.z <= f.color.z - glow <= 1.0)
              && f.color.w == mask(AppleStyleHeatmap.ScaledUv(Scaling(u), uv)).w * u.opacity * pow(Reach(dist))
  {
    Shade(u, uv, mask, falloff, random, pow(Reach(dist)))
  }

  /** The kernel after the discard test, with the alpha's pow() term given. */
  function Shade(u: LogoUniforms, uv: Vec2, mask: HeatmapRenderer.Sampler, falloff: real, random: real,
                 powered: real): (f: Fragment)
    ensures f.Discard? <==> mask(AppleStyleHeatmap.ScaledUv(Scaling(u), uv)).w < 0.1
    ensures f.Emit? ==>
              var i := falloff * u.heatAmount;
              var glow := random * 0.1 * i;
              f.color.x == 1.0 + glow
              && f.color.y == 1.0 - 0.4 * i + glow && f.color.z == 1.0 - 0.8 * i + glow
              && (0.0 <= i <= 1.0 ==> Orange.y <= f.color.y - glow <= 1.0 && Orange.z <= f.color.z - glow <= 1.0)
              && f.color.w == mask(AppleStyleHeatmap.ScaledUv(Scaling(u), uv)).w * u.opacity * powered
  {
    var m := mask(AppleStyleHeatmap.ScaledUv(Scaling(u), uv)).w;
    if m < 0.1 then
      Discard
    else
      var i := falloff * u.heatAmount;
      var c := Mix3(Vec3(1.0, 1.0, 1.0), Orange, i);
      var noise := random * 0.1;
      Emit(Vec4(c.x + noise * i, c.y + noise * i, c.z + noise * i, m * u.opacity * powered))
  }

  /** Texels a texture-width or more from the pointer are transparent whenever pow(0, uPower) is 0,
      as it is for any positive uPower. */
  lemma FarFromMouseTransparent(u: LogoUniforms, uv: Vec2, mask: HeatmapRenderer.Sampler, falloff: real,
                                random: real, dist: real, pow: real -> real)
    requires IsMouseDistance(u, uv, dist) && 1.0 <= dist && pow(0.0) == 0.0
    ensures LogoFragment(u, uv, mask, falloff, random, dist, pow).Emit? ==>
              LogoFragment(u, uv, mask, falloff, random, dist, pow).color.w == 0.0
  {
    assert Reach(dist) == 0.0;
  }

  /** The texel under the pointer is at distance 0, so it keeps the full mask · opacity · pow(1). */
  lemma UnderMouseOpaque(u: LogoUniforms, mask: HeatmapRenderer.Sampler, falloff: real, random: real,
                         pow: real -> real)
    ensures IsMouseDistance(u, MousePosition(u), 0.0)
    ensures var uv := MousePosition(u);
            var f := LogoFragment(u, uv, mask, falloff, random, 0.0, pow);
            f.Emit? ==> f.color.w == mask(AppleStyleHeatmap.ScaledUv(Scaling(u), uv)).w * u.opacity * pow(1.0)
  {
    var p := MousePosition(u);
    assert Vec2(p.x - p.x, p.y - p.y) == Vec2(0.0, 0.0);
    assert Reach(0.0) == 1.0;
  }

  /** A texel has exactly one distance to the pointer. */
  lemma MouseDistanceUnique(u: LogoUniforms, uv: Vec2, d1: real, d2: real)
    requires IsMouseDistance(u, uv, d1) && IsMouseDistance(u, uv, d2)
    ensures d1 == d2
  {
    var p := MousePosition(u);
    LengthUnique(d1, d2, Vec2(uv.x - p.x, uv.y - p.y));
  }

  /** The mask transform of the logo uniforms, in the shape AppleStyleHeatmap.ScaledUv reads. */
  function Scaling(u: LogoUniforms): (h: AppleStyleHeatmap.HeatUniforms)
    ensures h.scale == u.scale && h.offset == u.offset
  {
    AppleStyleHeatmap.HeatUniforms(u.heatAmount, u.opacity, u.power, 0.0, u.scale, u.offset, u.heatRange, u.stretch)
  }

  /** Neither uStretch nor the heat range changes any fragment once the falloff is given. */
  lemma StretchAndRangeUnused(u: LogoUniforms, s: Vec4, range: Vec4, uv: Vec2, mask: HeatmapRenderer.Sampler,
                              falloff: real, random: real, dist: real, pow: real -> real)
    requires IsMouseDistance(u, uv, dist)
    ensures IsMouseDistance(u.(stretch := s, heatRange := range), uv, dist)
    ensures LogoFragment(u.(stretch := s, heatRange := range), uv, mask, falloff, random, dist, pow)
         == LogoFragment(u, uv, mask, falloff, random, dist, pow)
  {
    assert MousePosition(u.(stretch := s, heatRange := range)) == MousePosition(u);
    assert AppleStyleHeatmap.ScaledUv(Scaling(u.(stretch := s, heatRange := range)), uv)
        == AppleStyleHeatmap.ScaledUv(Scaling(u), uv);
  }

  // ---------------------------------------------------------------------------------------------
  // Heat-noise texture

  /** The texture's side. */
  const TextureSize: nat := 256

  /** The pixel of index i in row-major order: x = i % size, y = floor(i / size). */
  function Pixel(i: nat): (p: (nat, nat))
    ensures p.1 * TextureSize + p.0 == i && p.0 < TextureSize
    ensures i < TextureSize * TextureSize ==> p.1 < TextureSize
  {
    (i % TextureSize, i / TextureSize)
  }

  /** Different indices are different pixels. */
  lemma PixelsDistinct(i: nat, j: nat)
    requires i != j
    ensures Pixel(i) != Pixel(j)
  {
  }

  /** (noise1 + noise2) * 0.5 * 127 + 128: within [1, 255] when both noises are in [-1, 1]. */
  function Combined(noise: Vec2): (c: real)
    ensures -1.0 <= noise.x <= 1.0 && -1.0 <= noise.y <= 1.0 ==> 1.0 <= c <= 255.0
  {
    (noise.x + noise.y) * 0.5 * 127.0 + 128.0
  }

  /** The four bytes stored for a combined value: 0.9, 0.7 and 0.5 of it through the Uint8Array
      conversion, and an opaque alpha. */
  function TexelBytes(c: real): (t: seq<int>)
    ensures |t| == 4 && t[3] == 255
    ensures forall k :: 0 <= k < 4 ==> 0 <= t[k] < 256
    ensures 1.0 <= c <= 255.0 ==> t[0] == (c * 0.9).Floor && t[1] == (c * 0.7).Floor && t[2] == (c * 0.5).Floor
  {
    [ToUint8(c * 0.9), ToUint8(c * 0.7), ToUint8(c * 0.5), 255]
  }

  /** The four bytes of pixel i for the sampled noises (noise1, noise2) at each pixel. */
  function Texel(noise: (nat, nat) -> Vec2, i: nat): (t: seq<int>)
    ensures |t| == 4
  {
    var p := Pixel(i);
    TexelBytes(Combined(noise(p.0, p.1)))
  }

  /** The four bytes at index 4i of the data. */
  function TexelAt(data: seq<int>, i: nat): seq<int>
    requires 4 * i + 4 <= |data|
  {
    data[4 * i..4 * i + 4]
  }

  /** The heatTexture memo: size * size * 4 bytes, pixel i at (i % size, i / size), its red, green
      and blue from the combined noise and its alpha 255. */
  method BuildHeatTexture(noise: (nat, nat) -> Vec2) returns (data: seq<int>)
    ensures |data| == TextureSize * TextureSize * 4
    ensures forall i :: 0 <= i < TextureSize * TextureSize ==> TexelAt(data, i) == Texel(noise, i)
    ensures forall i :: 0 <= i < TextureSize * TextureSize ==> data[4 * i + 3] == 255
  {
    var n := TextureSize * TextureSize;
    data := [];
    var i := 0;
    while i < n
      invariant 0 <= i <= n
      invariant |data| == 4 * i
      invariant forall j :: 0 <= j < i ==> TexelAt(data, j) == Texel(noise, j)
    {
      var t := Texel(noise, i);
      AppendTexel(data, t, i);
      data := data + t;
      i := i + 1;
    }
    forall j | 0 <= j < n
      ensures data[4 * j + 3] == 255
    {
      assert TexelAt(data, j)[3] == data[4 * j + 3];
    }
  }

  /** Appending four bytes keeps the texels before them and adds one at index i. */
  lemma AppendTexel(data: seq<int>, t: seq<int>, i: nat)
    requires |data| == 4 * i && |t| == 4
    ensures forall j :: 0 <= j < i ==> TexelAt(data + t, j) == TexelAt(data, j)
    ensures TexelAt(data + t, i) == t
  {
    forall j | 0 <= j < i
      ensures TexelAt(data + t, j) == TexelAt(data, j)
    {
      assert (data + t)[4 * j..4 * j + 4] == data[4 * j..4 * j + 4];
    }
    assert (data + t)[4 * i..4 * i + 4] == t;
  }

  /** With noises in [-1, 1] no conversion wraps: every colour byte is the floor of its fraction of
      the combined value, and red is at least green, which is at least blue. */
  lemma TexelsDoNotWrap(noise: (nat, nat) -> Vec2, i: nat)
    requires -1.0 <= noise(Pixel(i).0, Pixel(i).1).x <= 1.0 && -1.0 <= noise(Pixel(i).0, Pixel(i).1).y <= 1.0
    ensures var c, t := Combined(noise(Pixel(i).0, Pixel(i).1)), Texel(noise, i);
            t[0] == (c * 0.9).Floor && t[1] == (c * 0.7).Floor && t[2] == (c * 0.5).Floor
            && t[2] <= t[1] <= t[0] <= 229
  {
  }
}
