/** The AppleStyleHeatmap component: an event-driven heat accumulator with gesture handlers, a draw
    pass that would reuse the HeatmapRenderer kernel on fixed 256 x 256 float targets, and the heat
    fragment kernel that discards outside the logo mask and blends white towards warm and hot
    colours. The draw pass's mesh ref is never attached, so its frame callback returns at once and
    no draw texture is ever published: the heat kernel reads the mask in its place (UnwiredDrawMap).
    The GLSL random() value and pow(uAmount, uPower) are inputs of the kernel. */
module AppleStyleHeatmap {
  import opened Glsl
  import opened Js
  import Scene
  import DrawRenderer
  import HeatmapRenderer

  // ---------------------------------------------------------------------------------------------
  // Event-driven heat

  /** The heat added by each move while holding, and the factor a frame without hold applies. */
  const HeatRate: real := 0.05
  const DecayRate: real := 0.95

  /** The Scene component's state: the mouse, isHolding, heatAccumulator and the published
      heatAmount. */
  datatype HoldState = HoldState(mouse: Vec2, holding: bool, acc: real, amount: real)

  const InitialHold := HoldState(Vec2(0.0, 0.0), false, 0.0, 0.0)

  /** handleGestureMove: the mouse follows the gesture; while holding, the accumulator grows by
      HeatRate and the published amount is the accumulator capped at MaxHeat. The accumulator itself
      is not capped. */
  function Move(s: HoldState, p: Vec2): (r: HoldState)
    ensures r.mouse == p && r.holding == s.holding
    ensures !s.holding ==> r == s.(mouse := p)
    ensures s.holding ==> r.acc == s.acc + HeatRate && r.amount <= Scene.MaxHeat && r.amount <= r.acc
    ensures s.holding ==> (r.amount == r.acc || r.amount == Scene.MaxHeat)
  {
    if s.holding then
      var acc := s.acc + HeatRate;
      s.(mouse := p, acc := acc, amount := Min(1.3, acc))
    else
      s.(mouse := p)
  }

  /** handleGestureDown and handleGestureUp only toggle isHolding. */
  function Down(s: HoldState): (r: HoldState)
    ensures r.holding && r.(holding := s.holding) == s
  {
    s.(holding := true)
  }

  function Up(s: HoldState): (r: HoldState)
    ensures !r.holding && r.(holding := s.holding) == s
  {
    s.(holding := false)
  }

  /** handleGestureLeave: stop holding and drop all heat. */
  function Leave(s: HoldState): (r: HoldState)
    ensures !r.holding && r.acc == 0.0 && r.amount == 0.0 && r.mouse == s.mouse
  {
    s.(holding := false, acc := 0.0, amount := 0.0)
  }

  /** The useFrame callback: without hold and with heat published, the accumulator decays by
      DecayRate and is published as is, with no cap and no cut-off; otherwise nothing changes. */
  function Frame(s: HoldState): (r: HoldState)
    ensures !s.holding && 0.0 < s.amount ==> r.acc == DecayRate * s.acc && r.amount == r.acc
    ensures s.holding || s.amount <= 0.0 ==> r == s
    ensures r.mouse == s.mouse && r.holding == s.holding
    ensures 0.0 < s.acc ==> 0.0 < r.acc
  {
    if !s.holding && s.amount > 0.0 then
      var acc := s.acc * 0.95;
      s.(acc := acc, amount := acc)
    else
      s
  }

  /** The callbacks and frames the scene reacts to. */
  datatype Event = GestureMove(p: Vec2) | GestureDown | GestureUp | GestureLeave | Tick

  function Apply(s: HoldState, e: Event): HoldState {
    match e
    case GestureMove(p) => Move(s, p)
    case GestureDown => Down(s)
    case GestureUp => Up(s)
    case GestureLeave => Leave(s)
    case Tick => Frame(s)
  }

  function Run(s: HoldState, es: seq<Event>): HoldState
    decreases |es|
  {
    if |es| == 0 then s else Run(Apply(s, es[0]), es[1..])
  }

  /** What every event keeps: the published amount is non-negative and never above the
      accumulator. */
  predicate Ordered(s: HoldState) {
    0.0 <= s.amount <= s.acc
  }

  lemma {:induction false} RunKeepsOrdered(s: HoldState, es: seq<Event>)
    requires Ordered(s)
    ensures Ordered(Run(s, es))
    decreases |es|
  {
    if |es| > 0 {
      var s' := Apply(s, es[0]);
      assert Ordered(s');
      RunKeepsOrdered(s', es[1..]);
    }
  }

  /** n frames in a row. */
  function Frames(s: HoldState, n: nat): HoldState
    decreases n
  {
    if n == 0 then s else Frame(Frames(s, n - 1))
  }

  /** Once released with heat published, the heat decays geometrically and never reaches zero: every
      later frame publishes a positive amount. */
  lemma {:induction false} DecayNeverQuiesces(s: HoldState, n: nat)
    requires !s.holding && 0.0 < s.amount && 0.0 < s.acc
    ensures Frames(s, n).acc == s.acc * Scene.Pow(DecayRate, n)
    ensures 0.0 < Frames(s, n).acc && 0.0 < Frames(s, n).amount && !Frames(s, n).holding
    ensures 0 < n ==> Frames(s, n).amount == Frames(s, n).acc
    decreases n
  {
    if n > 0 {
      DecayNeverQuiesces(s, n - 1);
      var prev := Frames(s, n - 1);
      var p := Scene.Pow(DecayRate, n - 1);
      assert prev.acc == s.acc * p;
      assert Frames(s, n).acc == DecayRate * (s.acc * p);
      assert Scene.Pow(DecayRate, n) == DecayRate * p;
    } else {
      assert s.acc * 1.0 == s.acc;
    }
  }

  /** n moves at the same point. */
  function Moves(s: HoldState, p: Vec2, n: nat): HoldState
    decreases n
  {
    if n == 0 then s else Move(Moves(s, p, n - 1), p)
  }

  /** While holding, n moves add n times HeatRate to the accumulator. */
  lemma {:induction false} MovesWhileHolding(s: HoldState, p: Vec2, n: nat)
    requires s.holding
    ensures Moves(s, p, n).holding
    ensures Moves(s, p, n).acc == s.acc + HeatRate * n as real
    ensures 0 < n ==> Moves(s, p, n).amount == Min(Scene.MaxHeat, Moves(s, p, n).acc)
    decreases n
  {
    if n > 0 {
      MovesWhileHolding(s, p, n - 1);
    }
  }

  /** As written, the cap is lost on release: press, 30 moves and a release leave the accumulator at
      1.5, and the next frame publishes 0.95 * 1.5 = 1.425, above MaxHeat. */
  lemma ReleaseExceedsCap(p: Vec2)
    ensures var held := Moves(Down(InitialHold), p, 30);
            held.acc == 1.5 && held.amount == Scene.MaxHeat
            && Frame(Up(held)).amount == 1.425 && Frame(Up(held)).amount > Scene.MaxHeat
  {
    MovesWhileHolding(Down(InitialHold), p, 30);
  }

  /** The corrected move: the accumulator itself is capped at MaxHeat, as the canonical scene caps
      its heat, and published as is. */
  function CappedMove(s: HoldState, p: Vec2): (r: HoldState)
    ensures r.mouse == p && r.holding == s.holding
    ensures !s.holding ==> r == s.(mouse := p)
    ensures s.holding ==> r.amount == r.acc && r.acc <= Scene.MaxHeat
    ensures s.holding && s.acc + HeatRate <= Scene.MaxHeat ==> r.acc == s.acc + HeatRate
  {
    if s.holding then
      var acc := Min(1.3, s.acc + HeatRate);
      s.(mouse := p, acc := acc, amount := acc)
    else
      s.(mouse := p)
  }

  function CappedApply(s: HoldState, e: Event): HoldState {
    match e
    case GestureMove(p) => CappedMove(s, p)
    case GestureDown => Down(s)
    case GestureUp => Up(s)
    case GestureLeave => Leave(s)
    case Tick => Frame(s)
  }

  function CappedRun(s: HoldState, es: seq<Event>): HoldState
    decreases |es|
  {
    if |es| == 0 then s else CappedRun(CappedApply(s, es[0]), es[1..])
  }

  /** The intended invariant: the published amount is the accumulator, within [0, MaxHeat]. */
  predicate Capped(s: HoldState) {
    0.0 <= s.acc <= Scene.MaxHeat && s.amount == s.acc
  }

  /** With the corrected move, every sequence of gestures and frames from a capped state (the
      initial one included) publishes only amounts in [0, MaxHeat]. */
  lemma {:induction false} CappedRunStaysCapped(s: HoldState, es: seq<Event>)
    requires Capped(s)
    ensures Capped(CappedRun(s, es))
    ensures 0.0 <= CappedRun(s, es).amount <= Scene.MaxHeat
    decreases |es|
  {
    if |es| > 0 {
      var s' := CappedApply(s, es[0]);
      assert Capped(s');
      CappedRunStaysCapped(s', es[1..]);
    }
  }

  // ---------------------------------------------------------------------------------------------
  // Draw pass

  /** The draw targets' side: both are 256 x 256. */
  const DrawSize: nat := 256

  /** The draw radius: 220 pixels per 1000 pixels of the resolution's height. */
  function DrawRadius(height: real): (r: real)
    ensures r * 1000.0 == 220.0 * height
    ensures r == HeatmapRenderer.RadiusSize(false, height, 1000.0)
  {
    220.0 * (height / 1000.0)
  }

  /** rtA and rtB: float texels with linear filtering, the options the HeatmapRenderer targets use. */
  function DrawTargets<F>(blank: F): (p: DrawRenderer.Pair<F>)
    ensures p.Valid()
    ensures p.Current().width == p.Previous().width == DrawSize
    ensures p.Current().height == p.Previous().height == DrawSize
    ensures p.Current().options == p.Previous().options == HeatmapRenderer.HeatTargetOptions
    ensures p == HeatmapRenderer.AllocateTargets(DrawSize, DrawSize, blank)
  {
    DrawRenderer.Pair([DrawRenderer.Target(0, DrawSize, DrawSize, HeatmapRenderer.HeatTargetOptions, blank),
                       DrawRenderer.Target(1, DrawSize, DrawSize, HeatmapRenderer.HeatTargetOptions, blank)], 0)
  }

  /** The draw material's uniforms: a 256 x 256 resolution whatever the resolution prop, the radius
      from the prop's height, and otherwise the HeatmapRenderer's initial values. */
  function DrawUniforms(resolution: Vec2): (u: DrawRenderer.DrawUniforms)
    ensures u.radius == Vec3(0.0, 0.5, DrawRadius(resolution.y))
    ensures u.resolution == Vec3(256.0, 256.0, 1.0)
    ensures u == HeatmapRenderer.InitialUniforms(256.0, 256.0, false, 1000.0).(radius := u.radius)
    ensures 0.0 < resolution.y ==> HeatmapRenderer.WellFormed(u)
  {
    DrawRenderer.DrawUniforms(Vec3(0.0, 0.5, 220.0 * (resolution.y / 1000.0)), Vec2(0.5, 0.5),
                              Vec4(0.0, 0.0, 0.0, 100.0), Vec3(256.0, 256.0, 1.0), 1.0, 0.95, 0.0)
  }

  /** The draw kernel (the same GLSL as the HeatmapRenderer's) under this component's uniforms: with
      the constant direction it never displaces, so red and green are the previous texel's faded by
      0.95 and clamped, blue gains the draw amount times the brush weight, and alpha is 1. */
  lemma DrawKernelOfScene(resolution: Vec2, position: Vec2, amount: real, vUv: Vec2, d: real,
                          sample: HeatmapRenderer.Sampler)
    requires 0.0 < resolution.y
    requires HeatmapRenderer.IsKernelDistance(
               DrawRenderer.SyncInputs(DrawUniforms(resolution), position, Scene.DrawDirection, amount), vUv, d)
    ensures var u := DrawRenderer.SyncInputs(DrawUniforms(resolution), position, Scene.DrawDirection, amount);
            var prev := sample(vUv);
            HeatmapRenderer.WellFormed(u)
            && HeatmapRenderer.DrawFragment(u, vUv, d, sample)
               == Vec4(Clamp(prev.x * 0.95, -1.0, 1.0), Clamp(prev.y * 0.95, -1.0, 1.0),
                       prev.z * 0.95 + amount * HeatmapRenderer.Weight(u, d), 1.0)
  {
    var u := DrawRenderer.SyncInputs(DrawUniforms(resolution), position, Scene.DrawDirection, amount);
    HeatmapRenderer.SceneDirectionIsStill(u, vUv, d, sample);
  }

  // ---------------------------------------------------------------------------------------------
  // Heat fragment kernel

  /** The heat material's uniforms that the kernel reads or declares. */
  datatype HeatUniforms = HeatUniforms(
    amount: real, opacity: real, power: real, rnd: real,
    scale: Vec2, offset: Vec2, heat: Vec4, stretch: Vec4)

  /** The heat material at construction; uRnd is the `Math.random()` drawn then, here an input. */
  function InitialHeatUniforms(random: real): HeatUniforms {
    HeatUniforms(1.0, 0.8, 1.0, random, Vec2(1.0, 1.0), Vec2(0.0, 0.0),
                 Vec4(0.1, 0.3, 0.05, 0.2), Vec4(0.0, 1.0, 0.0, 1.0))
  }

  const White := Vec3(1.0, 1.0, 1.0)
  const Warm := Vec3(1.0, 0.8, 0.4)
  const Hot := Vec3(1.0, 0.4, 0.1)

  /** The uv the mask is sampled at: scaled about the centre, then offset. */
  function ScaledUv(u: HeatUniforms, uv: Vec2): (p: Vec2)
    ensures u.scale == Vec2(1.0, 1.0) && u.offset == Vec2(0.0, 0.0) ==> p == uv
  {
    Vec2((uv.x - 0.5) * u.scale.x + 0.5 + u.offset.x, (uv.y - 0.5) * u.scale.y + 0.5 + u.offset.y)
  }

  /** heatValue = mix(uHeat.x, uHeat.y, b): between the two bounds for an intensity in [0, 1]. */
  function HeatValue(u: HeatUniforms, b: real): (v: real)
    ensures 0.0 <= b <= 1.0 ==> Min(u.heat.x, u.heat.y) <= v <= Max(u.heat.x, u.heat.y)
    ensures b == 0.0 ==> v == u.heat.x
    ensures b == 1.0 ==> v == u.heat.y
  {
    Mix(u.heat.x, u.heat.y, b)
  }

  /** The colour before noise: white, blended towards warm above 0.1 and then towards hot above 0.5.
      Red stays exactly 1, and green and blue fall from white towards hot, blue never above green. */
  function BaseColor(v: real): (c: Vec3)
    ensures c.x == 1.0
    ensures Hot.y <= c.y <= 1.0 && Hot.z <= c.z <= c.y
    ensures v <= 0.1 ==> c == White
    ensures v <= 0.5 ==> Warm.y <= c.y && Warm.z <= c.z
  {
    var warmed := if v > 0.1 then Mix3(White, Warm, Smoothstep(0.1, 0.5, v)) else White;
    BlendBounds(White, Warm, Smoothstep(0.1, 0.5, v));
    var heated := if v > 0.5 then Mix3(warmed, Hot, Smoothstep(0.5, 1.0, v)) else warmed;
    BlendBounds(warmed, Hot, Smoothstep(0.5, 1.0, v));
    heated
  }

  /** Blending towards a colour with red 1 and green above blue keeps red at 1 and keeps every
      channel between its two end points, blue never above green. */
  lemma BlendBounds(x: Vec3, y: Vec3, a: real)
    requires 0.0 <= a <= 1.0
    ensures x.x == 1.0 && y.x == 1.0 ==> Mix3(x, y, a).x == 1.0
    ensures Min(x.y, y.y) <= Mix3(x, y, a).y <= Max(x.y, y.y)
    ensures Min(x.z, y.z) <= Mix3(x, y, a).z <= Max(x.z, y.z)
    ensures x.z <= x.y && y.z <= y.y ==> Mix3(x, y, a).z <= Mix3(x, y, a).y
  {
    if x.z <= x.y && y.z <= y.y {
      MixMonotone(x.z, y.z, x.y, y.y, a);
    }
  }

  /** The heat kernel's main(): discard where the mask's alpha is below 0.1; otherwise the base
      colour of the heat value read from the draw texture's blue channel, plus noise * heatValue * 0.3
      on every channel, with alpha mask * uOpacity * pow(uAmount, uPower). `random` is the value of
      random(uv + uRnd) and `powered` that of pow(uAmount, uPower). */
  function HeatFragment(u: HeatUniforms, uv: Vec2, mask: HeatmapRenderer.Sampler, draw: HeatmapRenderer.Sampler,
                        random: real, powered: real): (f: Fragment)
    ensures f.Discard? <==> mask(ScaledUv(u, uv)).w < 0.1
    ensures f.Emit? ==>
              var v, m := HeatValue(u, draw(uv).z), mask(ScaledUv(u, uv)).w;
              var glow := random * 0.1 * v * 0.3;
              f.color == Vec4(BaseColor(v).x + glow, BaseColor(v).y + glow, BaseColor(v).z + glow,
                              m * u.opacity * powered)
  {
    var m := mask(ScaledUv(u, uv)).w;
    if m < 0.1 then
      Discard
    else
      var v := HeatValue(u, draw(uv).z);
      var noise := random * 0.1;
      var c := BaseColor(v);
      var glow := noise * v * 0.3;
      Emit(Vec4(c.x + glow, c.y + glow, c.z + glow, m * u.opacity * powered))
  }

  /** uStretch only feeds a stretched uv that nothing reads: the kernel does not depend on it. */
  lemma StretchUnused(u: HeatUniforms, s: Vec4, uv: Vec2, mask: HeatmapRenderer.Sampler,
                      draw: HeatmapRenderer.Sampler, random: real, powered: real)
    ensures HeatFragment(u.(stretch := s), uv, mask, draw, random, powered)
         == HeatFragment(u, uv, mask, draw, random, powered)
  {
    assert ScaledUv(u.(stretch := s), uv) == ScaledUv(u, uv);
    assert HeatValue(u.(stretch := s), draw(uv).z) == HeatValue(u, draw(uv).z);
  }

  /** uDrawTexture: the published draw texture, or the mask while there is none. */
  function DrawMap(drawTexture: Nullable<HeatmapRenderer.Sampler>, mask: HeatmapRenderer.Sampler)
    : (s: HeatmapRenderer.Sampler)
    ensures drawTexture.Null? ==> s == mask
    ensures drawTexture.Value? ==> s == drawTexture.value
  {
    drawTexture.Or(mask)
  }

  /** The draw pass never publishes a texture, so the material is built with the mask as its draw
      map: every kept fragment's heat value comes from the mask's own blue channel at the unscaled
      uv, and its colour is the base colour of that value plus the noise. */
  lemma UnwiredDrawMap(u: HeatUniforms, uv: Vec2, mask: HeatmapRenderer.Sampler, random: real, powered: real)
    ensures var f := HeatFragment(u, uv, mask, DrawMap(Null, mask), random, powered);
            && (f.Discard? <==> mask(ScaledUv(u, uv)).w < 0.1)
            && (f.Emit? ==>
                  var v := HeatValue(u, mask(uv).z);
                  var glow := random * 0.1 * v * 0.3;
                  f.color == Vec4(BaseColor(v).x + glow, BaseColor(v).y + glow, BaseColor(v).z + glow,
                                  mask(ScaledUv(u, uv)).w * u.opacity * powered))
  {
  }

  /** With the material's initial heat range [0.1, 0.3] and a blue intensity in [0, 1], the heat
      value never passes 0.5: no fragment reaches the hot stage, and before noise every kept
      fragment is white or warmed white, with red 1, green at least 0.8 and blue at least 0.4. */
  lemma InitialRangeNeverHot(random: real, b: real)
    requires 0.0 <= b <= 1.0
    ensures var v := HeatValue(InitialHeatUniforms(random), b);
            0.1 <= v <= 0.3
            && BaseColor(v).x == 1.0 && 0.8 <= BaseColor(v).y && 0.4 <= BaseColor(v).z
  {
  }
}
