/** The AppleExactHeatmap component, a self-contained copy of the heat pipeline. Each modelled piece
    (the pointer maps, the accumulator, the ping-pong step, hexToRGB, the camera fit, and the
    AppleHeatMesh panel defaults, material and frame refresh) is written out again here as that file
    has it, and its contract shows it computes what the canonical piece in Scene, DrawRenderer or
    HeatMesh computes. The one real difference is the render targets: they
    hold unsigned bytes with three.js' default options instead of the half-float parameters. */
module AppleExactHeatmap {
  import opened Glsl
  import opened Js
  import Scene
  import DrawRenderer
  import HeatMesh

  /** handleDOMPointerMove's coordinates: offset by the rectangle's corner, divide by its size,
      then centre and double, inverting y. */
  function Normalize(rect: Scene.Rect, client: Vec2): (p: Vec2)
    requires rect.HasArea()
    ensures Scene.ScreenFromSigned(rect, p) == client
    ensures p == Scene.Normalize(rect, client)
  {
    var cx, cy := client.x - rect.x, client.y - rect.y;
    var nx, ny := cx / rect.width, cy / rect.height;
    Vec2(2.0 * (nx - 0.5), 2.0 * -(ny - 0.5))
  }

  /** drawPosition: (0.5 x + 0.5, 0.5 y + 0.5). */
  function DrawPosition(mouse: Vec2): (p: Vec2)
    ensures Scene.SignedFromDraw(p) == mouse
    ensures p == Scene.DrawPosition(mouse)
  {
    Vec2(0.5 * mouse.x + 0.5, 0.5 * mouse.y + 0.5)
  }

  /** The useFrame accumulator update, as this file writes it. */
  function HeatStep(heat: real, hold: bool, c: Scene.HeatControls, delta: real): (h: real)
    ensures hold ==> h <= Scene.MaxHeat
    ensures !hold && heat <= 0.0 ==> h == heat
    ensures h == Scene.HeatStep(heat, hold, c, delta)
  {
    if hold then
      Min(1.3, heat + c.sensitivity * delta * 60.0)
    else if heat > 0.0 then
      var decayed := heat * c.decay;
      if decayed < 0.001 then 0.0 else decayed
    else
      heat
  }

  /** handleDOMPointerMove: records the pointer and sets hold on every move. */
  function PointerMove(s: Scene.SceneState, rect: Scene.Rect, client: Vec2): (r: Scene.SceneState)
    requires rect.HasArea()
    ensures r.hold && r.heat == s.heat && r.heatAmount == s.heatAmount
    ensures r == Scene.PointerMove(s, rect, client)
  {
    s.(mouse := Normalize(rect, client), hold := true)
  }

  /** handleDOMPointerLeave: clears hold only; the heat is left to decay. */
  function PointerLeave(s: Scene.SceneState): (r: Scene.SceneState)
    ensures !r.hold && r.heat == s.heat && r.heatAmount == s.heatAmount && r.mouse == s.mouse
    ensures r == Scene.PointerLeave(s)
  {
    s.(hold := false)
  }

  /** The useFrame callback: the accumulator moves and is republished unless the frame is idle. */
  function Frame(s: Scene.SceneState, c: Scene.HeatControls, delta: real): (r: Scene.SceneState)
    ensures r.mouse == s.mouse && r.hold == s.hold
    ensures !s.hold && s.heat <= 0.0 ==> r == s
    ensures r == Scene.Frame(s, c, delta)
  {
    if s.hold || s.heat > 0.0 then
      var h := HeatStep(s.heat, s.hold, c, delta);
      s.(heat := h, heatAmount := h)
    else
      s
  }

  function Apply(s: Scene.SceneState, rect: Scene.Rect, c: Scene.HeatControls, e: Scene.Input): Scene.SceneState
    requires rect.HasArea()
  {
    match e
    case Move(client) => PointerMove(s, rect, client)
    case Leave => PointerLeave(s)
    case HoldExpired => s.(hold := false)
    case Tick(delta) => Frame(s, c, delta)
  }

  function Run(s: Scene.SceneState, rect: Scene.Rect, c: Scene.HeatControls, es: seq<Scene.Input>): Scene.SceneState
    requires rect.HasArea()
    decreases |es|
  {
    if |es| == 0 then s else Run(Apply(s, rect, c, es[0]), rect, c, es[1..])
  }

  /** Over any sequence of pointer events, hold expiries and frames, this copy and the canonical
      scene go through the same states. */
  lemma {:induction false} RunIsCanonical(s: Scene.SceneState, rect: Scene.Rect, c: Scene.HeatControls,
                                          es: seq<Scene.Input>)
    requires rect.HasArea()
    ensures Run(s, rect, c, es) == Scene.Run(s, rect, c, es)
    decreases |es|
  {
    if |es| > 0 {
      assert Apply(s, rect, c, es[0]) == Scene.Apply(s, rect, c, es[0]);
      RunIsCanonical(Apply(s, rect, c, es[0]), rect, c, es[1..]);
    }
  }

  /** The copy keeps the canonical accumulator bound: from a bounded state the heat stays in
      [0, MaxHeat] and is published as is. */
  lemma RunStaysBounded(s: Scene.SceneState, rect: Scene.Rect, c: Scene.HeatControls, es: seq<Scene.Input>)
    requires rect.HasArea() && Scene.Bounded(s)
    requires 0.0 <= c.sensitivity && 0.0 <= c.decay <= 1.0
    requires Scene.NonNegativeTicks(es)
    ensures Scene.Bounded(Run(s, rect, c, es))
  {
    RunIsCanonical(s, rect, c, es);
    Scene.RunStaysBounded(s, rect, c, es);
  }

  /** The targets' options: linear filtering and RGBA format, everything else left to three.js'
      defaults (unsigned bytes, no mipmaps, a depth buffer, no stencil buffer). */
  const RenderTargetOptions := DrawRenderer.TargetOptions(DrawRenderer.UnsignedByteTexels, Null, true, false, true, false)

  /** The renderer as first mounted: rtA current and rtB previous, both size x size with the same
      options, and uTexture bound to the previous one. */
  function InitialState<F>(size: nat, blank: F, uniforms: DrawRenderer.DrawUniforms): (s: DrawRenderer.DrawState<F>)
    ensures s.pair.Valid() && s.bound == s.pair.Previous().id
    ensures s.pair.Current().width == s.pair.Previous().width == size
    ensures s.pair.Current().height == s.pair.Previous().height == size
    ensures s.pair.Current().options == s.pair.Previous().options == RenderTargetOptions
  {
    var p := DrawRenderer.Pair([DrawRenderer.Target(0, size, size, RenderTargetOptions, blank),
                                DrawRenderer.Target(1, size, size, RenderTargetOptions, blank)], 0);
    DrawRenderer.DrawState(p, uniforms, 1)
  }

  /** The only difference from the canonical renderer: the targets' options. */
  lemma InitialStateDiffersInOptionsOnly<F>(size: nat, blank: F, uniforms: DrawRenderer.DrawUniforms)
    ensures InitialState(size, blank, uniforms).pair == DrawRenderer.CreateTargets(size, RenderTargetOptions, blank)
    ensures InitialState(size, blank, uniforms)
         == DrawRenderer.InitialState(size, blank, uniforms).(pair := DrawRenderer.CreateTargets(size, RenderTargetOptions, blank))
    ensures RenderTargetOptions != DrawRenderer.RenderTargetParams
  {
  }

  /** The useFrame callback: bind previous, render into current, swap the references, publish the
      target rendered into. */
  function Step<F>(s: DrawRenderer.DrawState<F>, shade: (DrawRenderer.DrawUniforms, F) -> F): (r: DrawRenderer.FrameResult<F>)
    requires s.pair.Valid()
    ensures r.read != r.write && r.published.id == r.write
    ensures r == DrawRenderer.Step(s, shade)
  {
    var currentTarget, previousTarget := s.pair.slots[s.pair.current], s.pair.slots[1 - s.pair.current];
    var rendered := currentTarget.(texture := shade(s.uniforms, previousTarget.texture));
    var swapped := DrawRenderer.Pair(s.pair.slots[s.pair.current := rendered], 1 - s.pair.current);
    DrawRenderer.FrameResult(DrawRenderer.DrawState(swapped, s.uniforms, previousTarget.id),
                             previousTarget.id, currentTarget.id, rendered)
  }

  /** hexToRGB, as this file writes it: the same pattern, each group parsed and divided by 255. */
  function HexToRgb(hex: string): (c: Vec3)
    ensures c == HeatMesh.HexToRgb(hex)
    ensures !HeatMesh.IsHexColor(hex) ==> c == Vec3(0.0, 0.0, 0.0)
  {
    match HeatMesh.Exec(hex)
    case Some(g) =>
      Vec3(HeatMesh.ParseHexPair(g.red) as real / 255.0, HeatMesh.ParseHexPair(g.green) as real / 255.0,
           HeatMesh.ParseHexPair(g.blue) as real / 255.0)
    case None => Vec3(0.0, 0.0, 0.0)
  }

  /** The camera fit, as this file writes it. */
  function FitFrustum(width: real, height: real): (f: Scene.Frustum)
    requires 0.0 < width && 0.0 < height
    ensures f.right == -f.left && f.top == -f.bottom && f.near == -1.0 && f.far == 1.0
    ensures f == Scene.FitFrustum(width, height)
  {
    var aspect := width / height;
    if aspect >= 1.0 then
      Scene.Frustum(-aspect / 2.0, aspect / 2.0, 1.0 / 2.0, -1.0 / 2.0, -1.0, 1.0)
    else
      Scene.Frustum(-1.0 / 2.0, 1.0 / 2.0, (1.0 / aspect) / 2.0, -(1.0 / aspect) / 2.0, -1.0, 1.0)
  }

  /** The "Heat Map" panel of AppleHeatMesh, as this file declares it: the same initial values as the
      canonical mesh's panel, so every colour parses and the first is black. */
  function PanelDefaults(): (c: HeatMesh.Controls)
    ensures c == HeatMesh.DefaultControls
    ensures forall i :: 0 <= i < 7 ==> HeatMesh.IsHexColor(c.Colors()[i])
    ensures HexToRgb(c.color1) == Vec3(0.0, 0.0, 0.0)
  {
    HeatMesh.DefaultColorsParse();
    HeatMesh.Controls(
      0.8, 1.0, Vec2(1.0, 1.0), Vec2(0.0, 0.0),
      "#000000", "#073dff", "#53d5fd", "#fefcdd", "#ffec6a", "#f9d400", "#a61904",
      Vec4(0.4, 0.7, 0.81, 0.91), Vec4(1.0, 1.0, 0.72, 0.52), Vec4(0.8, 0.87, 0.5, 0.27))
  }

  /** AppleHeatMesh's material memo, as this file writes it: each colour through this file's hexToRGB,
      the video texture when there is one and the mask otherwise. It packs exactly the canonical
      mesh's uniforms. */
  function Material<T>(c: HeatMesh.Controls, drawTexture: Nullable<T>, videoTexture: Nullable<T>, mask: T)
    : (u: HeatMesh.Uniforms<T>)
    ensures u == HeatMesh.Material(c, drawTexture, videoTexture, mask)
    ensures forall i :: 0 <= i < 7 ==> u.colors[i] == HeatMesh.HexToRgb(c.Colors()[i])
    ensures videoTexture.Null? ==> u.textureMap == mask
  {
    var colors := seq(7, i requires 0 <= i < 7 => HexToRgb(c.Colors()[i]));
    var textureMap := match videoTexture case Value(v) => v case Null => mask;
    var u := HeatMesh.Uniforms(1.0, drawTexture, textureMap, mask, c.scale, c.offset, c.opacity, 1.0, colors,
                               c.blend, c.fade, c.power, 0.0, c.maxBlend, Vec4(0.0, 0.0, 0.0, 1.02),
                               Vec4(1.0, 1.0, 0.0, 0.0));
    u
  }

  /** AppleHeatMesh's frame callback, as this file writes it: a fresh random value and amount 1, the
      same refresh as the canonical mesh's. */
  function Refresh<T>(u: HeatMesh.Uniforms<T>, random: real): (r: HeatMesh.Uniforms<T>)
    ensures r == HeatMesh.Refresh(u, random)
    ensures r.rnd == random && r.amount == 1.0 && r.colors == u.colors && r.textureMap == u.textureMap
  {
    u.(rnd := random).(amount := 1.0)
  }
}
