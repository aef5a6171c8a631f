/** The DrawRenderer component: two equally sized float render targets used as a ping-pong pair. Each
    frame the draw pass reads the `previous` target's texture, renders into the `current` one, the two
    references are exchanged, and the texture just written is published. Texel contents are an
    abstract type F and the draw pass (the imported draw.frag shader) is a function of the uniforms and
    of the contents of the bound texture. */
module DrawRenderer {
  import opened Glsl
  import opened Js

  datatype TexelType = UnsignedByteTexels | FloatTexels

  /** The options a WebGLRenderTarget is created with (RGBA format throughout); an internal format of
      `Null` lets the renderer derive it from the texel type. */
  datatype TargetOptions = TargetOptions(
    texelType: TexelType,
    internalFormat: Nullable<string>,
    linearFiltering: bool,
    generateMipmaps: bool,
    depthBuffer: bool,
    stencilBuffer: bool)

  /** renderTargetParams: half-float internal storage of float texels, linear filtering, mipmaps, and
      neither depth nor stencil buffer. */
  const RenderTargetParams := TargetOptions(FloatTexels, Value("RGBA16F"), true, true, false, false)

  /** A render target: its identity, size, options and the contents of its texture. */
  datatype Target<F> = Target(id: nat, width: nat, height: nat, options: TargetOptions, texture: F)

  /** The `{ current, previous }` pair as two slots and the index of the current one. */
  datatype Pair<F> = Pair(slots: seq<Target<F>>, current: nat)
  {
    predicate Valid() {
      |slots| == 2 && current < 2 && slots[0].id != slots[1].id
    }

    function Current(): Target<F>
      requires Valid()
    {
      slots[current]
    }

    function Previous(): Target<F>
      requires Valid()
    {
      slots[1 - current]
    }
  }

  /** The renderTargets memo: rtA (current) and rtB (previous), both size x size with the same
      options and the same initial contents. */
  function CreateTargets<F>(size: nat, options: TargetOptions, blank: F): (p: Pair<F>)
    ensures p.Valid()
    ensures p.Current().width == p.Previous().width == size
    ensures p.Current().height == p.Previous().height == size
    ensures p.Current().options == p.Previous().options == options
    ensures p.Current().texture == p.Previous().texture == blank
  {
    Pair([Target(0, size, size, options, blank), Target(1, size, size, options, blank)], 0)
  }

  /** The shader uniforms other than the texture binding. */
  datatype DrawUniforms = DrawUniforms(
    radius: Vec3,
    position: Vec2,
    direction: Vec4,
    resolution: Vec3,
    sizeDamping: real,
    fadeDamping: real,
    draw: real)

  /** The material's uniforms at construction: radius (-8, 0.9, radiusSize), no position, direction
      or draw yet, and the canvas size as resolution. */
  function InitialUniforms(radiusSize: real, canvasWidth: real, canvasHeight: real, sizeDamping: real,
                           fadeDamping: real): (u: DrawUniforms)
    ensures u.radius == Vec3(-8.0, 0.9, radiusSize)
    ensures u.position == Vec2(0.0, 0.0) && u.direction == Vec4(0.0, 0.0, 0.0, 0.0) && u.draw == 0.0
    ensures u.resolution == Vec3(canvasWidth, canvasHeight, 1.0)
    ensures u.sizeDamping == sizeDamping && u.fadeDamping == fadeDamping
  {
    DrawUniforms(Vec3(-8.0, 0.9, radiusSize), Vec2(0.0, 0.0), Vec4(0.0, 0.0, 0.0, 0.0),
                 Vec3(canvasWidth, canvasHeight, 1.0), sizeDamping, fadeDamping, 0.0)
  }

  /** The radius effect: only the third radius component changes. */
  function SetRadius(u: DrawUniforms, radiusSize: real): (r: DrawUniforms)
    ensures r.radius.x == u.radius.x && r.radius.y == u.radius.y && r.radius.z == radiusSize
    ensures r.(radius := u.radius) == u
  {
    u.(radius := u.radius.(z := radiusSize))
  }

  /** Re-setting the radius of freshly built uniforms gives the uniforms built with that radius. */
  lemma SetRadiusOfInitial(r1: real, r2: real, w: real, h: real, sd: real, fd: real)
    ensures SetRadius(InitialUniforms(r1, w, h, sd, fd), r2) == InitialUniforms(r2, w, h, sd, fd)
  {
  }

  /** The input effect: position, direction and draw amount follow the props; nothing else changes. */
  function SyncInputs(u: DrawUniforms, position: Vec2, direction: Vec4, draw: real): (r: DrawUniforms)
    ensures r.position == position && r.direction == direction && r.draw == draw
    ensures r.(position := u.position, direction := u.direction, draw := u.draw) == u
  {
    u.(position := position, direction := direction, draw := draw)
  }

  /** The renderer: the pair, the uniforms and the id of the target whose texture uTexture binds. */
  datatype DrawState<F> = DrawState(pair: Pair<F>, uniforms: DrawUniforms, bound: nat)

  /** The renderer as first mounted: uTexture binds the previous target. */
  function InitialState<F>(size: nat, blank: F, uniforms: DrawUniforms): (s: DrawState<F>)
    ensures s.pair.Valid() && s.bound == s.pair.Previous().id
    ensures s.pair == CreateTargets(size, RenderTargetParams, blank)
  {
    var p := CreateTargets(size, RenderTargetParams, blank);
    DrawState(p, uniforms, p.Previous().id)
  }

  /** What a frame did: the targets read and written, and the texture handed to onTextureUpdate. */
  datatype FrameResult<F> = FrameResult(next: DrawState<F>, read: nat, write: nat, published: Target<F>)

  /** The useFrame callback: bind the previous texture, clear the current target and render into it
      (so its old contents do not matter), exchange the references, publish the target written. */
  function Step<F>(s: DrawState<F>, shade: (DrawUniforms, F) -> F): (r: FrameResult<F>)
    requires s.pair.Valid()
    ensures r.next.pair.Valid()
    ensures r.read == s.pair.Previous().id && r.write == s.pair.Current().id && r.read != r.write
    ensures r.next.bound == r.read && r.next.uniforms == s.uniforms
    ensures r.next.pair.current == 1 - s.pair.current
    ensures r.next.pair.slots[s.pair.current]
         == s.pair.Current().(texture := shade(s.uniforms, s.pair.Previous().texture))
    ensures r.next.pair.slots[1 - s.pair.current] == s.pair.Previous()
    ensures r.published == r.next.pair.Previous() && r.published.id == r.write
  {
    var c := s.pair.current;
    var written := s.pair.Current().(texture := shade(s.uniforms, s.pair.Previous().texture));
    var slots := s.pair.slots[c := written];
    var next := Pair(slots, 1 - c);
    FrameResult(DrawState(next, s.uniforms, s.pair.Previous().id), s.pair.Previous().id, written.id, written)
  }

  /** The identities, sizes and options of the two slots: everything but the contents. */
  function Shape<F>(p: Pair<F>): (shape: seq<(nat, nat, nat, TargetOptions)>)
    ensures |shape| == |p.slots|
  {
    seq(|p.slots|, i requires 0 <= i < |p.slots| =>
      (p.slots[i].id, p.slots[i].width, p.slots[i].height, p.slots[i].options))
  }

  /** n frames with fixed uniforms. */
  function Run<F>(s: DrawState<F>, shade: (DrawUniforms, F) -> F, n: nat): (r: DrawState<F>)
    requires s.pair.Valid()
    ensures r.pair.Valid()
    decreases n
  {
    if n == 0 then s else Run(Step(s, shade).next, shade, n - 1)
  }

  /** Two frames restore the original roles of the two targets. */
  lemma TwoFramesRestoreRoles<F>(s: DrawState<F>, shade: (DrawUniforms, F) -> F)
    requires s.pair.Valid()
    ensures var s2 := Step(Step(s, shade).next, shade).next;
            s2.pair.current == s.pair.current
            && s2.pair.Current().id == s.pair.Current().id
            && s2.pair.Previous().id == s.pair.Previous().id
  {
  }

  /** Any number of frames keeps the same two targets, the same uniforms, and alternates the roles. */
  lemma {:induction false} RunKeepsTargets<F>(s: DrawState<F>, shade: (DrawUniforms, F) -> F, n: nat)
    requires s.pair.Valid()
    ensures Shape(Run(s, shade, n).pair) == Shape(s.pair)
    ensures Run(s, shade, n).uniforms == s.uniforms
    ensures Run(s, shade, n).pair.current == if n % 2 == 0 then s.pair.current else 1 - s.pair.current
    decreases n
  {
    if n > 0 {
      var s1 := Step(s, shade).next;
      StepKeepsShape(s, shade);
      RunKeepsTargets(s1, shade, n - 1);
    }
  }

  lemma StepKeepsShape<F>(s: DrawState<F>, shade: (DrawUniforms, F) -> F)
    requires s.pair.Valid()
    ensures Shape(Step(s, shade).next.pair) == Shape(s.pair)
  {
    var p, q := s.pair, Step(s, shade).next.pair;
    assert forall i :: 0 <= i < 2 ==> Shape(q)[i] == Shape(p)[i];
  }

  /** `shade` with fixed uniforms, applied n times. */
  function Iterate<F>(shade: (DrawUniforms, F) -> F, u: DrawUniforms, n: nat, x: F): F
  {
    if n == 0 then x else shade(u, Iterate(shade, u, n - 1, x))
  }

  /** The feedback law: after n frames the texture the next frame reads, which is the one the n-th
      frame published, holds the draw pass applied n times to the initial previous texture. */
  lemma {:induction false} RunIsFeedback<F>(s: DrawState<F>, shade: (DrawUniforms, F) -> F, n: nat)
    requires s.pair.Valid()
    ensures Run(s, shade, n).pair.Previous().texture
         == Iterate(shade, s.uniforms, n, s.pair.Previous().texture)
    ensures 0 < n ==> Step(Run(s, shade, n - 1), shade).published == Run(s, shade, n).pair.Previous()
    decreases n
  {
    if n > 0 {
      var s1 := Step(s, shade).next;
      RunIsFeedback(s1, shade, n - 1);
      IterateShift(shade, s.uniforms, n - 1, s.pair.Previous().texture);
      RunSplit(s, shade, n);
    }
  }

  /** Applying the pass once more at the inside is the same as once more at the outside. */
  lemma {:induction false} IterateShift<F>(shade: (DrawUniforms, F) -> F, u: DrawUniforms, n: nat, x: F)
    ensures Iterate(shade, u, n, shade(u, x)) == Iterate(shade, u, n + 1, x)
  {
    if n > 0 {
      IterateShift(shade, u, n - 1, x);
    }
  }

  /** The last of n frames is a step from the state after n - 1 frames. */
  lemma {:induction false} RunSplit<F>(s: DrawState<F>, shade: (DrawUniforms, F) -> F, n: nat)
    requires s.pair.Valid() && 0 < n
    ensures Run(s, shade, n) == Step(Run(s, shade, n - 1), shade).next
    decreases n
  {
    if n > 1 {
      RunSplit(Step(s, shade).next, shade, n - 1);
    }
  }
}
