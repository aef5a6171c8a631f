/** The canonical heat pipeline of the Scene component: the pointer normalisation, the pointer-leave
    handler, the per-frame heat accumulator, the map into draw-buffer coordinates and the orthographic
    camera fit. Pointer events and frames are inputs; `hold` is a state bit that the events set and
    clear (the 50 ms timer that also clears it is the `HoldExpired` input). */
module Scene {
  import opened Glsl

  /** A bounding client rectangle: its top-left corner and its size. */
  datatype Rect = Rect(x: real, y: real, width: real, height: real)
  {
    predicate HasArea() {
      0.0 < width && 0.0 < height
    }

    predicate Contains(p: Vec2) {
      x <= p.x <= x + width && y <= p.y <= y + height
    }
  }

  /** The pointer position as fractions of the rectangle: (0, 0) at the top-left corner, (1, 1) at
      the bottom-right one. */
  function Fractions(rect: Rect, client: Vec2): (f: Vec2)
    requires rect.HasArea()
    ensures rect.x + f.x * rect.width == client.x
    ensures rect.y + f.y * rect.height == client.y
    ensures rect.Contains(client) <==> 0.0 <= f.x <= 1.0 && 0.0 <= f.y <= 1.0
  {
    var f := Vec2((client.x - rect.x) / rect.width, (client.y - rect.y) / rect.height);
    FractionInUnit(client.x - rect.x, rect.width);
    FractionInUnit(client.y - rect.y, rect.height);
    f
  }

  lemma FractionInUnit(n: real, d: real)
    requires 0.0 < d
    ensures n / d * d == n
    ensures 0.0 <= n <= d <==> 0.0 <= n / d <= 1.0
  {
    if 0.0 <= n / d <= 1.0 {
      MulLeRight(d, n / d, 1.0);
      MulNonneg(d, n / d);
    }
  }

  /** handleDOMPointerMove: the pointer in signed coordinates, x to the right and y upwards, with
      the rectangle spanning [-1, 1] on both axes. */
  function Normalize(rect: Rect, client: Vec2): (p: Vec2)
    requires rect.HasArea()
    ensures ScreenFromSigned(rect, p) == client
    ensures rect.Contains(client) ==> -1.0 <= p.x <= 1.0 && -1.0 <= p.y <= 1.0
  {
    var f := Fractions(rect, client);
    Vec2(2.0 * (f.x - 0.5), 2.0 * -(f.y - 0.5))
  }

  /** The inverse of Normalize: the client point that normalises to p. */
  function ScreenFromSigned(rect: Rect, p: Vec2): (client: Vec2)
  {
    Vec2(rect.x + (p.x + 1.0) / 2.0 * rect.width, rect.y + (1.0 - p.y) / 2.0 * rect.height)
  }

  /** Normalize and ScreenFromSigned are inverse bijections between the plane of client points and
      the plane of signed coordinates. */
  lemma {:induction false} SignedRoundTrip(rect: Rect, p: Vec2)
    requires rect.HasArea()
    ensures Normalize(rect, ScreenFromSigned(rect, p)) == p
  {
    var c := ScreenFromSigned(rect, p);
    var f := Fractions(rect, c);
    assert c.x - rect.x == (p.x + 1.0) / 2.0 * rect.width;
    assert c.y - rect.y == (1.0 - p.y) / 2.0 * rect.height;
    ScaleThenDivide((p.x + 1.0) / 2.0, rect.width);
    ScaleThenDivide((1.0 - p.y) / 2.0, rect.height);
  }

  /** Moving right raises x, and moving down the screen lowers y. */
  lemma {:induction false} NormalizeOrientation(rect: Rect, c1: Vec2, c2: Vec2)
    requires rect.HasArea()
    ensures c1.x < c2.x ==> Normalize(rect, c1).x < Normalize(rect, c2).x
    ensures c1.y < c2.y ==> Normalize(rect, c1).y > Normalize(rect, c2).y
  {
    DivideMonotone(c1.x - rect.x, c2.x - rect.x, rect.width);
    DivideMonotone(c1.y - rect.y, c2.y - rect.y, rect.height);
  }

  lemma DivideMonotone(a: real, b: real, d: real)
    requires 0.0 < d
    ensures a < b ==> a / d < b / d
  {
    if a < b {
      assert b / d - a / d == (b - a) / d;
    }
  }

  /** drawPosition: signed pointer coordinates to draw-buffer coordinates in [0, 1]. */
  function DrawPosition(mouse: Vec2): (p: Vec2)
    ensures SignedFromDraw(p) == mouse
    ensures -1.0 <= mouse.x <= 1.0 && -1.0 <= mouse.y <= 1.0 ==> 0.0 <= p.x <= 1.0 && 0.0 <= p.y <= 1.0
  {
    Vec2(0.5 * mouse.x + 0.5, 0.5 * mouse.y + 0.5)
  }

  /** The inverse of DrawPosition. */
  function SignedFromDraw(p: Vec2): (mouse: Vec2)
  {
    Vec2(2.0 * p.x - 1.0, 2.0 * p.y - 1.0)
  }

  lemma DrawPositionRoundTrip(p: Vec2)
    ensures DrawPosition(SignedFromDraw(p)) == p
  {
  }

  /** Composed with the normalisation, drawPosition is (nx, 1 - ny) for the pointer's fractions
      (nx, ny) of the rectangle: the y flip survives, and an in-rectangle pointer lands in [0, 1]^2. */
  lemma {:induction false} DrawPositionOfPointer(rect: Rect, client: Vec2)
    requires rect.HasArea()
    ensures DrawPosition(Normalize(rect, client))
         == Vec2(Fractions(rect, client).x, 1.0 - Fractions(rect, client).y)
    ensures rect.Contains(client) ==>
              var p := DrawPosition(Normalize(rect, client));
              0.0 <= p.x <= 1.0 && 0.0 <= p.y <= 1.0
  {
  }

  /** The cap on the heat and the level below which decaying heat snaps to zero. */
  const MaxHeat: real := 1.3
  const HeatCutoff: real := 0.001

  /** The accumulator's "Hover Heat" tunables. */
  datatype HeatControls = HeatControls(sensitivity: real, decay: real)

  const DefaultHeatControls := HeatControls(0.5, 0.95)

  /** The ranges the control panel allows. */
  predicate InControlRange(c: HeatControls) {
    0.1 <= c.sensitivity <= 2.0 && 0.8 <= c.decay <= 0.99
  }

  /** A frame while holding: the heat rises by sensitivity * delta * 60, capped at MaxHeat. */
  function Rise(heat: real, sensitivity: real, delta: real): (h: real)
    ensures h <= MaxHeat
    ensures heat <= MaxHeat && 0.0 <= sensitivity && 0.0 <= delta ==> heat <= h
    ensures delta == 0.0 && heat <= MaxHeat ==> h == heat
  {
    RiseIsNonNegative(sensitivity, delta);
    Min(MaxHeat, heat + sensitivity * delta * 60.0)
  }

  lemma RiseIsNonNegative(sensitivity: real, delta: real)
    ensures 0.0 <= sensitivity && 0.0 <= delta ==> 0.0 <= sensitivity * delta * 60.0
    ensures delta == 0.0 ==> sensitivity * delta * 60.0 == 0.0
  {
    if 0.0 <= sensitivity && 0.0 <= delta {
      MulNonneg(sensitivity, delta);
    }
  }

  /** A frame without hold on a positive heat: multiply by the decay, and snap to exactly zero when
      the product falls below HeatCutoff. */
  function Decay(heat: real, decay: real): (h: real)
    requires 0.0 < heat
    ensures h == 0.0 <==> heat * decay < HeatCutoff
    ensures h != 0.0 ==> h == heat * decay && HeatCutoff <= h
    ensures 0.0 <= decay < 1.0 ==> 0.0 <= h < heat
  {
    var decayed := heat * decay;
    DecayShrinks(heat, decay);
    if decayed < HeatCutoff then 0.0 else decayed
  }

  lemma DecayShrinks(heat: real, decay: real)
    requires 0.0 < heat
    ensures 0.0 <= decay < 1.0 ==> 0.0 <= heat * decay < heat
  {
    if 0.0 <= decay < 1.0 {
      MulNonneg(heat, decay);
      MulLtRight(heat, decay, 1.0);
    }
  }

  /** One frame of the accumulator: Rise while holding, Decay on a positive heat, otherwise idle. */
  function HeatStep(heat: real, hold: bool, c: HeatControls, delta: real): (h: real)
    ensures hold ==> h <= MaxHeat
    ensures hold && heat == MaxHeat && 0.0 <= c.sensitivity && 0.0 <= delta ==> h == MaxHeat
    ensures !hold && heat <= 0.0 ==> h == heat
    ensures !hold && 0.0 < heat && 0.0 <= c.decay < 1.0 ==> 0.0 <= h < heat
  {
    if hold then Rise(heat, c.sensitivity, delta)
    else if heat > 0.0 then Decay(heat, c.decay)
    else heat
  }

  /** The scene's pointer and heat state: the last normalised pointer, the accumulator (heatRef),
      the value published to the renderer (heatAmount) and holdRef. */
  datatype SceneState = SceneState(mouse: Vec2, heat: real, heatAmount: real, hold: bool)

  const InitialState := SceneState(Vec2(0.0, 0.0), 0.0, 0.0, false)

  /** handleDOMPointerMove: every move, whatever its distance, records the pointer and sets hold. */
  function PointerMove(s: SceneState, rect: Rect, client: Vec2): (r: SceneState)
    requires rect.HasArea()
    ensures r.hold
    ensures ScreenFromSigned(rect, r.mouse) == client
    ensures r.heat == s.heat && r.heatAmount == s.heatAmount
  {
    s.(mouse := Normalize(rect, client), hold := true)
  }

  /** handleDOMPointerLeave: clears hold and nothing else; the heat is left to decay. */
  function PointerLeave(s: SceneState): (r: SceneState)
    ensures !r.hold
    ensures r.(hold := s.hold) == s
  {
    s.(hold := false)
  }

  /** The useFrame callback: one HeatStep; heatAmount is republished whenever the accumulator rose
      or decayed. */
  function Frame(s: SceneState, c: HeatControls, delta: real): (r: SceneState)
    ensures r.mouse == s.mouse && r.hold == s.hold
    ensures r.heat == HeatStep(s.heat, s.hold, c, delta)
    ensures s.hold || 0.0 < s.heat ==> r.heatAmount == r.heat
    ensures !s.hold && s.heat <= 0.0 ==> r == s
  {
    if s.hold then
      var h := HeatStep(s.heat, true, c, delta);
      s.(heat := h, heatAmount := h)
    else if s.heat > 0.0 then
      var h := HeatStep(s.heat, false, c, delta);
      s.(heat := h, heatAmount := h)
    else
      s
  }

  /** What can happen to the scene between two renders. */
  datatype Input = Move(client: Vec2) | Leave | HoldExpired | Tick(delta: real)

  function Apply(s: SceneState, rect: Rect, c: HeatControls, e: Input): SceneState
    requires rect.HasArea()
  {
    match e
    case Move(client) => PointerMove(s, rect, client)
    case Leave => PointerLeave(s)
    case HoldExpired => s.(hold := false)
    case Tick(delta) => Frame(s, c, delta)
  }

  function Run(s: SceneState, rect: Rect, c: HeatControls, es: seq<Input>): SceneState
    requires rect.HasArea()
    decreases |es|
  {
    if |es| == 0 then s else Run(Apply(s, rect, c, es[0]), rect, c, es[1..])
  }

  /** The accumulator invariant: heat in [0, MaxHeat] and published as is. */
  predicate Bounded(s: SceneState) {
    0.0 <= s.heat <= MaxHeat && s.heatAmount == s.heat
  }

  predicate NonNegativeTicks(es: seq<Input>) {
    forall i :: 0 <= i < |es| && es[i].Tick? ==> 0.0 <= es[i].delta
  }

  /** From any bounded state (the initial one included), with a non-negative sensitivity, a decay in
      [0, 1] and non-negative frame times, the heat stays in [0, MaxHeat] over any sequence of moves,
      leaves, hold expiries and frames. */
  lemma {:induction false} RunStaysBounded(s: SceneState, rect: Rect, c: HeatControls, es: seq<Input>)
    requires rect.HasArea() && Bounded(s)
    requires 0.0 <= c.sensitivity && 0.0 <= c.decay <= 1.0
    requires NonNegativeTicks(es)
    ensures Bounded(Run(s, rect, c, es))
    decreases |es|
  {
    if |es| > 0 {
      var s' := Apply(s, rect, c, es[0]);
      if es[0].Tick? && !s.hold && s.heat > 0.0 {
        MulLeRight(s.heat, c.decay, 1.0);
        MulNonneg(s.heat, c.decay);
      }
      assert Bounded(s');
      assert NonNegativeTicks(es[1..]) by {
        forall i | 0 <= i < |es[1..]| && es[1..][i].Tick?
          ensures 0.0 <= es[1..][i].delta
        {
          assert es[1..][i] == es[i + 1];
        }
      }
      RunStaysBounded(s', rect, c, es[1..]);
    }
  }

  /** d to the n-th power. */
  function Pow(d: real, n: nat): real
  {
    if n == 0 then 1.0 else d * Pow(d, n - 1)
  }

  /** The heat after n frames without hold. */
  function DecayRun(heat: real, c: HeatControls, n: nat): real
  {
    if n == 0 then heat else HeatStep(DecayRun(heat, c, n - 1), false, c, 0.0)
  }

  /** The geometric decay heat * d^n, built one factor at a time. */
  function Geo(heat: real, d: real, n: nat): real
  {
    if n == 0 then heat else Geo(heat, d, n - 1) * d
  }

  /** The geometric decay is heat * d^n. */
  lemma {:induction false} GeoIsPow(heat: real, d: real, n: nat)
    ensures Geo(heat, d, n) == heat * Pow(d, n)
  {
    if n > 0 {
      GeoIsPow(heat, d, n - 1);
      Regroup(heat, d, Pow(d, n - 1));
    }
  }

  lemma {:induction false} GeoNonNegative(heat: real, d: real, n: nat)
    requires 0.0 <= heat && 0.0 <= d
    ensures 0.0 <= Geo(heat, d, n)
  {
    if n > 0 {
      GeoNonNegative(heat, d, n - 1);
      MulNonneg(Geo(heat, d, n - 1), d);
    }
  }

  /** Without hold the heat never exceeds its geometric decay heat * decay^n. */
  lemma {:induction false} DecayRunBound(heat: real, c: HeatControls, n: nat)
    requires 0.0 <= heat && 0.0 <= c.decay < 1.0
    ensures 0.0 <= DecayRun(heat, c, n) <= Geo(heat, c.decay, n)
  {
    if n > 0 {
      DecayRunBound(heat, c, n - 1);
      DecayRunStep(heat, c, n, Geo(heat, c.decay, n - 1));
    }
  }

  /** After at least one frame without hold the heat is either exactly zero or at least
      HeatCutoff: it never lingers in (0, HeatCutoff). */
  lemma DecayRunSnaps(heat: real, c: HeatControls, n: nat)
    requires 0.0 <= heat && 0.0 <= c.decay < 1.0 && 0 < n
    ensures DecayRun(heat, c, n) == 0.0 || HeatCutoff <= DecayRun(heat, c, n)
  {
    DecayRunBound(heat, c, n - 1);
  }

  /** The frame that ends a run of n scales an upper bound g on the run of n - 1 by the decay. */
  lemma DecayRunStep(heat: real, c: HeatControls, n: nat, g: real)
    requires 0 < n && 0.0 <= DecayRun(heat, c, n - 1) <= g && 0.0 <= c.decay < 1.0
    ensures 0.0 <= DecayRun(heat, c, n) <= g * c.decay
  {
    DecayStepBound(DecayRun(heat, c, n - 1), c, g);
  }

  /** One frame without hold scales an upper bound g by the decay. */
  lemma DecayStepBound(x: real, c: HeatControls, g: real)
    requires 0.0 <= x <= g && 0.0 <= c.decay < 1.0
    ensures 0.0 <= HeatStep(x, false, c, 0.0) <= g * c.decay
  {
    MulNonneg(g, c.decay);
    MulLeRight(c.decay, x, g);
  }

  /** While the geometric value heat * decay^n has not fallen below HeatCutoff, no snap has happened
      and the heat is exactly that value. */
  lemma {:induction false} DecayRunExact(heat: real, c: HeatControls, n: nat)
    requires 0.0 <= heat && 0.0 < c.decay < 1.0
    requires HeatCutoff <= Geo(heat, c.decay, n)
    ensures DecayRun(heat, c, n) == Geo(heat, c.decay, n)
  {
    if n > 0 {
      var g := Geo(heat, c.decay, n - 1);
      GeoNonNegative(heat, c.decay, n - 1);
      DecayExactStep(g, c);
      DecayRunExact(heat, c, n - 1);
    }
  }

  /** One decaying frame on a heat g whose product with the decay is not below the cut-off. */
  lemma DecayExactStep(g: real, c: HeatControls)
    requires 0.0 <= g && 0.0 < c.decay < 1.0 && HeatCutoff <= g * c.decay
    ensures HeatCutoff <= g
    ensures HeatStep(g, false, c, 0.0) == g * c.decay
  {
    MulLeRight(g, c.decay, 1.0);
  }

  /** heat * d^n regrouped as (heat * d^(n-1)) * d. */
  lemma Regroup(heat: real, d: real, p: real)
    ensures heat * (d * p) == (heat * p) * d
  {
  }

  lemma {:induction false} PowNonNegative(d: real, n: nat)
    requires 0.0 <= d
    ensures 0.0 <= Pow(d, n)
  {
    if n > 0 {
      PowNonNegative(d, n - 1);
      MulNonneg(d, Pow(d, n - 1));
    }
  }

  /** Powers are monotone in the base. */
  lemma {:induction false} PowMonotoneBase(d: real, e: real, n: nat)
    requires 0.0 <= d <= e
    ensures Pow(d, n) <= Pow(e, n)
  {
    if n > 0 {
      PowMonotoneBase(d, e, n - 1);
      PowNonNegative(d, n - 1);
      PowNonNegative(e, n - 1);
      MulLeRight(d, Pow(d, n - 1), Pow(e, n - 1));
      MulLeRight(Pow(e, n - 1), d, e);
      assert Pow(e, n - 1) * d == d * Pow(e, n - 1);
    }
  }

  lemma {:induction false} PowAdd(d: real, a: nat, b: nat)
    ensures Pow(d, a + b) == Pow(d, a) * Pow(d, b)
    decreases a
  {
    if a > 0 {
      PowAdd(d, a - 1, b);
      assert Pow(d, a + b) == d * Pow(d, a - 1 + b);
    }
  }

  /** In the control range (any decay up to 0.99), 800 frames without hold bring any heat in
      [0, MaxHeat] to exactly zero: the snap rules out an infinite asymptotic tail. */
  lemma DecayQuiesces(heat: real, c: HeatControls)
    requires 0.0 <= heat <= MaxHeat && 0.0 <= c.decay <= 0.99
    ensures DecayRun(heat, c, 800) == 0.0
  {
    PowMonotoneBase(c.decay, 0.99, 800);
    PowNonNegative(c.decay, 800);
    Pow99Small();
    var p := Pow(c.decay, 800);
    MulLeBoth(heat, p, MaxHeat, 0.00033);
    DecayRunZero(heat, c, 800);
  }

  /** Once the geometric value heat * decay^n is below HeatCutoff, the heat is exactly zero. */
  lemma DecayRunZero(heat: real, c: HeatControls, n: nat)
    requires 0.0 <= heat && 0.0 <= c.decay < 1.0 && 0 < n
    requires heat * Pow(c.decay, n) < HeatCutoff
    ensures DecayRun(heat, c, n) == 0.0
  {
    DecayRunBound(heat, c, n);
    GeoIsPow(heat, c.decay, n);
    DecayRunSnaps(heat, c, n);
  }

  /** While the geometric value heat * decay^n is at least HeatCutoff, the heat is positive. */
  lemma DecayRunPositive(heat: real, c: HeatControls, n: nat)
    requires 0.0 <= heat && 0.0 < c.decay < 1.0
    requires HeatCutoff <= heat * Pow(c.decay, n)
    ensures 0.0 < DecayRun(heat, c, n)
  {
    GeoIsPow(heat, c.decay, n);
    DecayRunExact(heat, c, n);
  }

  /** 0.99^800 < 0.00033, by repeated squaring with rounded-up intermediate bounds. */
  lemma Pow99Small()
    ensures Pow(0.99, 800) <= 0.00033
  {
    Pow99Mid();
    PowUpper(0.99, 256, 0.07662, 256, 0.07662);
    PowUpper(0.99, 512, 0.005871, 256, 0.07662);
    PowUpper(0.99, 768, 0.00044984, 32, 0.7253);
  }

  lemma Pow99Mid()
    ensures Pow(0.99, 32) <= 0.7253 && Pow(0.99, 256) <= 0.07662
  {
    Pow99Low();
    PowUpper(0.99, 32, 0.7253, 32, 0.7253);
    PowUpper(0.99, 64, 0.5261, 64, 0.5261);
    PowUpper(0.99, 128, 0.2768, 128, 0.2768);
  }

  lemma Pow99Low()
    ensures Pow(0.99, 32) <= 0.7253
  {
    PowOne(0.99);
    PowUpper(0.99, 1, 0.99, 1, 0.99);
    PowUpper(0.99, 2, 0.9801, 2, 0.9801);
    PowUpper(0.99, 4, 0.9606, 4, 0.9606);
    PowUpper(0.99, 8, 0.9228, 8, 0.9228);
    PowUpper(0.99, 16, 0.8516, 16, 0.8516);
  }

  lemma PowOne(d: real)
    ensures Pow(d, 1) == d
  {
    assert Pow(d, 0) == 1.0;
  }

  /** An upper bound on d^(a+b) from upper bounds on d^a and d^b. */
  lemma PowUpper(d: real, a: nat, ba: real, b: nat, bb: real)
    requires 0.0 <= d && Pow(d, a) <= ba && Pow(d, b) <= bb
    ensures Pow(d, a + b) <= ba * bb
  {
    PowAdd(d, a, b);
    PowNonNegative(d, a);
    PowNonNegative(d, b);
    MulLeBoth(Pow(d, a), Pow(d, b), ba, bb);
  }

  /** A lower bound on d^(a+b) from non-negative lower bounds on d^a and d^b. */
  lemma PowLower(d: real, a: nat, ba: real, b: nat, bb: real)
    requires 0.0 <= ba <= Pow(d, a) && 0.0 <= bb <= Pow(d, b)
    ensures ba * bb <= Pow(d, a + b)
  {
    PowAdd(d, a, b);
    MulLeBoth(ba, bb, Pow(d, a), Pow(d, b));
  }

  /** Products of non-negative reals are monotone in both factors. */
  lemma MulLeBoth(a: real, b: real, x: real, y: real)
    requires 0.0 <= a <= x && 0.0 <= b <= y
    ensures a * b <= x * y
  {
    MulLeRight(a, b, y);
    MulLeRight(y, a, x);
    assert y * a == a * y && y * x == x * y;
  }

  /** With the default decay of 0.95, a heat of MaxHeat reaches exactly zero on frame 140 and not
      before: after 139 frames it is still positive. */
  lemma DefaultDecayQuiescesAt140()
    ensures DecayRun(MaxHeat, DefaultHeatControls, 140) == 0.0
    ensures DecayRun(MaxHeat, DefaultHeatControls, 139) > 0.0
  {
    Pow95Upper();
    PowNonNegative(0.95, 140);
    MulLeBoth(MaxHeat, Pow(0.95, 140), MaxHeat, 0.000766);
    DecayRunZero(MaxHeat, DefaultHeatControls, 140);
    Pow95Lower();
    MulLeBoth(MaxHeat, 0.000798, MaxHeat, Pow(0.95, 139));
    DecayRunPositive(MaxHeat, DefaultHeatControls, 139);
  }

  /** 0.95^140 <= 0.000766, by repeated squaring with rounded-up intermediate bounds. */
  lemma Pow95Upper()
    ensures Pow(0.95, 140) <= 0.000766
  {
    var d := 0.95;
    PowOne(d);
    PowUpper(d, 1, d, 1, d);
    PowUpper(d, 2, 0.9025, 2, 0.9025);
    PowUpper(d, 4, 0.8146, 4, 0.8146);
    PowUpper(d, 8, 0.6636, 8, 0.6636);
    PowUpper(d, 16, 0.4404, 16, 0.4404);
    PowUpper(d, 32, 0.194, 32, 0.194);
    PowUpper(d, 64, 0.03764, 64, 0.03764);
    PowUpper(d, 128, 0.001417, 8, 0.6636);
    PowUpper(d, 136, 0.00094033, 4, 0.8146);
  }

  /** 0.95^139 >= 0.000798, by repeated squaring with rounded-down intermediate bounds. */
  lemma Pow95Lower()
    ensures 0.000798 <= Pow(0.95, 139)
  {
    var d := 0.95;
    PowOne(d);
    PowLower(d, 1, d, 1, d);
    PowLower(d, 2, 0.9025, 2, 0.9025);
    PowLower(d, 4, 0.8145, 4, 0.8145);
    PowLower(d, 8, 0.6634, 8, 0.6634);
    PowLower(d, 16, 0.4401, 16, 0.4401);
    PowLower(d, 32, 0.1936, 32, 0.1936);
    PowLower(d, 64, 0.03748, 64, 0.03748);
    PowLower(d, 128, 0.001404, 8, 0.6634);
    PowLower(d, 136, 0.0009314, 2, 0.9025);
    PowLower(d, 138, 0.00084058, 1, d);
  }

  /** An orthographic frustum. */
  datatype Frustum = Frustum(left: real, right: real, top: real, bottom: real, near: real, far: real)

  datatype Camera = Orthographic(frustum: Frustum) | OtherCamera

  /** The camera-fit effect's frustum for a canvas of the given size: the shorter side spans 1 unit,
      the frustum is centred, and near and far are -1 and 1. */
  function FitFrustum(width: real, height: real): (f: Frustum)
    requires 0.0 < width && 0.0 < height
    ensures f.right == -f.left && f.top == -f.bottom
    ensures Min(f.right - f.left, f.top - f.bottom) == 1.0
    ensures (f.right - f.left) * height == (f.top - f.bottom) * width
    ensures f.near == -1.0 && f.far == 1.0
  {
    var aspect := width / height;
    var w := if aspect >= 1.0 then aspect else 1.0;
    var h := if aspect >= 1.0 then 1.0 else 1.0 / aspect;
    assert aspect * height == width;
    assert aspect < 1.0 ==> 1.0 / aspect > 1.0;
    assert aspect < 1.0 ==> (1.0 / aspect) * width == height;
    Frustum(-w / 2.0, w / 2.0, h / 2.0, -h / 2.0, -1.0, 1.0)
  }

  /** The fitted frustum is the only centred one whose shorter side is 1 and whose sides keep the
      canvas' aspect ratio. */
  lemma {:induction false} FitFrustumUnique(width: real, height: real, g: Frustum)
    requires 0.0 < width && 0.0 < height
    requires g.right == -g.left && g.top == -g.bottom
    requires Min(g.right - g.left, g.top - g.bottom) == 1.0
    requires (g.right - g.left) * height == (g.top - g.bottom) * width
    requires g.near == -1.0 && g.far == 1.0
    ensures g == FitFrustum(width, height)
  {
    var w, h := g.right - g.left, g.top - g.bottom;
    DivideByPositive(width, height);
    if height <= width {
      WideSides(width, height, w, h);
      assert w == width / height;
    } else {
      TallSides(width, height, w, h);
      assert 1.0 / (width / height) == height / width;
    }
  }

  /** On a canvas at least as wide as tall, sides of the canvas' ratio whose shorter one is 1 are
      width / height by 1. */
  lemma WideSides(width: real, height: real, w: real, h: real)
    requires 0.0 < height <= width && Min(w, h) == 1.0 && w * height == h * width
    ensures h == 1.0 && w == width / height
  {
    if h != 1.0 {
      MulLtRight(width, 1.0, h);
      assert false;
    }
    ScaleThenDivide(w, height);
  }

  /** On a canvas taller than wide, the sides are 1 by height / width. */
  lemma TallSides(width: real, height: real, w: real, h: real)
    requires 0.0 < width < height && Min(w, h) == 1.0 && w * height == h * width
    ensures w == 1.0 && h == height / width
  {
    if w != 1.0 {
      MulLtRight(height, 1.0, w);
      assert false;
    }
    ScaleThenDivide(h, width);
  }

  /** The camera-fit effect: only an orthographic camera is refitted. */
  function FitCamera(cam: Camera, width: real, height: real): (r: Camera)
    requires 0.0 < width && 0.0 < height
    ensures cam.Orthographic? ==> r == Orthographic(FitFrustum(width, height))
    ensures !cam.Orthographic? ==> r == cam
  {
    if cam.Orthographic? then Orthographic(FitFrustum(width, height)) else cam
  }

  /** The direction prop handed to the draw pass: a constant whose xyz part is zero. */
  const DrawDirection := Vec4(0.0, 0.0, 0.0, 100.0)

  /** The size of the square draw buffers. */
  const DrawSize: nat := 256

  /** The props the scene hands to DrawRenderer: the pointer in draw-buffer coordinates, the constant
      direction and the published heat as the draw amount. */
  datatype DrawProps = DrawProps(position: Vec2, direction: Vec4, drawAmount: real)

  function DrawPropsOf(s: SceneState): (p: DrawProps)
    ensures SignedFromDraw(p.position) == s.mouse
    ensures p.direction == DrawDirection && p.drawAmount == s.heatAmount
  {
    DrawProps(DrawPosition(s.mouse), DrawDirection, s.heatAmount)
  }
}
