# apple-event-2025 heat trail, modelled in Dafny

The repository is a React/Three.js demo. It recreates the heat-trail effect on a logo: the pointer
"heats" the logo, the heat fades over time, and a colour gradient is composited over a mask. This
project models the deterministic core of that demo. Every number is a `real`.

- **The canonical heat accumulator** (module `Scene`). While the pointer is held, each frame raises
  the heat by `sensitivity * delta * 60`, capped at 1.3. Without hold, each frame multiplies it by the
  decay, and any value below 0.001 snaps to exactly 0. `AppleExactHeatmap` is a second copy of the
  same pipeline. Each modelled piece of it is proved equal to the canonical one: the normalisation,
  draw position, accumulator, ping-pong step, hexToRGB, camera fit, and AppleHeatMesh's panel
  defaults, material and frame refresh.
- **Two event-driven variants** (`AppleStyleHeatmap`, `AppleHeatmapScene`). Each move while holding
  adds 0.05 to the accumulator, and each frame after release multiplies it by 0.95.
- **Coordinate maps.** The pointer is normalised into signed coordinates in [-1, 1] with y pointing
  up, then mapped into draw-buffer coordinates in [0, 1]. A viewport variant divides by half the
  viewport's size. The gesture tracker (`GestureController`) records position, delta and speed, and
  the orthographic camera is fitted to the canvas.
- **The ping-pong render-target pair** (`DrawRenderer`). This is a two-slot sequence with a toggling
  index. Each frame reads the previous target, writes the current one, swaps the two, and publishes
  what it wrote.
- **The per-texel draw/feedback fragment kernel** (`HeatmapRenderer`). It is written as a pure
  function of the uniforms, the texel's uv, its distance to the pointer and a sampler for the
  previous frame. `Glsl` defines `clamp`, `mix` and `smoothstep` as section 8.3 (Common Functions)
  of the OpenGL ES Shading Language specification does.
- **The colour codecs.** `HeatMesh` models the `hexToRGB` regular-expression parser and the packing
  of the compositing material's uniforms. `HeatmapScene` models `hslToHex` and the palette
  randomiser. `Js` models the JavaScript built-ins those use: `Math.round`, `%`, `toString(16)`,
  `padStart` and the `Uint8Array` store.
- **The logo fragment kernels and the heat-texture layout** (`AppleStyleHeatmap`,
  `AppleHeatmapScene`). A fragment whose mask alpha is below 0.1 is discarded. The surviving
  colour mixes white towards a heat colour, and noise scaled by the heat is added on top. In
  `AppleHeatmapScene` the heat intensity is the published amount, which can exceed 1, so there the
  mix may extrapolate past orange.

Pointer events, frames, frame times, `Math.random`, `sin`/`cos` noise, `pow`, `distance` and texture
lookups are inputs to the functions. Nothing is read from a clock or a device.

## Model

| member | source | states |
|---|---|---|
| Scene.Fractions | components/Scene.tsx:64-70 | the pointer's fractions of the rectangle reconstruct the client point, and they lie in [0, 1] exactly when the point is inside the rectangle |
| Scene.Normalize | components/Scene.tsx:61-74 | the signed coordinates map back to the same client point, and an in-rectangle pointer lands in [-1, 1] on both axes |
| Scene.SignedRoundTrip | components/Scene.tsx:73-74 | normalising the client point of any signed point gives that signed point back, so the map is a bijection |
| Scene.NormalizeOrientation | components/Scene.tsx:73-74 | moving right raises x, and moving down the screen lowers y |
| Scene.DrawPosition | components/Scene.tsx:135-139 | drawPosition is inverted by SignedFromDraw, and it maps [-1, 1] into [0, 1] on both axes |
| Scene.DrawPositionRoundTrip | components/Scene.tsx:135-139 | drawPosition after its inverse is the identity |
| Scene.DrawPositionOfPointer | components/Scene.tsx:69-74 | drawPosition of a normalised pointer is (nx, 1 - ny), which lies in [0, 1]² for an in-rectangle pointer |
| Scene.Rise | components/Scene.tsx:110-112 | a rising frame never exceeds 1.3, never lowers a heat of at most 1.3 when sensitivity and delta are non-negative, and with delta 0 leaves such a heat unchanged |
| Scene.Decay | components/Scene.tsx:116-117 | a decaying frame gives 0 exactly when heat·decay < 0.001 and heat·decay otherwise, and for a decay in [0, 1) the result is in [0, heat) |
| Scene.HeatStep | components/Scene.tsx:106-119 | the hold branch is capped at 1.3 with 1.3 a fixed point, an idle frame leaves the heat unchanged, and a decaying frame shrinks the heat |
| Scene.PointerMove | components/Scene.tsx:61-85 | every move sets hold and records the normalised pointer, and neither the heat nor the published amount changes |
| Scene.PointerLeave | components/Scene.tsx:87-90 | leave clears hold only |
| Scene.Frame | components/Scene.tsx:106-119 | a frame keeps the pointer and hold and steps the heat; a rising or decaying frame republishes the new heat whatever was published before, and an idle frame changes nothing |
| Scene.RunStaysBounded | components/Scene.tsx:28-31 | over any sequence of moves, leaves, hold expiries and frames, with the controls' signs and non-negative deltas, the heat stays in [0, 1.3] and is published as is (for a decay in [0, 1]) |
| Scene.DecayRunBound | components/Scene.tsx:114-118 | n frames without hold leave the heat in [0, heat·decayⁿ] |
| Scene.DecayRunSnaps | components/Scene.tsx:117 | after at least one frame without hold the heat is 0 or at least 0.001, never in between |
| Scene.DecayRunExact | components/Scene.tsx:114-118 | while heat·decayⁿ is at least 0.001 the heat after n frames is exactly that value |
| Scene.DecayQuiesces | components/Scene.tsx:114-118 | with any decay up to the control maximum 0.99, 800 frames bring any heat in [0, 1.3] to exactly 0 |
| Scene.DefaultDecayQuiescesAt140 | components/Scene.tsx:106-119 | with the default decay 0.95 the capped heat 1.3 is still positive after 139 frames and exactly 0 after 140 |
| Scene.FitFrustum | components/Scene.tsx:37-58 | the frustum is centred, its shorter side is 1, its sides have the canvas' aspect ratio, and near/far are -1/1 |
| Scene.FitFrustumUnique | components/Scene.tsx:39-55 | any centred frustum with shorter side 1, the canvas' aspect ratio and near/far -1/1 is the fitted one |
| Scene.FitCamera | components/Scene.tsx:37-38 | only an orthographic camera is refitted; any other camera is left as is |
| Scene.DrawPropsOf | components/Scene.tsx:131-152 | the draw pass gets the pointer in draw coordinates (inverted by SignedFromDraw), the constant direction (0, 0, 0, 100) and the published heat |
| DrawRenderer.CreateTargets | components/DrawRenderer.tsx:56-60 | the two targets are distinct slots of the same size, options and blank contents |
| DrawRenderer.InitialUniforms | components/DrawRenderer.tsx:68-78 | the radius is (-8, 0.9, radiusSize), position and direction are zero, and the resolution and dampings are the props |
| DrawRenderer.SetRadius | components/DrawRenderer.tsx:92-94 | only the radius' third component changes |
| DrawRenderer.SetRadiusOfInitial | components/DrawRenderer.tsx:92-94 | re-setting the radius of freshly built uniforms gives the uniforms built with the new radius |
| DrawRenderer.SyncInputs | components/DrawRenderer.tsx:96-100 | position, direction and draw amount follow the props, and nothing else changes |
| DrawRenderer.InitialState | components/DrawRenderer.tsx:56-74 | the pair is valid, built with renderTargetParams, and uTexture binds the previous target |
| DrawRenderer.Step | components/DrawRenderer.tsx:102-121 | the frame reads previous and writes current (distinct targets), swaps the roles, keeps the previous target and the uniforms, and publishes the target just written, which is the next frame's read source |
| DrawRenderer.TwoFramesRestoreRoles | components/DrawRenderer.tsx:115-118 | two frames restore the original roles |
| DrawRenderer.RunKeepsTargets | components/DrawRenderer.tsx:115-118 | any number of frames keeps the same two targets and uniforms, and the roles alternate with the parity of n |
| DrawRenderer.StepKeepsShape | components/DrawRenderer.tsx:115-118 | a frame changes no target's identity, size or options |
| DrawRenderer.RunIsFeedback | components/DrawRenderer.tsx:104-120 | after n frames the read source holds the pass applied n times to the initial contents, and each published texture is the next read source |
| DrawRenderer.RunSplit | components/DrawRenderer.tsx:102-121 | the last of n frames is one step from the state after n - 1 |
| HeatmapRenderer.Aspect | components/HeatmapRenderer.tsx:32 | the aspect ratio is non-zero and times the height gives the width |
| HeatmapRenderer.AspectPosition | components/HeatmapRenderer.tsx:33-34 | the pointer's y is divided by the aspect ratio |
| HeatmapRenderer.AspectUv | components/HeatmapRenderer.tsx:36-37 | the texel's y is divided by the aspect ratio |
| HeatmapRenderer.Weight | components/HeatmapRenderer.tsx:39-40 | the falloff weight 1 - dist lies in [0, 1], and is 1 inside the inner edge and 0 beyond the outer one |
| HeatmapRenderer.WeightFallsOff | components/HeatmapRenderer.tsx:39-40 | a texel further from the pointer never weighs more |
| HeatmapRenderer.Offset | components/HeatmapRenderer.tsx:42-43 | a zero w, zero x and y, or zero weight gives a zero offset |
| HeatmapRenderer.Faded | components/HeatmapRenderer.tsx:45-48 | with a zero offset the kernel reads the texel's own uv, scaled by the fade |
| HeatmapRenderer.Scale | components/HeatmapRenderer.tsx:48 | a scale of 1 is the identity, and a scale in [0, 1] shrinks every channel towards 0 without changing its sign |
| HeatmapRenderer.DrawFragment | components/HeatmapRenderer.tsx:31-58 | at the texel's aspect-corrected distance to uPosition: red and green always lie in [-1, 1] and alpha is 1; red and green are the faded texel plus the offset when that sum is in range, and exactly 1 or -1 when it lies above or below; blue is the faded blue plus uDraw times the smoothstep weight of that distance |
| HeatmapRenderer.BlueGain | components/HeatmapRenderer.tsx:54-55 | for a non-negative draw, blue lies between the faded blue and the faded blue plus the draw amount, and equals the faded blue without drawing |
| HeatmapRenderer.KernelDistanceUnique | components/HeatmapRenderer.tsx:32-39 | a texel has exactly one aspect-corrected distance to the pointer |
| HeatmapRenderer.BrushCentre | components/HeatmapRenderer.tsx:31-55 | the texel under the pointer is at distance 0; with a non-negative inner edge its weight is 1, and blue gains the whole draw amount |
| HeatmapRenderer.OutsideBrush | components/HeatmapRenderer.tsx:39-55 | from the outer edge of the brush on, drawing leaves blue at the faded blue |
| HeatmapRenderer.AddedDraw | components/HeatmapRenderer.tsx:54-55 | a non-negative draw adds between nothing and all of itself to blue |
| HeatmapRenderer.StillDirectionReadsOwnTexel | components/HeatmapRenderer.tsx:42-48 | a still direction reads the texel's own uv, and red and green are that texel faded and clamped |
| HeatmapRenderer.NoSpontaneousEnergy | components/HeatmapRenderer.tsx:46-57 | without drawing or displacement, and with a fade in [0, 1], the output is the faded texel, so an all-zero field stays zero |
| HeatmapRenderer.SizeDampingUnused | components/HeatmapRenderer.tsx:25-58 | the output does not depend on uSizeDamping |
| HeatmapRenderer.SceneDirectionIsStill | components/Scene.tsx:131-133 | with the scene's constant direction the kernel never displaces |
| HeatmapRenderer.RadiusSize | components/HeatmapRenderer.tsx:98-99 | radiusSize · radiusRatio = (350 on mobile, else 220) · height, and the size is positive for a positive height and ratio |
| HeatmapRenderer.MobileRadiusRatio | components/HeatmapRenderer.tsx:99 | at equal height the touch radius is 350/220 of the pointer radius |
| HeatmapRenderer.AllocateTargets | components/HeatmapRenderer.tsx:81-95 | both targets are resolution[0] x resolution[1] with float texels and the same options |
| HeatmapRenderer.InitialUniforms | components/HeatmapRenderer.tsx:97-117 | the construction values: radius (0, 0.5, radiusSize), resolution, position (0.5, 0.5), direction (0, 0, 0, 100), dampings 1 and 0.95, draw 0 |
| HeatmapRenderer.SyncInputs | components/HeatmapRenderer.tsx:119-126 | position, direction, draw amount and resolution follow the props, and the radius and dampings are kept |
| HeatMesh.HexValue | components/HeatMesh.tsx:86-88 | a hexadecimal digit's value is below 16 |
| HeatMesh.ParseHexPair | components/HeatMesh.tsx:86-88 | parseInt of two hex digits is a byte |
| HeatMesh.GroupsFrom | components/HeatMesh.tsx:83 | the three groups match exactly when six hex digits remain, and they are the three pairs |
| HeatMesh.Exec | components/HeatMesh.tsx:83 | the pattern matches exactly an optional '#' followed by six hex digits, and the captures are the three trailing pairs |
| HeatMesh.Group | components/HeatMesh.tsx:83 | each captured group is two hex digits at its place in the string |
| HeatMesh.Channel | components/HeatMesh.tsx:86-88 | a captured group's value is a byte |
| HeatMesh.HexToRgb | components/HeatMesh.tsx:82-91 | every channel lies in [0, 1]; on a match each channel times 255 is its pair's value; anything else is black |
| HeatMesh.ByteFraction | components/HeatMesh.tsx:86-88 | a byte over 255 lies in [0, 1] and times 255 gives the byte back |
| HeatMesh.LowerCase | components/HeatMesh.tsx:83 | lower-casing keeps the length and maps every character |
| HeatMesh.CaseInsensitive | components/HeatMesh.tsx:83 | lower-casing the input changes neither acceptance nor the colour |
| HeatMesh.LowerCaseKeepsHex | components/HeatMesh.tsx:83 | lower-casing keeps exactly the hex characters, each with its value |
| HeatMesh.LowerCaseKeepsGroup | components/HeatMesh.tsx:83-88 | lower-casing keeps every group's value |
| HeatMesh.RejectedExamples | components/HeatMesh.tsx:83-90 | "#fff", "##ffffff", "#ffffff0" and "#fffffg" all map to black |
| HeatMesh.DefaultColorsParse | components/HeatMesh.tsx:60-66 | every default colour is accepted, color1 is black and color2 is (7, 61, 255)/255 |
| HeatMesh.SecondColorValue | components/HeatMesh.tsx:61 | the default "#073dff" reads as (7, 61, 255)/255 |
| HeatMesh.HashedColor | components/HeatMesh.tsx:83 | '#' followed by six hex digits is accepted |
| HeatMesh.Material | components/HeatMesh.tsx:147-177 | the seven colours are hexToRGB of the seven controls in order; blend, fade and maxBlend pack their controls; textureMap is the video texture if there is one and the mask otherwise; the remaining uniforms take their construction values |
| HeatMesh.Refresh | components/HeatMesh.tsx:210-216 | each frame sets a fresh random value and amount 1, and nothing else changes |
| HeatmapScene.K | components/HeatmapScene.tsx:36 | k(n) lies in [0, 12) for a non-negative argument and differs from n + h/30 by a multiple of 12 |
| HeatmapScene.Chroma | components/HeatmapScene.tsx:37 | a lies in [0, min(l, 1 - l)] for s and l in [0, 1], and is 0 without saturation |
| HeatmapScene.Trapezoid | components/HeatmapScene.tsx:38 | the clamp term lies in [-1, 1] |
| HeatmapScene.Channel | components/HeatmapScene.tsx:38 | f(n) lies in [l - a, l + a], within [0, 1], for s and l in [0, 1], and equals l without saturation |
| HeatmapScene.Byte | components/HeatmapScene.tsx:39 | Math.round(255 x) is a byte for x in [0, 1] |
| HeatmapScene.ToHex | components/HeatmapScene.tsx:39 | for x in [0, 1], toHex writes two lower-case hex digits that parse back to the byte |
| HeatmapScene.Hex2 | components/HeatmapScene.tsx:39 | a byte's padded base-16 numeral is two lower-case hex digits that parse back to it |
| HeatmapScene.HashOfPairs | components/HeatmapScene.tsx:40 | '#' and three digit pairs is a colour hexToRGB accepts, with the pairs as its groups |
| HeatmapScene.PaddedByte | components/HeatmapScene.tsx:39 | toString(16) then padStart(2, "0") of a byte parses back to the byte |
| HeatmapScene.TwoDigits | components/HeatmapScene.tsx:39 | from 16 to 255, toString(16) writes b / 16 then b % 16 |
| HeatmapScene.DigitPair | components/HeatmapScene.tsx:39 | two digits written by toString(16) parse back to 16 hi + lo |
| HeatmapScene.DigitValue | components/HeatmapScene.tsx:39 | the digit toString(16) writes for d has the value d |
| HeatmapScene.HslToHex | components/HeatmapScene.tsx:33-41 | for s and l in [0, 100] the result is '#' followed by six lower-case hex digits that hexToRGB accepts |
| HeatmapScene.Bytes | components/HeatmapScene.tsx:39-40 | three bytes for f(0), f(8), f(4), each in [0, 256) for s and l in [0, 100] |
| HeatmapScene.Format | components/HeatmapScene.tsx:40 | '#' and the padded numerals of three bytes is a hex colour |
| HeatmapScene.FormatRoundTrip | components/HeatmapScene.tsx:39-40 | hexToRGB reads back every formatted triple of bytes, over 255 |
| HeatmapScene.HslRoundTrip | components/HeatmapScene.tsx:33-41 | hexToRGB(hslToHex(h, s, l)) is (round(255 f(0)), round(255 f(8)), round(255 f(4))) / 255 |
| HeatmapScene.PairsRoundTrip | components/HeatMesh.tsx:82-91 | hexToRGB of '#' and three digit pairs reads each pair back |
| HeatmapScene.GreyWithoutSaturation | components/HeatmapScene.tsx:37-40 | with s = 0 the three bytes coincide, so the colour is '#' and one pair three times |
| HeatmapScene.GreyChannels | components/HeatmapScene.tsx:37-39 | with s = 0 the three bytes are round(255 l) |
| HeatmapScene.Base | components/HeatmapScene.tsx:43 | floor(random · 360) lies in [0, 360) |
| HeatmapScene.Hue | components/HeatmapScene.tsx:47 | (base + step) % 360 lies in [0, 360) |
| HeatmapScene.Palette | components/HeatmapScene.tsx:45-48 | six entries, each hslToHex of its hue, saturation 80 - 4i and lightness 50 + 3(i - 3), and each accepted by hexToRGB |
| HeatmapScene.PaletteShades | components/HeatmapScene.tsx:47 | saturations fall from 80 to 60 and lightnesses rise from 41 to 56 |
| HeatmapScene.ApplyPalette | components/HeatmapScene.tsx:50-58 | each write has its own try/catch: key i of color2..color7 becomes palette entry i when its control is mounted and keeps its value otherwise; color1 and the other controls are untouched |
| HeatmapScene.Randomize | components/HeatmapScene.tsx:32-59 | color1 is kept; each mounted key of color2..color7 takes its entry of the palette of floor(random · 360), and each unmounted one keeps its value; with all mounted, color2..color7 are that palette, and with none mounted nothing changes; every other control is untouched |
| HeatmapScene.RandomizeKeepsColorsParseable | components/HeatmapScene.tsx:43-58 | after randomising, color1 is untouched and every colour whose control was mounted is accepted by hexToRGB |
| GestureController.Notify | components/GestureController.tsx:74 | an optional callback fires exactly when it was given |
| GestureController.Measure | components/GestureController.tsx:53-72 | local = client - corner, normalised = local / size, delta = client - lastPos, normalisedDelta = delta / size, and speed = dist/dt for dt > 0 and 0 otherwise, never negative |
| GestureController.Update | components/GestureController.tsx:45-78 | without an element nothing happens; otherwise the hover record is measured, the move callback gets it, and lastPos/lastTime become the client point and now |
| GestureController.SpeedIsRate | components/GestureController.tsx:63 | when dist is the displacement's length, speed · dt is that length |
| GestureController.Speed | components/GestureController.tsx:63 | distance over elapsed time is non-negative and times dt gives the distance |
| GestureController.NormalizedIsFraction | components/GestureController.tsx:53-56 | the normalised position is the pointer's fraction of the element rectangle |
| GestureController.RepeatIsStill | components/GestureController.tsx:76-77 | an immediate repeat at the same point reports a zero delta and speed 0 |
| GestureController.Reset | components/GestureController.tsx:80-98 | the record moves to the centre (local = half size, world = corner + half size, normalised (0.5, 0.5)) with zero delta and speed, and lastPos/lastTime are kept |
| GestureController.ResetIsStillCentre | components/GestureController.tsx:80-98 | the reset record is what an update reports for a motionless pointer at the centre |
| GestureController.Mount | components/GestureController.tsx:165-166 | mounting starts from the initial refs and resets the record to the centre |
| GestureController.Enter | components/GestureController.tsx:100-105 | enter measures from the entry point, so delta and speed are 0, then notifies move and enter |
| GestureController.Move | components/GestureController.tsx:107-109 | over an element the hover record is measured from the remembered pointer and time, the client point and now are remembered, and only the move callback fires, with the new record; without an element nothing happens |
| GestureController.Leave | components/GestureController.tsx:111-116 | leave resets only under resetOnLeave, keeps lastPos/lastTime and passes the record to the leave callback |
| GestureController.Down | components/GestureController.tsx:118-120 | down passes the current record to the down callback unchanged |
| GestureController.Up | components/GestureController.tsx:122-124 | up passes the current record to the up callback unchanged |
| GestureController.TouchStart | components/GestureController.tsx:126-135 | with touches, the first touch enters and presses; with none nothing happens |
| GestureController.TouchStartIsEnterThenDown | components/GestureController.tsx:126-135 | a touch start is an enter followed by a down |
| GestureController.TouchMove | components/GestureController.tsx:137-142 | with touches the first one moves; with none nothing happens |
| GestureController.TouchEnd | components/GestureController.tsx:144-150 | touchend resets the record only under resetOnLeave |
| GestureController.TouchEndIsLeaveThenUp | components/GestureController.tsx:144-150 | a touch end is a leave followed by an up |
| AppleExactHeatmap.Normalize | components/AppleExactHeatmap.tsx:371-384 | the copy's normalisation equals the canonical one, and its inverse gives the client point back |
| AppleExactHeatmap.DrawPosition | components/AppleExactHeatmap.tsx:450-454 | the copy's drawPosition equals the canonical one |
| AppleExactHeatmap.HeatStep | components/AppleExactHeatmap.tsx:420-433 | the copy's frame update equals the canonical one: capped rise, snapping decay and idle no-op |
| AppleExactHeatmap.PointerMove | components/AppleExactHeatmap.tsx:371-395 | the copy's move handler sets hold and equals the canonical one |
| AppleExactHeatmap.PointerLeave | components/AppleExactHeatmap.tsx:397-400 | the copy's leave handler clears hold only and equals the canonical one |
| AppleExactHeatmap.Frame | components/AppleExactHeatmap.tsx:420-433 | the copy's frame equals the canonical one |
| AppleExactHeatmap.RunIsCanonical | components/AppleExactHeatmap.tsx:371-433 | over any event sequence the copy goes through the canonical states |
| AppleExactHeatmap.RunStaysBounded | components/AppleExactHeatmap.tsx:420-433 | the copy keeps the heat in [0, 1.3] |
| AppleExactHeatmap.InitialState | components/AppleExactHeatmap.tsx:43-55 | both targets are size x size with identical options, and uTexture binds the previous one |
| AppleExactHeatmap.InitialStateDiffersInOptionsOnly | components/AppleExactHeatmap.tsx:43-55 | the copy differs from the canonical renderer only in the targets' options |
| AppleExactHeatmap.Step | components/AppleExactHeatmap.tsx:97-116 | the copy's frame reads previous, writes current, swaps, publishes what it wrote, and equals the canonical step |
| AppleExactHeatmap.HexToRgb | components/AppleExactHeatmap.tsx:183-192 | the copy's hexToRGB equals the canonical one, so a rejected input gives black |
| AppleExactHeatmap.FitFrustum | components/AppleExactHeatmap.tsx:347-368 | the copy's camera fit equals the canonical one |
| AppleExactHeatmap.PanelDefaults | components/AppleExactHeatmap.tsx:154-180 | AppleHeatMesh's "Heat Map" panel starts from the canonical mesh's values, so all seven colours parse and the first is black |
| AppleExactHeatmap.Material | components/AppleExactHeatmap.tsx:248-278 | AppleHeatMesh's material packs exactly the canonical mesh's uniforms, each colour through hexToRGB and the mask standing in when there is no video texture |
| AppleExactHeatmap.Refresh | components/AppleExactHeatmap.tsx:311-317 | AppleHeatMesh's frame sets a fresh rnd and amount 1, leaving the colours and textures as the canonical refresh does |
| AppleStyleHeatmap.Move | components/AppleStyleHeatmap.tsx:324-334 | the mouse follows; while holding, the accumulator grows by 0.05 and the published amount is min(1.3, acc); otherwise nothing else changes |
| AppleStyleHeatmap.Down | components/AppleStyleHeatmap.tsx:336-338 | down only sets holding |
| AppleStyleHeatmap.Up | components/AppleStyleHeatmap.tsx:340-342 | up only clears holding |
| AppleStyleHeatmap.Leave | components/AppleStyleHeatmap.tsx:344-348 | leave stops holding and zeroes the accumulator and the published amount |
| AppleStyleHeatmap.Frame | components/AppleStyleHeatmap.tsx:350-355 | with no hold and heat published, acc becomes 0.95 acc and is published unclamped; otherwise nothing changes; a positive accumulator stays positive |
| AppleStyleHeatmap.RunKeepsOrdered | components/AppleStyleHeatmap.tsx:324-355 | over any events the published amount stays in [0, acc] |
| AppleStyleHeatmap.DecayNeverQuiesces | components/AppleStyleHeatmap.tsx:350-355 | after release, n frames leave acc · 0.95ⁿ, still positive: with no snap the heat never reaches 0 |
| AppleStyleHeatmap.MovesWhileHolding | components/AppleStyleHeatmap.tsx:330-333 | n moves while holding add 0.05 n to the accumulator and publish min(1.3, acc) |
| AppleStyleHeatmap.ReleaseExceedsCap | components/AppleStyleHeatmap.tsx:324-355 | press, 30 moves and a release leave acc = 1.5, and one frame publishes 1.425 > 1.3 |
| AppleStyleHeatmap.CappedMove | components/AppleStyleHeatmap.tsx:330-333 | the corrected move caps the accumulator itself at 1.3 and publishes it |
| AppleStyleHeatmap.CappedRunStaysCapped | components/AppleStyleHeatmap.tsx:324-355 | with capped moves the published amount is the accumulator and stays in [0, 1.3] |
| AppleStyleHeatmap.DrawRadius | components/AppleStyleHeatmap.tsx:183 | the draw radius is 220 · height/1000, the HeatmapRenderer formula for a pointer at ratio 1000 |
| AppleStyleHeatmap.DrawTargets | components/AppleStyleHeatmap.tsx:166-180 | both targets are 256 x 256 with float texels, as HeatmapRenderer allocates them |
| AppleStyleHeatmap.DrawUniforms | components/AppleStyleHeatmap.tsx:182-195 | the HeatmapRenderer construction values at 256 x 256 with this file's radius |
| AppleStyleHeatmap.DrawKernelOfScene | components/AppleStyleHeatmap.tsx:33-60 | under this scene's uniforms and direction the kernel fades red and green by 0.95 and clamps them, adds amount times the weight of the texel's distance to the pointer to faded blue, and sets alpha 1 |
| AppleStyleHeatmap.ScaledUv | components/AppleStyleHeatmap.tsx:100 | with unit scale and zero offset the mask is sampled at the uv itself |
| AppleStyleHeatmap.HeatValue | components/AppleStyleHeatmap.tsx:115 | heatValue lies between uHeat.x and uHeat.y for an intensity in [0, 1] |
| AppleStyleHeatmap.BaseColor | components/AppleStyleHeatmap.tsx:119-130 | red is exactly 1, green and blue lie between the hot colour's and 1 with blue at most green, heatValue ≤ 0.1 leaves it white, and up to 0.5 it is no darker than the warm colour |
| AppleStyleHeatmap.BlendBounds | components/AppleStyleHeatmap.tsx:124-130 | a convex blend keeps red at 1 and each channel between its two ends |
| AppleStyleHeatmap.HeatFragment | components/AppleStyleHeatmap.tsx:96-145 | discard exactly when mask alpha < 0.1; otherwise the base colour plus noise, with alpha mask · opacity · pow |
| AppleStyleHeatmap.DrawMap | components/AppleStyleHeatmap.tsx:284 | uDrawTexture is the published draw texture when there is one, and the mask otherwise |
| AppleStyleHeatmap.UnwiredDrawMap | components/AppleStyleHeatmap.tsx:96-145 | with no draw texture published, heat is read from the mask's blue: discard exactly when mask alpha < 0.1, otherwise the base colour of that heat plus noise, with alpha mask · opacity · pow |
| AppleStyleHeatmap.StretchUnused | components/AppleStyleHeatmap.tsx:137-139 | the output does not depend on uStretch |
| AppleStyleHeatmap.InitialRangeNeverHot | components/AppleStyleHeatmap.tsx:115 | with the initial uHeat range [0.1, 0.3] set at line 275, heatValue stays at most 0.3, so the hot stage never runs |
| AppleHeatmapScene.Normalize | components/AppleHeatmapScene.tsx:204-205 | the hit point is its normalised value times half the viewport, and [-w/2, w/2] maps exactly onto [-1, 1] |
| AppleHeatmapScene.HalfSpan | components/AppleHeatmapScene.tsx:204-205 | dividing by a positive half-width maps [-h, h] exactly onto [-1, 1] |
| AppleHeatmapScene.NormalizeRoundTrip | components/AppleHeatmapScene.tsx:204-205 | normalisation and scaling by half the viewport are mutually inverse |
| AppleHeatmapScene.Move | components/AppleHeatmapScene.tsx:202-217 | the move is AppleStyleHeatmap's move at the normalised point; without hold it changes only the mouse |
| AppleHeatmapScene.Frame | components/AppleHeatmapScene.tsx:227-234 | with no hold and heat published, acc becomes 0.95 acc and max(0, acc) is published, never negative; otherwise nothing changes |
| AppleHeatmapScene.FrameIsStyleFrame | components/AppleHeatmapScene.tsx:227-234 | on a non-negative accumulator the frame equals AppleStyleHeatmap's |
| AppleHeatmapScene.PressAndReleaseKeepHeat | components/AppleHeatmapScene.tsx:219-225 | down sets holding, up clears it, and neither touches anything else |
| AppleHeatmapScene.RunKeepsOrdered | components/AppleHeatmapScene.tsx:202-234 | over any events the published amount stays in [0, acc] |
| AppleHeatmapScene.MovesAreStyleMoves | components/AppleHeatmapScene.tsx:202-217 | n moves equal AppleStyleHeatmap's n moves at the normalised point |
| AppleHeatmapScene.ReleaseExceedsCap | components/AppleHeatmapScene.tsx:202-234 | press, 30 moves and a release publish 1.425 > 1.3 on the next frame |
| AppleHeatmapScene.CappedRunStaysCapped | components/AppleHeatmapScene.tsx:202-234 | with capped moves the published amount is the accumulator and stays in [0, 1.3] |
| AppleHeatmapScene.MousePosition | components/AppleHeatmapScene.tsx:53 | mousePos is the canonical drawPosition, mapping [-1, 1]² into [0, 1]² |
| AppleHeatmapScene.Reach | components/AppleHeatmapScene.tsx:81 | max(0, 1 - dist) lies in [0, 1] for a distance and is 0 from distance 1 on |
| AppleHeatmapScene.LogoFragment | components/AppleHeatmapScene.tsx:38-84 | discard exactly when mask alpha < 0.1; otherwise, for the intensity i = falloff · uHeatAmount and glow = noise · i, the colour is (1 + glow, 1 - 0.4 i + glow, 1 - 0.8 i + glow), between orange and white plus glow for i in [0, 1], and alpha is mask · opacity · pow(max(0, 1 - dist), uPower) for the texel's distance dist to mousePos |
| AppleHeatmapScene.Scaling | components/AppleHeatmapScene.tsx:42 | the mask transform uses the logo material's scale and offset |
| AppleHeatmapScene.StretchAndRangeUnused | components/AppleHeatmapScene.tsx:57-67 | given the falloff, neither uStretch nor the heat range changes a fragment |
| AppleHeatmapScene.MouseDistanceUnique | components/AppleHeatmapScene.tsx:53-54 | a texel has exactly one distance to mousePos |
| AppleHeatmapScene.FarFromMouseTransparent | components/AppleHeatmapScene.tsx:54-81 | a kept texel at distance 1 or more from mousePos has alpha 0 whenever pow(0, uPower) is 0 |
| AppleHeatmapScene.UnderMouseOpaque | components/AppleHeatmapScene.tsx:53-81 | the texel at mousePos is at distance 0 and keeps alpha mask · opacity · pow(1, uPower) |
| AppleHeatmapScene.Pixel | components/AppleHeatmapScene.tsx:114-115 | pixel i is (i % 256, floor(i / 256)), which rebuilds i and lies on the texture |
| AppleHeatmapScene.PixelsDistinct | components/AppleHeatmapScene.tsx:113-115 | different indices are different pixels |
| AppleHeatmapScene.Combined | components/AppleHeatmapScene.tsx:120 | with both noises in [-1, 1] the combined value lies in [1, 255] |
| AppleHeatmapScene.TexelBytes | components/AppleHeatmapScene.tsx:122-126 | four bytes whose last is 255; for a combined value in [1, 255] the others are the floors of 0.9, 0.7 and 0.5 of it |
| AppleHeatmapScene.BuildHeatTexture | components/AppleHeatmapScene.tsx:109-127 | the data has 256 · 256 · 4 bytes, pixel i's texel sits at 4i, and every byte 4i + 3 is 255 |
| AppleHeatmapScene.AppendTexel | components/AppleHeatmapScene.tsx:122-126 | writing one texel keeps the earlier ones and adds one at index i |
| AppleHeatmapScene.TexelsDoNotWrap | components/AppleHeatmapScene.tsx:118-126 | with noises in [-1, 1] no byte wraps: each colour byte is the floor of its fraction of the combined value |
| Glsl.Clamp | components/HeatmapRenderer.tsx:52 | clamp lands in [lo, hi], is the identity inside, and gives the nearer bound outside |
| Glsl.Mix | components/AppleStyleHeatmap.tsx:115 | mix gives x at 0 and y at 1, and lies between x and y for a weight in [0, 1] |
| Glsl.MixMonotone | components/AppleStyleHeatmap.tsx:126-129 | mix is monotone in both ends |
| Glsl.Smoothstep | components/HeatmapRenderer.tsx:40 | smoothstep lies in [0, 1], is 0 up to edge0 and 1 from edge1 |
| Glsl.SmoothstepMonotone | components/HeatmapRenderer.tsx:40 | smoothstep is monotone |
| Glsl.HermiteMonotone | components/HeatmapRenderer.tsx:40 | the Hermite polynomial t²(3 - 2t) is monotone on [0, 1] |
| Glsl.LengthUnique | components/HeatmapRenderer.tsx:39 | a vector has one length: two non-negative reals whose squares are its squared length are equal |
| Js.Round | components/HeatmapScene.tsx:39 | Math.round is the integer in (x - 0.5, x + 0.5] |
| Js.Floor | components/HeatmapScene.tsx:43 | Math.floor is the integer in (x - 1, x] |
| Js.Rem | components/HeatmapScene.tsx:36 | the remainder has the dividend's sign, is smaller than the divisor in magnitude, and differs from the dividend by a multiple of it |
| Js.ToUint8 | components/AppleHeatmapScene.tsx:123-126 | the Uint8Array store is a byte, and for a value in [0, 256) it is the floor |
| Js.ToBase16 | components/HeatmapScene.tsx:39 | toString(16) writes lower-case hex digits, one of them exactly below 16 and at most two below 256 |
| Js.IntToString16 | components/HeatmapScene.tsx:39 | toString(16) of an integer: a '-' for negatives, then the base-16 numeral of the magnitude |
| Js.PadStart | components/HeatmapScene.tsx:39 | padStart keeps the string at the end, fills the front with the fill character, and reaches the width |

## Left out

- React, react-three-fiber and Leva wiring: memo dependencies, effect timing, listener registration, key toggles and the Canvas set-up are not modelled. State updates are applied immediately rather than batched at the next render.
- The 50 ms `setTimeout` hold reset (components/Scene.tsx:122-127, components/AppleExactHeatmap.tsx:436-441) is the `HoldExpired` input, which may arrive at any point in the event sequence.
- WebGL calls and media are left out: `gl.render`, `setRenderTarget`, `clear`, the texture loaders and the video texture set-up (components/HeatMesh.tsx:97-145). A rendered frame is a function `shade` applied to the previous contents.
- The compositor's gradient shader and the draw shader that the Scene pipeline imports (`@/shaders/heat.frag`, `draw.frag`) are not part of this model. The inline kernels in HeatmapRenderer and AppleStyleHeatmap are modelled instead.
- Texture filtering and wrapping: a lookup is an opaque `Sampler` function.
- IEEE-754 rounding is not modelled: numbers are reals. `Math.random`, `sin`, `cos`, `pow`, the shaders' `random()` and `distance`/`Math.sqrt` are inputs. A distance is characterised by its square, not computed.
- The swaps at components/AppleStyleHeatmap.tsx:246 and components/HeatmapRenderer.tsx:146 reassign bindings that were destructured as `const`, and HeatmapRenderer's frame never renders (lines 141-143). Their ping-pong is therefore not modelled; the DrawRenderer one is.
- AppleHeatmapScene.LogoFragment: `smoothstep(heatRadius, 0.0, dist)` at components/AppleHeatmapScene.tsx:58 has its edges reversed, which section 8.3 of the OpenGL ES Shading Language specification leaves undefined. The falloff is therefore an input, and the heat texture sampled at lines 61-62 never reaches the output.
- AppleStyleHeatmap's gesture handlers are never registered: the GestureController it renders receives no-op callbacks (components/AppleStyleHeatmap.tsx:391-396). The handlers are modelled as written, driven directly by events.
- Zero-size rectangles and viewports are excluded (`HasArea` is required). JavaScript would produce Infinity or NaN there, which reals cannot represent.
- GestureController.Measure: the speed's distance `Math.sqrt(dx² + dy²)` is a parameter. SpeedIsRate states its relation to the displacement.
- AppleExactHeatmap.RenderTargetOptions and HeatmapRenderer.HeatTargetOptions assume three.js' defaults for the options these files do not set: unsigned bytes, no mipmaps, a depth buffer and no stencil buffer.
- uTime, uBlendVideo and outsideHeat, which AppleStyleHeatmap's heat kernel declares but never reads, are dropped from its uniform record. uSizeDamping and uStretch are also never read, but they are kept in the records, and SizeDampingUnused, StretchUnused and StretchAndRangeUnused show that the output does not depend on them.
- AppleStyleHeatmap's draw pass never runs. The component returns null (components/AppleStyleHeatmap.tsx:252), so the mesh ref declared at line 161 is never attached, and the frame callback returns at line 218. No draw texture is ever published, and uDrawTexture stays the mask (line 284), as UnwiredDrawMap states. DrawTargets, DrawUniforms and DrawKernelOfScene describe that pass as written, for the case where it is wired.
- uRnd is `Math.random()` at construction (components/AppleStyleHeatmap.tsx:272). InitialHeatUniforms takes it as a parameter.
- AppleHeatmapScene's `onMouseUpdate` and `onHeatUpdate` callbacks (components/AppleHeatmapScene.tsx:209, 215, 232) only feed the debug panel's display (lines 283-284), so they are not modelled. The values they would report are the modelled mouse and published heat.
- AppleHeatMesh's `timeRef` (components/AppleExactHeatmap.tsx:123, 312) is advanced each frame but never read, and its video and mask-wrapping effects are media set-up, so none of these are modelled.
- The `lastMousePos` and `lastTime` refs of the Scene component are written but never read, so they are not modelled.
- HeatmapScene.HslToHex and Palette are stated for s and l in [0, 100], the range the palette uses (60-80 and 41-56). Outside that range Math.round may produce a negative number or a value above 255, and the formatter's output is not characterised there.

## Findings

| source | as written | input that shows it | evidently intended | confidence | as-written member | corrected member |
|---|---|---|---|---|---|---|
| components/AppleStyleHeatmap.tsx:324-355 | moves publish min(1.3, acc) but never cap acc itself, and the decay frame publishes 0.95 acc unclamped (latent: the handlers are never registered, lines 391-396) | press, 30 moves, release, one frame: acc = 1.5, published 1.425 | the published heat never exceeds the 1.3 cap that the move handler applies | not executed | AppleStyleHeatmap.ReleaseExceedsCap | AppleStyleHeatmap.CappedRunStaysCapped |
| components/AppleHeatmapScene.tsx:202-234 | the same unclamped accumulator; the frame's max(0, ·) guards only the lower bound | press, 30 moves, release, one frame: published 1.425 | the published heat stays within [0, 1.3] | not executed | AppleHeatmapScene.ReleaseExceedsCap | AppleHeatmapScene.CappedRunStaysCapped |
