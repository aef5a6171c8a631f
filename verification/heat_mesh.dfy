/** The HeatMesh component's own logic: the hexToRGB colour parser, the packing of its controls into
    the compositing material's uniforms, the video-or-mask texture fallback, and the per-frame uniform
    refresh. Textures are an abstract type T; the random value drawn each frame is an input. */
module HeatMesh {
  import opened Glsl
  import opened Js

  /** A character of the class [a-f\d] under the case-insensitive flag. */
  predicate IsHexChar(c: char) {
    '0' <= c <= '9' || 'a' <= c <= 'f' || 'A' <= c <= 'F'
  }

  predicate AllHex(s: string) {
    forall i :: 0 <= i < |s| ==> IsHexChar(s[i])
  }

  /** The value of a hexadecimal digit. */
  function HexValue(c: char): (v: nat)
    requires IsHexChar(c)
    ensures v < 16
  {
    if '0' <= c <= '9' then (c - '0') as nat
    else if 'a' <= c <= 'f' then (c - 'a') as nat + 10
    else (c - 'A') as nat + 10
  }

  /** parseInt(s, 16) for a string of exactly two hexadecimal digits. */
  function ParseHexPair(s: string): (v: nat)
    requires |s| == 2 && AllHex(s)
    ensures v < 256
  {
    16 * HexValue(s[0]) + HexValue(s[1])
  }

  /** The three capture groups of a successful match. */
  datatype Captures = Captures(red: string, green: string, blue: string)

  /** The three groups ([a-f\d]{2}) matched from position i to the end of s. */
  function GroupsFrom(s: string, i: nat): (m: Option<Captures>)
    requires i <= |s|
    ensures m.Some? <==> |s| - i == 6 && AllHex(s[i..])
    ensures m.Some? ==> m.value == Captures(s[i..i + 2], s[i + 2..i + 4], s[i + 4..i + 6])
  {
    if |s| - i == 6 && AllHex(s[i..]) then
      Some(Captures(s[i..i + 2], s[i + 2..i + 4], s[i + 4..i + 6]))
    else
      None
  }

  datatype Option<T> = None | Some(value: T)

  /** /^#?([a-f\d]{2})([a-f\d]{2})([a-f\d]{2})$/i.exec(hex): the optional '#' is taken greedily, and
      if the groups fail after it the match is retried without it. */
  function Exec(hex: string): (m: Option<Captures>)
    ensures m.Some? <==> IsHexColor(hex)
    ensures m.Some? ==> IsHexColor(hex) && m.value == Captures(Group(hex, 0), Group(hex, 1), Group(hex, 2))
  {
    var withHash := if 0 < |hex| && hex[0] == '#' then GroupsFrom(hex, 1) else None;
    if withHash.Some? then
      GroupsAreGroups(hex, 1);
      withHash
    else
      var plain := GroupsFrom(hex, 0);
      if plain.Some? then GroupsAreGroups(hex, 0); plain else plain
  }

  /** Six digits matched from i to the end are the colour's three groups. */
  lemma GroupsAreGroups(hex: string, i: nat)
    requires i <= |hex| && GroupsFrom(hex, i).Some?
    requires i == 0 || (i == 1 && hex[0] == '#')
    ensures IsHexColor(hex)
    ensures GroupsFrom(hex, i).value == Captures(Group(hex, 0), Group(hex, 1), Group(hex, 2))
  {
    assert |hex| == i + 6 && AllHex(hex[i..]);
    assert hex[i..] == hex[|hex| - 6..];
  }

  /** The k-th two-digit group of a hex colour. */
  function Group(s: string, k: nat): (g: string)
    requires IsHexColor(s) && k < 3
    ensures |g| == 2 && AllHex(g)
    ensures g[0] == s[|s| - 6 + 2 * k] && g[1] == s[|s| - 5 + 2 * k]
  {
    assert AllHex(s[|s| - 6..]);
    s[|s| - 6 + 2 * k..|s| - 4 + 2 * k]
  }

  /** The strings the pattern accepts: six hexadecimal digits, optionally after one '#'. */
  predicate IsHexColor(s: string) {
    (|s| == 6 && AllHex(s)) || (|s| == 7 && s[0] == '#' && AllHex(s[1..]))
  }

  /** The value of the k-th of the three two-digit groups at the end of a hex colour. */
  function Channel(s: string, k: nat): (v: nat)
    requires IsHexColor(s) && k < 3
    ensures v < 256
  {
    ParseHexPair(Group(s, k))
  }

  /** hexToRGB: each channel is its two-digit value divided by 255; anything the pattern rejects is
      black. */
  function HexToRgb(hex: string): (c: Vec3)
    ensures 0.0 <= c.x <= 1.0 && 0.0 <= c.y <= 1.0 && 0.0 <= c.z <= 1.0
    ensures IsHexColor(hex) ==>
              c.x * 255.0 == Channel(hex, 0) as real
              && c.y * 255.0 == Channel(hex, 1) as real
              && c.z * 255.0 == Channel(hex, 2) as real
    ensures !IsHexColor(hex) ==> c == Vec3(0.0, 0.0, 0.0)
  {
    match Exec(hex)
    case Some(g) => Vec3(ByteFraction(ParseHexPair(g.red)), ByteFraction(ParseHexPair(g.green)),
                         ByteFraction(ParseHexPair(g.blue)))
    case None => Vec3(0.0, 0.0, 0.0)
  }

  /** A byte as a fraction of 255. */
  function ByteFraction(v: nat): (f: real)
    requires v < 256
    ensures 0.0 <= f <= 1.0 && f * 255.0 == v as real
  {
    v as real / 255.0
  }

  /** The lower-case form of a letter. */
  function ToLower(c: char): char {
    if 'A' <= c <= 'Z' then (c - 'A' + 'a') as char else c
  }

  function LowerCase(s: string): (r: string)
    ensures |r| == |s|
    ensures forall i :: 0 <= i < |s| ==> r[i] == ToLower(s[i])
  {
    seq(|s|, i requires 0 <= i < |s| => ToLower(s[i]))
  }

  /** The pattern is case-insensitive: lower-casing the input changes neither acceptance nor value. */
  lemma CaseInsensitive(hex: string)
    ensures IsHexColor(LowerCase(hex)) <==> IsHexColor(hex)
    ensures HexToRgb(LowerCase(hex)) == HexToRgb(hex)
  {
    var low := LowerCase(hex);
    LowerCaseKeepsHex(hex);
    if IsHexColor(hex) {
      LowerCaseKeepsGroup(hex, 0);
      LowerCaseKeepsGroup(hex, 1);
      LowerCaseKeepsGroup(hex, 2);
    }
  }

  /** Lower-casing keeps the characters of the class [a-f\d] and only those. */
  lemma LowerCaseKeepsHex(hex: string)
    ensures IsHexColor(LowerCase(hex)) <==> IsHexColor(hex)
    ensures forall i :: 0 <= i < |hex| && IsHexChar(hex[i]) ==>
              IsHexChar(LowerCase(hex)[i]) && HexValue(LowerCase(hex)[i]) == HexValue(hex[i])
  {
    var low := LowerCase(hex);
    forall i | 0 <= i < |hex|
      ensures IsHexChar(low[i]) <==> IsHexChar(hex[i])
    {
    }
    if |hex| == 7 {
      assert low[1..] == LowerCase(hex[1..]);
    }
  }

  /** Lower-casing a hex colour keeps the value of each of its groups. */
  lemma LowerCaseKeepsGroup(hex: string, k: nat)
    requires IsHexColor(hex) && k < 3
    ensures IsHexColor(LowerCase(hex)) && Channel(LowerCase(hex), k) == Channel(hex, k)
  {
    LowerCaseKeepsHex(hex);
    var low, g := LowerCase(hex), Group(hex, k);
    var lg := Group(low, k);
    assert HexValue(lg[0]) == HexValue(g[0]) && HexValue(lg[1]) == HexValue(g[1]);
  }

  /** Inputs the pattern rejects: three-digit shorthand, a doubled '#', a trailing character. */
  lemma RejectedExamples()
    ensures HexToRgb("#fff") == Vec3(0.0, 0.0, 0.0)
    ensures HexToRgb("##ffffff") == Vec3(0.0, 0.0, 0.0)
    ensures HexToRgb("#ffffff0") == Vec3(0.0, 0.0, 0.0)
    ensures HexToRgb("#fffffg") == Vec3(0.0, 0.0, 0.0)
  {
    assert !IsHexChar('#');
    assert !IsHexChar('g');
    assert "#fffffg"[1..][5] == 'g';
  }

  /** The controls of the "Heat Map" panel that reach the material. */
  datatype Controls = Controls(
    power: real, opacity: real, scale: Vec2, offset: Vec2,
    color1: string, color2: string, color3: string, color4: string, color5: string, color6: string,
    color7: string,
    blend: Vec4, fade: Vec4, maxBlend: Vec4)
  {
    /** The seven colour controls in order. */
    function Colors(): (cs: seq<string>)
      ensures |cs| == 7 && cs[0] == color1 && cs[6] == color7
    {
      [color1, color2, color3, color4, color5, color6, color7]
    }
  }

  /** The panel's initial values. */
  const DefaultControls := Controls(
    0.8, 1.0, Vec2(1.0, 1.0), Vec2(0.0, 0.0),
    "#000000", "#073dff", "#53d5fd", "#fefcdd", "#ffec6a", "#f9d400", "#a61904",
    Vec4(0.4, 0.7, 0.81, 0.91), Vec4(1.0, 1.0, 0.72, 0.52), Vec4(0.8, 0.87, 0.5, 0.27))

  /** Every default colour is accepted by the pattern, and the first is black. */
  lemma DefaultColorsParse()
    ensures forall i :: 0 <= i < 7 ==> IsHexColor(DefaultControls.Colors()[i])
    ensures HexToRgb(DefaultControls.color1) == Vec3(0.0, 0.0, 0.0)
    ensures HexToRgb(DefaultControls.color2) == Vec3(7.0 / 255.0, 61.0 / 255.0, 1.0)
  {
    var cs := DefaultControls.Colors();
    HashedColor(cs[0]);
    HashedColor(cs[1]);
    HashedColor(cs[2]);
    HashedColor(cs[3]);
    HashedColor(cs[4]);
    HashedColor(cs[5]);
    HashedColor(cs[6]);
    SecondColorValue();
  }

  /** The second default colour, #073dff, as fractions of 255. */
  lemma SecondColorValue()
    ensures HexToRgb(DefaultControls.color2) == Vec3(7.0 / 255.0, 61.0 / 255.0, 1.0)
  {
    var c2 := DefaultControls.color2;
    HashedColor(c2);
    assert Group(c2, 0) == "07" && Group(c2, 1) == "3d" && Group(c2, 2) == "ff";
  }

  /** A '#' followed by six hexadecimal digits is a hex colour. */
  lemma HashedColor(s: string)
    requires |s| == 7 && s[0] == '#'
    requires IsHexChar(s[1]) && IsHexChar(s[2]) && IsHexChar(s[3])
    requires IsHexChar(s[4]) && IsHexChar(s[5]) && IsHexChar(s[6])
    ensures IsHexColor(s)
  {
    assert forall i :: 1 <= i < 7 ==> IsHexChar(s[i]);
    assert forall i :: 0 <= i < 6 ==> s[1..][i] == s[i + 1];
  }

  /** The compositing material's uniforms. */
  datatype Uniforms<T> = Uniforms(
    blendVideo: real,
    drawMap: Nullable<T>,
    textureMap: T,
    maskMap: T,
    scale: Vec2,
    offset: Vec2,
    opacity: real,
    amount: real,
    colors: seq<Vec3>,
    blend: Vec4,
    fade: Vec4,
    power: real,
    rnd: real,
    maxBlend: Vec4,
    heat: Vec4,
    stretch: Vec4)

  /** The material memo: the colours parsed in order, the four-component controls packed in index
      order, the video texture when there is one and the mask otherwise. */
  function Material<T>(c: Controls, drawTexture: Nullable<T>, videoTexture: Nullable<T>, mask: T): (u: Uniforms<T>)
    ensures |u.colors| == 7
    ensures forall i :: 0 <= i < 7 ==> u.colors[i] == HexToRgb(c.Colors()[i])
    ensures u.blend == c.blend && u.fade == c.fade && u.maxBlend == c.maxBlend
    ensures videoTexture.Value? ==> u.textureMap == videoTexture.value
    ensures videoTexture.Null? ==> u.textureMap == mask
    ensures u.maskMap == mask && u.drawMap == drawTexture
    ensures u.scale == c.scale && u.offset == c.offset && u.opacity == c.opacity && u.power == c.power
    ensures u.blendVideo == 1.0 && u.amount == 1.0 && u.rnd == 0.0
    ensures u.heat == Vec4(0.0, 0.0, 0.0, 1.02) && u.stretch == Vec4(1.0, 1.0, 0.0, 0.0)
  {
    var colors := seq(7, i requires 0 <= i < 7 => HexToRgb(c.Colors()[i]));
    Uniforms(1.0, drawTexture, videoTexture.Or(mask), mask, c.scale, c.offset, c.opacity, 1.0, colors,
             c.blend, c.fade, c.power, 0.0, c.maxBlend, Vec4(0.0, 0.0, 0.0, 1.02), Vec4(1.0, 1.0, 0.0, 0.0))
  }

  /** The frame callback: a fresh random value and amount 1; nothing else changes. */
  function Refresh<T>(u: Uniforms<T>, random: real): (r: Uniforms<T>)
    ensures r.rnd == random && r.amount == 1.0
    ensures r.(rnd := u.rnd, amount := u.amount) == u
  {
    u.(rnd := random, amount := 1.0)
  }
}
