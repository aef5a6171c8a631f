/** The HeatmapScene component's colour randomiser: hslToHex (with its helpers k, a, f and toHex) and
    the six-entry palette it writes into the colour controls color2..color7. Math.random is an input. */
module HeatmapScene {
  import opened Glsl
  import opened Js
  import HeatMesh

  /** k(n) = (n + h / 30) % 12, with JavaScript's remainder. */
  function K(n: real, h: real): (k: real)
    ensures 0.0 <= n + h / 30.0 ==> 0.0 <= k < 12.0
    ensures IsInteger((n + h / 30.0 - k) / 12.0)
  {
    Rem(n + h / 30.0, 12.0)
  }

  /** a = s * min(l, 1 - l), with s and l as fractions. */
  function Chroma(s: real, l: real): (a: real)
    ensures 0.0 <= s <= 1.0 && 0.0 <= l <= 1.0 ==> 0.0 <= a <= Min(l, 1.0 - l)
    ensures s == 0.0 ==> a == 0.0
  {
    var m := Min(l, 1.0 - l);
    ChromaBound(s, m);
    s * m
  }

  lemma ChromaBound(s: real, m: real)
    ensures 0.0 <= s <= 1.0 && 0.0 <= m ==> 0.0 <= s * m <= m
  {
    if 0.0 <= s <= 1.0 && 0.0 <= m {
      FractionOf(s, m);
      MulNonneg(s, m);
    }
  }

  /** max(-1, min(k - 3, min(9 - k, 1))): the trapezoid the channel follows around the hue circle. */
  function Trapezoid(k: real): (t: real)
    ensures -1.0 <= t <= 1.0
  {
    Max(-1.0, Min(k - 3.0, Min(9.0 - k, 1.0)))
  }

  /** f(n) = l - a * trapezoid(k(n)). */
  function Channel(n: real, h: real, s: real, l: real): (v: real)
    ensures 0.0 <= s <= 1.0 && 0.0 <= l <= 1.0 ==>
              l - Chroma(s, l) <= v <= l + Chroma(s, l) && 0.0 <= v <= 1.0
    ensures s == 0.0 ==> v == l
  {
    var a, t := Chroma(s, l), Trapezoid(K(n, h));
    UnitMultiple(a, t);
    l - a * t
  }

  /** A multiple of a non-negative a by a factor in [-1, 1] lies in [-a, a]. */
  lemma UnitMultiple(a: real, t: real)
    requires -1.0 <= t <= 1.0
    ensures 0.0 <= a ==> -a <= a * t <= a
  {
    if 0.0 <= a {
      MulLeRight(a, t, 1.0);
      MulLeRight(a, -1.0, t);
    }
  }

  /** The byte Math.round(255 * x) that toHex formats. */
  function Byte(x: real): (b: int)
    ensures 0.0 <= x <= 1.0 ==> 0 <= b < 256
  {
    Round(255.0 * x)
  }

  /** toHex(x) = Math.round(255 * x).toString(16).padStart(2, "0"). */
  function ToHex(x: real): (r: string)
    ensures 0.0 <= x <= 1.0 ==> IsHexPair(r) && HeatMesh.ParseHexPair(r) == Byte(x)
  {
    Hex2(Byte(x))
  }

  /** A byte's base-16 numeral padded to two digits: toHex once the byte is rounded. */
  function Hex2(b: int): (r: string)
    ensures 0 <= b < 256 ==> IsHexPair(r) && HeatMesh.ParseHexPair(r) == b
  {
    if 0 <= b < 256 then
      PaddedByte(b);
      PadStart(IntToString16(b), 2, '0')
    else
      PadStart(IntToString16(b), 2, '0')
  }

  /** Two lower-case hexadecimal digits. */
  predicate IsHexPair(t: string) {
    |t| == 2 && HeatMesh.AllHex(t) && IsLowerHexDigit(t[0]) && IsLowerHexDigit(t[1])
  }

  /** '#' followed by three digit pairs is a colour hexToRGB accepts, and its groups are the pairs. */
  lemma HashOfPairs(t0: string, t1: string, t2: string)
    ensures IsHexPair(t0) && IsHexPair(t1) && IsHexPair(t2) ==>
              var r := "#" + t0 + t1 + t2;
              |r| == 7 && r[0] == '#' && HeatMesh.IsHexColor(r)
              && (forall i :: 1 <= i < 7 ==> IsLowerHexDigit(r[i]))
              && HeatMesh.Group(r, 0) == t0 && HeatMesh.Group(r, 1) == t1 && HeatMesh.Group(r, 2) == t2
  {
    if IsHexPair(t0) && IsHexPair(t1) && IsHexPair(t2) {
      var r := "#" + t0 + t1 + t2;
      assert r[1..] == t0 + t1 + t2;
      assert r[1..3] == t0 && r[3..5] == t1 && r[5..] == t2;
    }
  }

  /** A byte written in base 16 and padded to two digits reads back as the same byte. */
  lemma PaddedByte(b: nat)
    requires b < 256
    ensures var r := PadStart(ToBase16(b), 2, '0');
            IsHexPair(r) && HeatMesh.ParseHexPair(r) == b
  {
    if b < 16 {
      PaddedDigit(b);
    } else {
      PaddedPair(b);
    }
  }

  lemma PaddedDigit(b: nat)
    requires b < 16
    ensures var r := PadStart(ToBase16(b), 2, '0');
            IsHexPair(r) && HeatMesh.ParseHexPair(r) == b
  {
    assert ToBase16(b) == [HexDigit(b)];
    assert PadStart([HexDigit(b)], 2, '0') == PadStart(['0', HexDigit(b)], 2, '0');
    DigitValue(0);
    DigitValue(b);
    assert HeatMesh.ParseHexPair(['0', HexDigit(b)]) == 16 * 0 + b;
  }

  lemma PaddedPair(b: nat)
    requires 16 <= b < 256
    ensures var r := PadStart(ToBase16(b), 2, '0');
            IsHexPair(r) && HeatMesh.ParseHexPair(r) == b
  {
    var hi, lo := b / 16, b % 16;
    TwoDigits(b);
    DigitPair(hi, lo);
  }

  /** From 16 to 255, toString(16) writes exactly two digits: b / 16 then b % 16. */
  lemma TwoDigits(b: nat)
    requires 16 <= b < 256
    ensures ToBase16(b) == [HexDigit(b / 16), HexDigit(b % 16)]
  {
    assert ToBase16(b / 16) == [HexDigit(b / 16)];
  }

  /** Two digits written by toString(16) parse back to 16 hi + lo. */
  lemma DigitPair(hi: nat, lo: nat)
    requires hi < 16 && lo < 16
    ensures IsHexPair([HexDigit(hi), HexDigit(lo)])
    ensures HeatMesh.ParseHexPair([HexDigit(hi), HexDigit(lo)]) == 16 * hi + lo
  {
    DigitValue(hi);
    DigitValue(lo);
  }

  /** The digit toString(16) writes for d has the value d. */
  lemma DigitValue(d: nat)
    requires d < 16
    ensures HeatMesh.IsHexChar(HexDigit(d)) && HeatMesh.HexValue(HexDigit(d)) == d
  {
    var digits := "0123456789abcdef";
    assert HexDigit(d) == digits[d];
    if d < 10 {
      assert digits[d] == '0' + d as char by {
        assert digits[..10] == "0123456789";
      }
    } else {
      assert digits[d] == 'a' + (d - 10) as char by {
        assert digits[10..] == "abcdef";
      }
    }
  }

  /** hslToHex(h, s, l) with s and l in percent: '#' and the digit pairs of f(0), f(8) and f(4). */
  function HslToHex(h: real, s: real, l: real): (r: string)
    ensures 0.0 <= s <= 100.0 && 0.0 <= l <= 100.0 ==>
              |r| == 7 && r[0] == '#' && HeatMesh.IsHexColor(r)
              && forall i :: 1 <= i < 7 ==> IsLowerHexDigit(r[i])
  {
    Format(Bytes(h, s, l))
  }

  /** The bytes hslToHex writes, in order: Math.round(255 * f(n)) for n = 0, 8, 4. */
  function Bytes(h: real, s: real, l: real): (bs: seq<int>)
    ensures |bs| == 3
    ensures 0.0 <= s <= 100.0 && 0.0 <= l <= 100.0 ==> forall i :: 0 <= i < 3 ==> 0 <= bs[i] < 256
  {
    [Byte(Channel(0.0, h, s / 100.0, l / 100.0)), Byte(Channel(8.0, h, s / 100.0, l / 100.0)),
     Byte(Channel(4.0, h, s / 100.0, l / 100.0))]
  }

  /** '#' followed by the padded base-16 numerals of three bytes. */
  function Format(bs: seq<int>): (r: string)
    requires |bs| == 3
    ensures (forall i :: 0 <= i < 3 ==> 0 <= bs[i] < 256) ==>
              |r| == 7 && r[0] == '#' && HeatMesh.IsHexColor(r)
              && forall i :: 1 <= i < 7 ==> IsLowerHexDigit(r[i])
  {
    HashOfPairs(Hex2(bs[0]), Hex2(bs[1]), Hex2(bs[2]));
    "#" + Hex2(bs[0]) + Hex2(bs[1]) + Hex2(bs[2])
  }

  /** hexToRGB reads back, over 255, every triple of bytes Format writes. */
  lemma FormatRoundTrip(bs: seq<int>)
    requires |bs| == 3 && forall i :: 0 <= i < 3 ==> 0 <= bs[i] < 256
    ensures var c := HeatMesh.HexToRgb(Format(bs));
            c.x * 255.0 == bs[0] as real && c.y * 255.0 == bs[1] as real && c.z * 255.0 == bs[2] as real
  {
    PairsRoundTrip(Hex2(bs[0]), Hex2(bs[1]), Hex2(bs[2]));
  }

  /** Round trip: hexToRGB accepts every colour hslToHex writes and returns its bytes over 255. */
  lemma {:induction false} HslRoundTrip(h: real, s: real, l: real)
    requires 0.0 <= s <= 100.0 && 0.0 <= l <= 100.0
    ensures var c, bs := HeatMesh.HexToRgb(HslToHex(h, s, l)), Bytes(h, s, l);
            c.x * 255.0 == bs[0] as real && c.y * 255.0 == bs[1] as real && c.z * 255.0 == bs[2] as real
  {
    FormatRoundTrip(Bytes(h, s, l));
  }

  /** hexToRGB of '#' and three digit pairs reads each pair back. */
  lemma PairsRoundTrip(t0: string, t1: string, t2: string)
    requires IsHexPair(t0) && IsHexPair(t1) && IsHexPair(t2)
    ensures var c := HeatMesh.HexToRgb("#" + t0 + t1 + t2);
            c.x * 255.0 == HeatMesh.ParseHexPair(t0) as real
            && c.y * 255.0 == HeatMesh.ParseHexPair(t1) as real
            && c.z * 255.0 == HeatMesh.ParseHexPair(t2) as real
  {
    HashOfPairs(t0, t1, t2);
  }

  /** With zero saturation the three channels coincide: the colour is a grey of the lightness. */
  lemma GreyWithoutSaturation(h: real, l: real)
    ensures var b := Byte(l / 100.0); Bytes(h, 0.0, l) == [b, b, b]
    ensures var t := ToHex(l / 100.0); HslToHex(h, 0.0, l) == "#" + t + t + t
  {
    GreyChannels(h, l);
    var b := Byte(l / 100.0);
    assert HslToHex(h, 0.0, l) == Format([b, b, b]);
  }

  lemma GreyChannels(h: real, l: real)
    ensures var b := Byte(l / 100.0); Bytes(h, 0.0, l) == [b, b, b]
  {
    var lf := l / 100.0;
    assert 0.0 / 100.0 == 0.0;
    assert Channel(0.0, h, 0.0, lf) == lf;
    assert Channel(8.0, h, 0.0, lf) == lf;
    assert Channel(4.0, h, 0.0, lf) == lf;
  }

  /** The hue offsets of the six palette entries. */
  const Steps: seq<int> := [15, 35, 55, 85, 140, 200]

  /** base = Math.floor(Math.random() * 360). */
  function Base(random: real): (b: int)
    requires 0.0 <= random < 1.0
    ensures 0 <= b < 360
  {
    MulLtRight(360.0, random, 1.0);
    MulNonneg(360.0, random);
    Floor(random * 360.0)
  }

  /** The i-th entry's hue (base + step) % 360, saturation 80 - 4i and lightness 50 + 3(i - 3). */
  function Hue(base: int, i: nat): (hue: real)
    requires i < 6
    ensures 0 <= base ==> 0.0 <= hue < 360.0
  {
    Rem((base + Steps[i]) as real, 360.0)
  }

  function Saturation(i: nat): real {
    80.0 - 4.0 * i as real
  }

  function Lightness(i: nat): real {
    50.0 + 3.0 * (i as real - 3.0)
  }

  /** The palette: six colours, all accepted by hexToRGB. */
  function Palette(base: int): (p: seq<string>)
    ensures |p| == 6
    ensures forall i :: 0 <= i < 6 ==> p[i] == HslToHex(Hue(base, i), Saturation(i), Lightness(i))
    ensures forall i :: 0 <= i < 6 ==> HeatMesh.IsHexColor(p[i])
  {
    seq(6, i requires 0 <= i < 6 => HslToHex(Hue(base, i), Saturation(i), Lightness(i)))
  }

  /** The palette's saturations fall from 80 to 60 and its lightnesses rise from 41 to 56, all within
      the percent range. */
  lemma PaletteShades(i: nat)
    requires i < 6
    ensures 60.0 <= Saturation(i) <= 80.0 && 41.0 <= Lightness(i) <= 56.0
    ensures 0 < i ==> Saturation(i) < Saturation(i - 1) && Lightness(i - 1) < Lightness(i)
  {
  }

  /** setValueAtPath for color2..color7, in order. Each write sits in its own try/catch, so a key
      whose control is not mounted (mounted[i] false) keeps its value while the others still change. */
  function ApplyPalette(c: HeatMesh.Controls, palette: seq<string>, mounted: seq<bool>): (r: HeatMesh.Controls)
    requires |palette| == 6 && |mounted| == 6
    ensures r.color1 == c.color1
    ensures forall i :: 0 <= i < 6 ==> r.Colors()[i + 1] == if mounted[i] then palette[i] else c.Colors()[i + 1]
    ensures (forall i :: 0 <= i < 6 ==> mounted[i]) ==> r.Colors()[1..] == palette
    ensures (forall i :: 0 <= i < 6 ==> !mounted[i]) ==> r == c
    ensures r.(color2 := c.color2, color3 := c.color3, color4 := c.color4, color5 := c.color5,
               color6 := c.color6, color7 := c.color7) == c
  {
    c.(color2 := Written(c.color2, palette[0], mounted[0]), color3 := Written(c.color3, palette[1], mounted[1]),
       color4 := Written(c.color4, palette[2], mounted[2]), color5 := Written(c.color5, palette[3], mounted[3]),
       color6 := Written(c.color6, palette[4], mounted[4]), color7 := Written(c.color7, palette[5], mounted[5]))
  }

  /** One guarded write: the new value when the control is mounted, the old one when the write threw. */
  function Written(previous: string, value: string, mounted: bool): string {
    if mounted then value else previous
  }

  /** randomizeColors: each mounted key among color2..color7 takes its entry of the palette of
      floor(random * 360), and nothing else changes. */
  function Randomize(c: HeatMesh.Controls, random: real, mounted: seq<bool>): (r: HeatMesh.Controls)
    requires 0.0 <= random < 1.0 && |mounted| == 6
    ensures r.color1 == c.color1
    ensures forall i :: 0 <= i < 6 ==>
      r.Colors()[i + 1] == if mounted[i] then Palette(Base(random))[i] else c.Colors()[i + 1]
    ensures (forall i :: 0 <= i < 6 ==> mounted[i]) ==> r.Colors()[1..] == Palette(Base(random))
    ensures (forall i :: 0 <= i < 6 ==> !mounted[i]) ==> r == c
    ensures r.(color2 := c.color2, color3 := c.color3, color4 := c.color4, color5 := c.color5,
               color6 := c.color6, color7 := c.color7) == c
  {
    ApplyPalette(c, Palette(Base(random)), mounted)
  }

  /** After randomising, color1 is untouched and every colour whose control was mounted is one
      hexToRGB accepts. */
  lemma RandomizeKeepsColorsParseable(c: HeatMesh.Controls, random: real, mounted: seq<bool>)
    requires 0.0 <= random < 1.0 && |mounted| == 6
    ensures Randomize(c, random, mounted).color1 == c.color1
    ensures forall i :: 1 <= i < 7 && mounted[i - 1] ==> HeatMesh.IsHexColor(Randomize(c, random, mounted).Colors()[i])
  {
    HexPaletteWritesHex(c, Palette(Base(random)), mounted);
  }

  lemma HexPaletteWritesHex(c: HeatMesh.Controls, palette: seq<string>, mounted: seq<bool>)
    requires |palette| == 6 && |mounted| == 6
    requires forall i :: 0 <= i < 6 ==> HeatMesh.IsHexColor(palette[i])
    ensures forall i :: 1 <= i < 7 && mounted[i - 1] ==> HeatMesh.IsHexColor(ApplyPalette(c, palette, mounted).Colors()[i])
  {
    var cs := ApplyPalette(c, palette, mounted).Colors();
    forall i | 1 <= i < 7 && mounted[i - 1]
      ensures HeatMesh.IsHexColor(cs[i])
    {
      assert cs[(i - 1) + 1] == palette[i - 1];
    }
  }
}
