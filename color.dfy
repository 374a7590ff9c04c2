/** The picker's color value (src/color.rs): one color held both as RGB
    (0..255) and as HSV (hue 0..360, saturation and value 0..100), together
    with a hex string, and the conversions between RGB, HSV, HSL and CMYK.
    Every conversion goes through the 0..1 float scale and truncates back to
    `u16`; floats are exact reals here. */
module ColorModel {
  import opened Prims

  /** The channel names a color answers to, in the order the picker lists them. */
  const Labels: seq<string> := ["r", "g", "b", "h", "s", "v"]
  const RgbLabels: seq<string> := ["r", "g", "b"]
  const HsvLabels: seq<string> := ["h", "s", "v"]

  /** The largest value of a named channel: 255 for r, g, b; 360 for h; 100 for s, v. */
  function ChannelMax(name: string): (m: U16)
    requires name in Labels
    ensures 0 < m <= 360
  {
    if name in RgbLabels then 255 else if name == "h" then 360 else 100
  }

  datatype Color = Color(r: U16, g: U16, b: U16, h: U16, s: U16, v: U16, hex: string)
  {
    /** Every channel lies in its domain. */
    predicate InRange()
    {
      r <= 255 && g <= 255 && b <= 255 && h <= 360 && s <= 100 && v <= 100
    }

    /** The value of the channel called `name`, and 0 for any other name. */
    function ValueByName(name: string): (x: U16)
      ensures name !in Labels ==> x == 0
      ensures InRange() && name in Labels ==> x <= ChannelMax(name)
    {
      if name == "r" then r
      else if name == "g" then g
      else if name == "b" then b
      else if name == "h" then h
      else if name == "s" then s
      else if name == "v" then v
      else 0
    }

    /** The channel called `name` on the 0..1 scale, and 0 for any other name. */
    function FloatByName(name: string): (x: real)
      ensures name !in Labels ==> x == 0.0
    {
      if name == "r" then r as real / 255.0
      else if name == "g" then g as real / 255.0
      else if name == "b" then b as real / 255.0
      else if name == "h" then h as real / 360.0
      else if name == "s" then s as real / 100.0
      else if name == "v" then v as real / 100.0
      else 0.0
    }

    /** A named channel's fraction is its value over the channel's maximum. */
    lemma FloatByNameScale(name: string)
      requires name in Labels
      ensures FloatByName(name) == ValueByName(name) as real / ChannelMax(name) as real
    {
      if name in RgbLabels {
        assert ChannelMax(name) == 255;
      } else if name == "h" {
        assert ChannelMax(name) == 360;
      } else {
        assert name == "s" || name == "v";
      }
    }

    /** For an in-range color every channel's fraction lies in 0..1. */
    lemma FloatByNameUnit(name: string)
      requires InRange()
      ensures 0.0 <= FloatByName(name) <= 1.0
    {
      if name in Labels {
        FloatByNameScale(name);
        var x, m := ValueByName(name) as real, ChannelMax(name) as real;
        assert x <= m;
        QuotientInUnit(x, m);
      }
    }

    /** The contrasting handle outline: the opposite hue at saturation 85 and value 75.
        The `u16` sum `h + 180` panics on overflow. */
    function Inv(): (c: Color)
      requires h + 180 <= U16_MAX
      ensures c.h == HalfTurn(h) && c.s == 85 && c.v == 75
      ensures c.InRange()
    {
      FromHsv(HalfTurn(h), 85, 75)
    }

    /** The dimmed color: the opposite hue at saturation 30 and the complementary
        value `100 - v`. The `u16` operations panic on overflow. */
    function Dim(): (c: Color)
      requires h + 180 <= U16_MAX && v <= 100
      ensures c.h == HalfTurn(h) && c.s == 30 && c.v == 100 - v
      ensures c.InRange()
    {
      FromHsv(HalfTurn(h), 30, 100 - v)
    }
  }

  // ---------------------------------------------------------------------
  // Constructors
  // ---------------------------------------------------------------------

  /** `Color::from_rgb`: clamps each channel to 0..255 and derives HSV and hex. */
  function FromRgb(r: U16, g: U16, b: U16): (c: Color)
    ensures c.r == Clamp(r, 0, 255) && c.g == Clamp(g, 0, 255) && c.b == Clamp(b, 0, 255)
    ensures (c.h, c.s, c.v) == RgbToHsv(c.r, c.g, c.b)
    ensures c.hex == GetHex(c.r, c.g, c.b)
    ensures c.InRange() && c.h < 360
  {
    var cr, cg, cb := Clamp(r, 0, 255), Clamp(g, 0, 255), Clamp(b, 0, 255);
    RgbToHsvBounds(cr, cg, cb);
    var hsv := RgbToHsv(cr, cg, cb);
    Color(cr, cg, cb, hsv.0, hsv.1, hsv.2, GetHex(cr, cg, cb))
  }

  /** `Color::from_hsv`: clamps hue to 0..360 and saturation and value to
      0..100, and derives RGB and hex. */
  function FromHsv(h: U16, s: U16, v: U16): (c: Color)
    ensures c.h == Clamp(h, 0, 360) && c.s == Clamp(s, 0, 100) && c.v == Clamp(v, 0, 100)
    ensures (c.r, c.g, c.b) == HsvToRgb(c.h, c.s, c.v)
    ensures c.hex == GetHex(c.r, c.g, c.b)
    ensures c.InRange()
  {
    var ch, cs, cv := Clamp(h, 0, 360), Clamp(s, 0, 100), Clamp(v, 0, 100);
    HsvToRgbBounds(ch, cs, cv);
    var rgb := HsvToRgb(ch, cs, cv);
    Color(rgb.0, rgb.1, rgb.2, ch, cs, cv, GetHex(rgb.0, rgb.1, rgb.2))
  }

  /** `Color::from_hex`: a string of 7 bytes starting with `#` whose rest
      `u32::from_str_radix` reads in base 16; the channels are the low three
      big-endian bytes, and the string itself is kept as the hex text. */
  function FromHex(hex: string): (c: Option<Color>)
    ensures c.Some? ==> c.value.InRange() && c.value.h < 360 && c.value.hex == hex
    ensures c.Some? ==> (c.value.h, c.value.s, c.value.v) == RgbToHsv(c.value.r, c.value.g, c.value.b)
  {
    if Utf8Len(hex) != 7 then None
    else
      match StripPrefix(hex, '#')
      case None => None
      case Some(stripped) =>
        match FromStrRadix16(stripped)
        case None => None
        case Some(x) =>
          var r, g, b := (x / 0x1_0000) % 0x100, (x / 0x100) % 0x100, x % 0x100;
          RgbToHsvBounds(r, g, b);
          var hsv := RgbToHsv(r, g, b);
          Some(Color(r, g, b, hsv.0, hsv.1, hsv.2, hex))
  }

  /** `get_hex`: `#` and the three channels in uppercase hexadecimal, each
      without zero padding. */
  function GetHex(r: U16, g: U16, b: U16): (s: string)
    ensures 4 <= |s| && s[0] == '#'
    ensures r <= 255 && g <= 255 && b <= 255 ==> |s| <= 7
  {
    "#" + UpperHex(r) + UpperHex(g) + UpperHex(b)
  }

  // ---------------------------------------------------------------------
  // Conversions
  // ---------------------------------------------------------------------

  /** A 0..255 channel on the 0..1 scale. */
  function Unit(x: U16): real { x as real / 255.0 }

  function CMax(r01: real, g01: real, b01: real): real { RMax(r01, RMax(g01, b01)) }

  function CMin(r01: real, g01: real, b01: real): real { RMin(r01, RMin(g01, b01)) }

  function Max3(a: int, b: int, c: int): int
  {
    if a >= b && a >= c then a else if b >= c then b else c
  }

  function Min3(a: int, b: int, c: int): int
  {
    if a <= b && a <= c then a else if b <= c then b else c
  }

  /** The hue formula shared by `rgb_to_hsv` and `rgb_to_hsl`: 0 when the
      chroma is at most 0.0001, otherwise the 60-degree sector formula of the
      largest channel, reduced with the float remainder into 0..360. */
  function Hue(r01: real, g01: real, b01: real): (h: real)
    requires 0.0 <= r01 && 0.0 <= g01 && 0.0 <= b01
    ensures 0.0 <= h < 360.0
    ensures CMax(r01, g01, b01) - CMin(r01, g01, b01) <= 0.0001 ==> h == 0.0
  {
    var cmax := CMax(r01, g01, b01);
    var delta := cmax - CMin(r01, g01, b01);
    if delta <= 0.0001 then 0.0
    else if cmax == r01 then
      RatioAtLeastMinusOne(g01 - b01, delta);
      FRem(60.0 * ((g01 - b01) / delta) + 360.0, 360.0)
    else if cmax == g01 then
      RatioAtLeastMinusOne(b01 - r01, delta);
      FRem(60.0 * ((b01 - r01) / delta) + 120.0, 360.0)
    else if cmax == b01 then
      RatioAtLeastMinusOne(r01 - g01, delta);
      FRem(60.0 * ((r01 - g01) / delta) + 240.0, 360.0)
    else 0.0
  }

  lemma RatioAtLeastMinusOne(a: real, d: real)
    requires 0.0 < d && -d <= a
    ensures -1.0 <= a / d
  {
    var q := a / d;
    assert d * q == a;
  }

  /** `rgb_to_hsv`: hue, saturation `delta / cmax` and value `cmax`, each
      truncated to `u16`. */
  function RgbToHsv(r: U16, g: U16, b: U16): (hsv: (U16, U16, U16))
    ensures hsv.0 < 360
  {
    var r01, g01, b01 := Unit(r), Unit(g), Unit(b);
    var cmax := CMax(r01, g01, b01);
    var delta := cmax - CMin(r01, g01, b01);
    var h := Hue(r01, g01, b01);
    var s := if cmax != 0.0 then (delta / cmax) * 100.0 else 0.0;
    var v := cmax * 100.0;
    (AsU16(h), AsU16(s), AsU16(v))
  }

  /** `rgb_to_hsl`: hue, saturation `delta / (1 - |2l - 1|)` when the chroma
      exceeds 0.0001, and lightness `(cmax + cmin) / 2`, truncated to `u16`. */
  function RgbToHsl(r: U16, g: U16, b: U16): (hsl: (U16, U16, U16))
    ensures hsl.0 < 360
  {
    var r01, g01, b01 := Unit(r), Unit(g), Unit(b);
    var cmax := CMax(r01, g01, b01);
    var cmin := CMin(r01, g01, b01);
    var delta := cmax - cmin;
    var h := Hue(r01, g01, b01);
    var l := (cmax + cmin) * 0.5;
    var s := if delta > 0.0001 then PercentOf(delta, 1.0 - RAbs(2.0 * l - 1.0)) else 0;
    (AsU16(h), s, AsU16(l * 100.0))
  }

  /** `(num / den * 100.0) as u16` in `f32`: a zero denominator yields NaN
      for a zero numerator and an infinity otherwise, which the cast saturates. */
  function PercentOf(num: real, den: real): U16
  {
    if den != 0.0 then AsU16(num / den * 100.0)
    else if num > 0.0 then U16_MAX
    else 0
  }

  /** `rgb_to_cymk`: black `k = 1 - cmax` and each ink `(1 - x - k) / (1 - k)`,
      returned in the order (c, y, m, k). */
  function RgbToCymk(r: U16, g: U16, b: U16): (cymk: (U16, U16, U16, U16))
  {
    var r01, g01, b01 := Unit(r), Unit(g), Unit(b);
    var k := 1.0 - CMax(r01, g01, b01);
    var c := PercentOf(1.0 - r01 - k, 1.0 - k);
    var m := PercentOf(1.0 - g01 - k, 1.0 - k);
    var y := PercentOf(1.0 - b01 - k, 1.0 - k);
    (c, y, m, AsU16(k * 100.0))
  }

  /** `hsv_to_rbg`: chroma `c = s * v`, the second component `x`, the offset
      `m = v - c`, and the 60-degree band of `h` choosing where `c` and `x` go. */
  function HsvToRgb(h: U16, s: U16, v: U16): (rgb: (U16, U16, U16))
  {
    Channels(Band(h, Chroma(s, v), Second(h, Chroma(s, v))), Offset(s, v))
  }

  /** The second component `x = c * (1 - |(h / 60) % 2 - 1|)` for chroma `c`. */
  function Second(h: U16, c: real): real
  {
    c * SectorWeight(h)
  }

  /** The offset `m = v - c` added to every channel. */
  function Offset(s: U16, v: U16): real
  {
    v as real / 100.0 - Chroma(s, v)
  }

  /** The three channels of a placement `t` of chroma and second component,
      each raised by the offset `m` and scaled to 0..255 by the `u16` cast. */
  function Channels(t: (real, real, real), m: real): (rgb: (U16, U16, U16))
  {
    (AsU16((t.0 + m) * 255.0), AsU16((t.1 + m) * 255.0), AsU16((t.2 + m) * 255.0))
  }

  /** The chroma `c = s * v` on the 0..1 scale. */
  function Chroma(s: U16, v: U16): real
  {
    (s as real / 100.0) * (v as real / 100.0)
  }

  /** The factor `1 - |(h / 60) % 2 - 1|` that scales the chroma into the
      second component: 0 at multiples of 120 degrees, 1 at the odd multiples of 60. */
  function SectorWeight(h: U16): (w: real)
    ensures 0.0 <= w <= 1.0
  {
    1.0 - RAbs(FRem(h as real / 60.0, 2.0) - 1.0)
  }

  /** The placement of chroma `c` and second component `x` for the band of `h`:
      below 60, 120, 180, 240, 300 degrees, and the last band from 300 up. */
  function Band(h: U16, c: real, x: real): (t: (real, real, real))
    ensures t.0 in {c, x, 0.0} && t.1 in {c, x, 0.0} && t.2 in {c, x, 0.0}
    ensures t.0 == c || t.1 == c || t.2 == c
  {
    if h < 60 then (c, x, 0.0)
    else if h < 120 then (x, c, 0.0)
    else if h < 180 then (0.0, c, x)
    else if h < 240 then (0.0, x, c)
    else if h < 300 then (x, 0.0, c)
    else (c, 0.0, x)
  }

  // ---------------------------------------------------------------------
  // RGB to HSV
  // ---------------------------------------------------------------------

  lemma UnitExtremes(r: U16, g: U16, b: U16)
    ensures CMax(Unit(r), Unit(g), Unit(b)) == Unit(Max3(r, g, b))
    ensures CMin(Unit(r), Unit(g), Unit(b)) == Unit(Min3(r, g, b))
  {
  }

  /** Scaling numerator and denominator by 1/255 leaves the ratio unchanged. */
  lemma ScaledRatio(a: int, d: int)
    requires 0 < d
    ensures (a as real / 255.0) / (d as real / 255.0) * 100.0 == (a * 100) as real / d as real
  {
    var q := (a as real / 255.0) / (d as real / 255.0);
    assert q * (d as real / 255.0) == a as real / 255.0;
    assert q * d as real == a as real;
    assert (a * 100) as real == q * 100.0 * d as real;
  }

  /** An integer reference for `rgb_to_hsv` on 0..255: the value is
      `100 * max / 255` and the saturation `100 * (max - min) / max`, both
      truncated. */
  lemma RgbToHsvReference(r: U16, g: U16, b: U16)
    requires r <= 255 && g <= 255 && b <= 255
    ensures RgbToHsv(r, g, b).2 == Max3(r, g, b) * 100 / 255
    ensures RgbToHsv(r, g, b).1 ==
      if Max3(r, g, b) == 0 then 0 else (Max3(r, g, b) - Min3(r, g, b)) * 100 / Max3(r, g, b)
  {
    var hi, lo := Max3(r, g, b), Min3(r, g, b);
    UnitExtremes(r, g, b);
    var cmax, cmin := Unit(hi), Unit(lo);
    assert RgbToHsv(r, g, b).2 == AsU16(cmax * 100.0);
    assert RgbToHsv(r, g, b).1 == if cmax != 0.0 then AsU16((cmax - cmin) / cmax * 100.0) else 0;
    ValueReference(hi);
    if hi != 0 {
      SaturationReference(hi, lo);
    }
  }

  lemma ValueReference(hi: int)
    requires 0 <= hi <= 255
    ensures AsU16(hi as real / 255.0 * 100.0) == hi * 100 / 255
  {
    assert hi as real / 255.0 * 100.0 == (hi * 100) as real / 255 as real;
    AsU16Quotient(hi * 100, 255);
  }

  lemma SaturationReference(hi: int, lo: int)
    requires 0 <= lo <= hi <= 255 && 0 < hi
    ensures AsU16((hi as real / 255.0 - lo as real / 255.0) / (hi as real / 255.0) * 100.0) == (hi - lo) * 100 / hi
  {
    assert hi as real / 255.0 - lo as real / 255.0 == (hi - lo) as real / 255.0;
    ScaledRatio(hi - lo, hi);
    QuotientAtMost((hi - lo) * 100, hi, 100);
    AsU16Quotient((hi - lo) * 100, hi);
  }

  lemma QuotientAtMost(x: int, d: int, k: int)
    requires 0 <= x <= k * d && 0 < d
    ensures x / d <= k
  {
  }

  /** On 0..255 channels `rgb_to_hsv` yields saturation and value in 0..100. */
  lemma RgbToHsvBounds(r: U16, g: U16, b: U16)
    requires r <= 255 && g <= 255 && b <= 255
    ensures RgbToHsv(r, g, b).1 <= 100 && RgbToHsv(r, g, b).2 <= 100
  {
    RgbToHsvReference(r, g, b);
    var hi, lo := Max3(r, g, b), Min3(r, g, b);
    QuotientAtMost(hi * 100, 255, 100);
    if hi != 0 {
      QuotientAtMost((hi - lo) * 100, hi, 100);
    }
  }

  /** A gray (all channels equal) has hue 0 and saturation 0. */
  lemma RgbToHsvGray(x: U16)
    requires x <= 255
    ensures RgbToHsv(x, x, x) == (0, 0, x * 100 / 255)
  {
    RgbToHsvReference(x, x, x);
  }

  /** Pure red, green and blue have hues 0, 120 and 240 at full saturation and value. */
  lemma RgbToHsvPrimaries()
    ensures RgbToHsv(255, 0, 0) == (0, 100, 100)
    ensures RgbToHsv(0, 255, 0) == (120, 100, 100)
    ensures RgbToHsv(0, 0, 255) == (240, 100, 100)
  {
    RgbToHsvReference(255, 0, 0);
    RgbToHsvReference(0, 255, 0);
    RgbToHsvReference(0, 0, 255);
    PrimaryHues();
    assert Unit(255) == 1.0 && Unit(0) == 0.0;
  }

  /** The hue formula places the unit primaries at 0, 120 and 240 degrees. */
  lemma PrimaryHues()
    ensures Hue(1.0, 0.0, 0.0) == 0.0
    ensures Hue(0.0, 1.0, 0.0) == 120.0
    ensures Hue(0.0, 0.0, 1.0) == 240.0
  {
    assert FRem(360.0, 360.0) == 0.0;
  }

  // ---------------------------------------------------------------------
  // RGB to HSL and CMYK
  // ---------------------------------------------------------------------

  /** An integer reference for `rgb_to_hsl` on 0..255: the lightness is
      `50 * (max + min) / 255` and, for a chromatic color, the saturation is
      `100 * (max - min) / (255 - |max + min - 255|)`, all truncated. */
  lemma RgbToHslReference(r: U16, g: U16, b: U16)
    requires r <= 255 && g <= 255 && b <= 255
    ensures RgbToHsl(r, g, b).2 == (Max3(r, g, b) + Min3(r, g, b)) * 50 / 255
    ensures Max3(r, g, b) == Min3(r, g, b) ==> RgbToHsl(r, g, b) == (0, 0, Max3(r, g, b) * 100 / 255)
    ensures Max3(r, g, b) != Min3(r, g, b) ==>
      var hi, lo := Max3(r, g, b), Min3(r, g, b);
      RgbToHsl(r, g, b).1 == (hi - lo) * 100 / (255 - if hi + lo > 255 then hi + lo - 255 else 255 - hi - lo)
  {
    var hi, lo := Max3(r, g, b), Min3(r, g, b);
    UnitExtremes(r, g, b);
    HslLightness(hi, lo);
    if hi != lo {
      HslSaturation(hi, lo);
    } else {
      assert (hi + lo) * 50 == hi * 100;
    }
  }

  lemma HslLightness(hi: int, lo: int)
    requires 0 <= lo <= hi <= 255
    ensures AsU16((Unit(hi) + Unit(lo)) * 0.5 * 100.0) == (hi + lo) * 50 / 255
  {
    assert (Unit(hi) + Unit(lo)) * 0.5 * 100.0 == ((hi + lo) * 50) as real / 255 as real;
    AsU16Quotient((hi + lo) * 50, 255);
  }

  lemma HslSaturation(hi: int, lo: int)
    requires 0 <= lo < hi <= 255
    ensures var l := (Unit(hi) + Unit(lo)) * 0.5;
      PercentOf(Unit(hi) - Unit(lo), 1.0 - RAbs(2.0 * l - 1.0)) ==
        (hi - lo) * 100 / (255 - if hi + lo > 255 then hi + lo - 255 else 255 - hi - lo)
  {
    var l := (Unit(hi) + Unit(lo)) * 0.5;
    var den := 255 - if hi + lo > 255 then hi + lo - 255 else 255 - hi - lo;
    assert 1.0 - RAbs(2.0 * l - 1.0) == den as real / 255.0;
    assert Unit(hi) - Unit(lo) == (hi - lo) as real / 255.0;
    ScaledRatio(hi - lo, den);
    QuotientAtMost((hi - lo) * 100, den, 100);
    AsU16Quotient((hi - lo) * 100, den);
  }


  /** On 0..255 channels `rgb_to_hsl` yields saturation and lightness in 0..100. */
  lemma RgbToHslBounds(r: U16, g: U16, b: U16)
    requires r <= 255 && g <= 255 && b <= 255
    ensures RgbToHsl(r, g, b).1 <= 100 && RgbToHsl(r, g, b).2 <= 100
  {
    RgbToHslReference(r, g, b);
    var hi, lo := Max3(r, g, b), Min3(r, g, b);
    QuotientAtMost((hi + lo) * 50, 255, 100);
    if hi == lo {
      QuotientAtMost(hi * 100, 255, 100);
    } else {
      var den := 255 - if hi + lo > 255 then hi + lo - 255 else 255 - hi - lo;
      QuotientAtMost((hi - lo) * 100, den, 100);
    }
  }

  /** Pure red is hue 0, saturation 100, lightness 50. */
  lemma RgbToHslRed()
    ensures RgbToHsl(255, 0, 0) == (0, 100, 50)
  {
  }

  /** An integer reference for `rgb_to_cymk` on 0..255: `k` is
      `100 * (255 - max) / 255`; for a color other than black each ink is
      `100 * (max - x) / max`; black is (0, 0, 0, 100), its zero-by-zero
      inks giving NaN, which the cast turns into 0. */
  lemma RgbToCymkReference(r: U16, g: U16, b: U16)
    requires r <= 255 && g <= 255 && b <= 255
    ensures RgbToCymk(r, g, b).3 == (255 - Max3(r, g, b)) * 100 / 255
    ensures Max3(r, g, b) == 0 ==> RgbToCymk(r, g, b) == (0, 0, 0, 100)
    ensures Max3(r, g, b) != 0 ==>
      var hi := Max3(r, g, b);
      RgbToCymk(r, g, b).0 == (hi - r) * 100 / hi &&
      RgbToCymk(r, g, b).1 == (hi - b) * 100 / hi &&
      RgbToCymk(r, g, b).2 == (hi - g) * 100 / hi
  {
    var hi := Max3(r, g, b);
    UnitExtremes(r, g, b);
    var k := 1.0 - Unit(hi);
    assert k * 100.0 == ((255 - hi) * 100) as real / 255 as real;
    AsU16Quotient((255 - hi) * 100, 255);
    if hi != 0 {
      InkReference(r, hi, k);
      InkReference(g, hi, k);
      InkReference(b, hi, k);
    }
  }

  lemma InkReference(x: U16, hi: int, k: real)
    requires x <= hi <= 255 && 0 < hi && k == 1.0 - Unit(hi as U16)
    ensures PercentOf(1.0 - Unit(x) - k, 1.0 - k) == (hi - x) * 100 / hi
  {
    assert 1.0 - Unit(x) - k == (hi - x) as real / 255.0;
    assert 1.0 - k == hi as real / 255.0;
    ScaledRatio(hi - x, hi);
    QuotientAtMost((hi - x) * 100, hi, 100);
    AsU16Quotient((hi - x) * 100, hi);
  }

  /** On 0..255 channels every component of `rgb_to_cymk` lies in 0..100. */
  lemma RgbToCymkBounds(r: U16, g: U16, b: U16)
    requires r <= 255 && g <= 255 && b <= 255
    ensures var t := RgbToCymk(r, g, b); t.0 <= 100 && t.1 <= 100 && t.2 <= 100 && t.3 <= 100
  {
    RgbToCymkReference(r, g, b);
    var hi := Max3(r, g, b);
    QuotientAtMost((255 - hi) * 100, 255, 100);
    if hi != 0 {
      QuotientAtMost((hi - r) * 100, hi, 100);
      QuotientAtMost((hi - g) * 100, hi, 100);
      QuotientAtMost((hi - b) * 100, hi, 100);
    }
  }

  /** The tuple is ordered (c, y, m, k): yellow puts its 100 in the second place. */
  lemma RgbToCymkOrder()
    ensures RgbToCymk(255, 255, 0) == (0, 100, 0, 0)
    ensures RgbToCymk(0, 0, 0) == (0, 0, 0, 100)
  {
    RgbToCymkReference(255, 255, 0);
    RgbToCymkReference(0, 0, 0);
  }

  // ---------------------------------------------------------------------
  // HSV to RGB
  // ---------------------------------------------------------------------

  /** The parts of `hsv_to_rbg` for saturation and value in 0..100: the
      second component lies between 0 and the chroma, and chroma plus offset
      is the value. */
  lemma HsvParts(h: U16, s: U16, v: U16)
    requires s <= 100 && v <= 100
    ensures 0.0 <= Second(h, Chroma(s, v)) <= Chroma(s, v) <= v as real / 100.0 <= 1.0
  {
    ChromaBounds(s, v);
    SecondBounds(h, Chroma(s, v));
  }

  lemma SecondBounds(h: U16, c: real)
    requires 0.0 <= c
    ensures 0.0 <= Second(h, c) <= c
  {
    var w := SectorWeight(h);
    ScaleDown(c, w);
    assert Second(h, c) == c * w;
  }

  lemma ChromaBounds(s: U16, v: U16)
    requires s <= 100 && v <= 100
    ensures 0.0 <= Chroma(s, v) <= v as real / 100.0 <= 1.0
  {
    var sf, vf := s as real / 100.0, v as real / 100.0;
    assert 0.0 <= sf <= 1.0 && 0.0 <= vf <= 1.0;
    ScaleDown(vf, sf);
    assert Chroma(s, v) == sf * vf;
  }

  /** For saturation and value in 0..100, every RGB channel lies in 0..255. */
  lemma HsvToRgbBounds(h: U16, s: U16, v: U16)
    requires s <= 100 && v <= 100
    ensures var rgb := HsvToRgb(h, s, v); rgb.0 <= 255 && rgb.1 <= 255 && rgb.2 <= 255
  {
    HsvToRgbValue(h, s, v);
    QuotientAtMost(v * 255, 100, 255);
  }

  /** The largest RGB channel is the value scaled to 0..255: `255 * v / 100`, truncated. */
  lemma HsvToRgbValue(h: U16, s: U16, v: U16)
    requires s <= 100 && v <= 100
    ensures var rgb := HsvToRgb(h, s, v); Max3(rgb.0, rgb.1, rgb.2) == v * 255 / 100
  {
    HsvParts(h, s, v);
    var c := Chroma(s, v);
    PlacementMax(Band(h, c, Second(h, c)), c, Second(h, c), Offset(s, v));
    ValueTop(s, v);
  }

  lemma ValueTop(s: U16, v: U16)
    requires v <= 100
    ensures AsU16((Chroma(s, v) + Offset(s, v)) * 255.0) == v * 255 / 100
  {
    assert (Chroma(s, v) + Offset(s, v)) * 255.0 == (v * 255) as real / 100 as real;
    AsU16Quotient(v * 255, 100);
  }

  /** Whatever band places them, the largest channel is the one carrying the chroma. */
  lemma PlacementMax(t: (real, real, real), c: real, x: real, m: real)
    requires t.0 in {c, x, 0.0} && t.1 in {c, x, 0.0} && t.2 in {c, x, 0.0}
    requires t.0 == c || t.1 == c || t.2 == c
    requires 0.0 <= x <= c
    ensures var rgb := Channels(t, m); Max3(rgb.0, rgb.1, rgb.2) == AsU16((c + m) * 255.0)
  {
    AsU16Monotonic((t.0 + m) * 255.0, (c + m) * 255.0);
    AsU16Monotonic((t.1 + m) * 255.0, (c + m) * 255.0);
    AsU16Monotonic((t.2 + m) * 255.0, (c + m) * 255.0);
  }

  /** Zero saturation gives a gray whose channels are `255 * v / 100`, truncated. */
  lemma HsvToRgbGray(h: U16, v: U16)
    requires v <= 100
    ensures HsvToRgb(h, 0, v) == (v * 255 / 100, v * 255 / 100, v * 255 / 100)
  {
    var v01 := v as real / 100.0;
    assert Chroma(0, v) == 0.0;
    assert 0.0 * SectorWeight(h) == 0.0;
    assert (0.0 + (v01 - 0.0)) * 255.0 == (v * 255) as real / 100 as real;
    AsU16Quotient(v * 255, 100);
  }

  /** Hue 360 falls in the last band and gives the same color as hue 0. */
  lemma HsvToRgbFullCircle(s: U16, v: U16)
    ensures HsvToRgb(360, s, v) == HsvToRgb(0, s, v)
  {
    var c := Chroma(s, v);
    assert SectorWeight(0) == 0.0;
    assert SectorWeight(360) == 0.0 by {
      assert (RAbs(360 as real / 60.0) / 2.0).Floor == 3;
    }
    assert Second(0, c) == 0.0 == Second(360, c);
    assert Band(0, c, 0.0) == (c, 0.0, 0.0) == Band(360, c, 0.0);
  }

  /** Full saturation and value at hues 0, 120 and 240 give pure red, green and blue. */
  lemma HsvToRgbPrimaries()
    ensures HsvToRgb(0, 100, 100) == (255, 0, 0)
    ensures HsvToRgb(120, 100, 100) == (0, 255, 0)
    ensures HsvToRgb(240, 100, 100) == (0, 0, 255)
  {
    assert SectorWeight(0) == 0.0;
    assert SectorWeight(120) == 0.0 by {
      assert (RAbs(120 as real / 60.0) / 2.0).Floor == 1;
    }
    assert SectorWeight(240) == 0.0 by {
      assert (RAbs(240 as real / 60.0) / 2.0).Floor == 2;
    }
  }

  lemma ValueRoundTripArith(v: int)
    requires 0 <= v <= 100
    ensures v - 1 <= (v * 255 / 100) * 100 / 255 <= v
  {
    var hi := v * 255 / 100;
    assert 100 * hi <= 255 * v < 100 * hi + 100;
    var back := hi * 100 / 255;
    assert 255 * back <= 100 * hi < 255 * back + 255;
  }

  /** HSV to RGB and back loses at most one unit of value, never gains. */
  lemma HsvValueRoundTrip(h: U16, s: U16, v: U16)
    requires s <= 100 && v <= 100
    ensures var rgb := HsvToRgb(h, s, v); v - 1 <= RgbToHsv(rgb.0, rgb.1, rgb.2).2 <= v
  {
    var rgb := HsvToRgb(h, s, v);
    HsvToRgbBounds(h, s, v);
    HsvToRgbValue(h, s, v);
    RgbToHsvReference(rgb.0, rgb.1, rgb.2);
    ValueRoundTripArith(v);
  }

  // ---------------------------------------------------------------------
  // Hex text
  // ---------------------------------------------------------------------

  /** `from_hex` accepts exactly the 7-character strings that start with `#`
      and continue with six hexadecimal digits of either case, or with a `+`
      and five of them (a sign `u32::from_str_radix` allows). */
  lemma FromHexAccepts(s: string)
    ensures FromHex(s).Some? <==>
      |s| == 7 && s[0] == '#' && (AllHexDigits(s[1..]) || (s[1] == '+' && AllHexDigits(s[2..])))
  {
    if FromHex(s).Some? {
      var t := s[1..];
      assert |t| > 0;
      if t[0] == '+' {
        assert t[1..] == s[2..];
        assert AllHexDigits(s[2..]);
        forall i | 0 <= i < |s| ensures IsAscii(s[i]) {
          if i >= 2 { assert s[i] == s[2..][i - 2]; }
        }
      } else {
        assert AllHexDigits(t);
        forall i | 0 <= i < |s| ensures IsAscii(s[i]) {
          if i >= 1 { assert s[i] == t[i - 1]; }
        }
      }
    }
    if |s| == 7 && s[0] == '#' && (AllHexDigits(s[1..]) || (s[1] == '+' && AllHexDigits(s[2..]))) {
      var t := s[1..];
      assert Pow16(6) == 0x100_0000;
      if AllHexDigits(t) {
        forall i | 0 <= i < |s| ensures IsAscii(s[i]) {
          if i >= 1 { assert s[i] == t[i - 1]; }
        }
        assert HexDigitValue(t[0]).Some?;
      } else {
        assert t[1..] == s[2..];
        forall i | 0 <= i < |s| ensures IsAscii(s[i]) {
          if i >= 2 { assert s[i] == s[2..][i - 2]; }
        }
      }
    }
  }

  /** With the sign, the five digits after `#+` are read as one number whose
      high byte (at most 0x0F) is red. */
  lemma FromHexSigned(s: string)
    requires |s| == 7 && s[0] == '#' && s[1] == '+' && AllHexDigits(s[2..])
    ensures FromHex(s).Some?
    ensures var x, c := ParseHexDigits(s[2..]).value, FromHex(s).value;
      c.r == x / 0x1_0000 < 16 && c.g == (x / 0x100) % 0x100 && c.b == x % 0x100 && c.hex == s
  {
    HexTextAscii(s);
    var t := s[1..];
    assert t[1..] == s[2..];
    assert Pow16(5) == 0x10_0000;
    var x := ParseHexDigits(s[2..]).value;
    assert FromStrRadix16(t) == Some(x);
    FromHexWord(s, x);
    var hi := x / 0x1_0000;
    assert hi < 16;
    SmallMod(hi, 0x100);
    assert FromHex(s).value.r == hi;
  }

  /** Text of the accepted shape is ASCII, so its byte length is its length. */
  lemma HexTextAscii(s: string)
    requires |s| == 7 && s[0] == '#' && (AllHexDigits(s[1..]) || (s[1] == '+' && AllHexDigits(s[2..])))
    ensures Utf8Len(s) == 7
  {
    forall i | 0 <= i < |s| ensures IsAscii(s[i]) {
      if i >= 1 && AllHexDigits(s[1..]) {
        assert s[i] == s[1..][i - 1];
      } else if i >= 2 {
        assert s[i] == s[2..][i - 2];
      }
    }
  }

  /** Once the length and the `#` are right, the channels are the three low
      bytes of the number `from_str_radix` reads. */
  lemma FromHexWord(s: string, x: nat)
    requires Utf8Len(s) == 7 && |s| > 0 && s[0] == '#' && FromStrRadix16(s[1..]) == Some(x)
    ensures FromHex(s).Some?
    ensures var c := FromHex(s).value;
      c.r == (x / 0x1_0000) % 0x100 && c.g == (x / 0x100) % 0x100 && c.b == x % 0x100 && c.hex == s
  {
  }

  /** Three pairs of hexadecimal digits read as three big-endian bytes. */
  lemma ParseSixDigits(a: string, b: string, c: string)
    requires |a| == 2 && |b| == 2 && |c| == 2
    requires AllHexDigits(a) && AllHexDigits(b) && AllHexDigits(c)
    ensures AllHexDigits(a + b + c)
    ensures ParseHexDigits(a + b + c) ==
      Some((ParseHexDigits(a).value * 256 + ParseHexDigits(b).value) * 256 + ParseHexDigits(c).value)
  {
    AllHexDigitsConcat(a, b);
    AllHexDigitsConcat(a + b, c);
    ParseHexConcat(a, b);
    ParseHexConcat(a + b, c);
    assert Pow16(2) == 256;
  }

  /** The three low big-endian bytes of `(a * 256 + b) * 256 + c`. */
  lemma LowBytes(a: nat, b: nat, c: nat, x: nat)
    requires a < 256 && b < 256 && c < 256 && x == (a * 256 + b) * 256 + c
    ensures (x / 0x1_0000) % 0x100 == a && (x / 0x100) % 0x100 == b && x % 0x100 == c
  {
    assert x == a * 0x1_0000 + (b * 256 + c);
    assert x / 0x1_0000 == a;
    assert x == (a * 256 + b) * 0x100 + c;
    assert x / 0x100 == a * 256 + b;
  }

  /** For `#` and three pairs of hexadecimal digits, `from_hex` reads the
      channels from the pairs in order and keeps the string as given. */
  lemma FromHexBytes(a: string, b: string, c: string)
    requires |a| == 2 && |b| == 2 && |c| == 2
    requires AllHexDigits(a) && AllHexDigits(b) && AllHexDigits(c)
    ensures FromHex("#" + a + b + c).Some?
    ensures var n := FromHex("#" + a + b + c).value;
      n.r == ParseHexDigits(a).value &&
      n.g == ParseHexDigits(b).value &&
      n.b == ParseHexDigits(c).value &&
      n.hex == "#" + a + b + c
  {
    var s := "#" + a + b + c;
    var pa, pb, pc := ParseHexDigits(a).value, ParseHexDigits(b).value, ParseHexDigits(c).value;
    var x := (pa * 256 + pb) * 256 + pc;
    PairsLength(a, b, c);
    PairsRadix(a, b, c, x);
    HashTail(a, b, c);
    FromHexWord(s, x);
    LowBytes(pa, pb, pc, x);
  }

  /** Dropping the `#` leaves the three pairs. */
  lemma HashTail(a: string, b: string, c: string)
    ensures ("#" + a + b + c)[1..] == a + b + c
  {
    assert "#" + a + b + c == "#" + (a + b + c);
  }

  /** The text `#` + three digit pairs is seven ASCII bytes. */
  lemma PairsLength(a: string, b: string, c: string)
    requires |a| == 2 && |b| == 2 && |c| == 2
    requires AllHexDigits(a) && AllHexDigits(b) && AllHexDigits(c)
    ensures AllHexDigits(a + b + c)
    ensures var s := "#" + a + b + c; Utf8Len(s) == 7 && |s| > 0 && s[0] == '#'
  {
    HashTail(a, b, c);
    ParseSixDigits(a, b, c);
    HexTextAscii("#" + a + b + c);
  }

  /** After the `#`, three digit pairs read as the number whose big-endian
      bytes are the pairs. */
  lemma PairsRadix(a: string, b: string, c: string, x: nat)
    requires |a| == 2 && |b| == 2 && |c| == 2
    requires AllHexDigits(a) && AllHexDigits(b) && AllHexDigits(c)
    requires x == (ParseHexDigits(a).value * 256 + ParseHexDigits(b).value) * 256 + ParseHexDigits(c).value
    ensures FromStrRadix16(a + b + c) == Some(x)
    ensures ParseHexDigits(a).value < 256 && ParseHexDigits(b).value < 256 && ParseHexDigits(c).value < 256
  {
    var t := a + b + c;
    ParseSixDigits(a, b, c);
    assert Pow16(2) == 256;
    assert x < U32_LIMIT;
    FromStrRadix16Digits(t);
  }

  /** `from_hex(get_hex(r, g, b))` recovers the color built by `from_rgb`
      exactly when every channel is at least 16: a smaller channel is written
      with one digit, the text is shorter than 7, and it is rejected. */
  lemma HexRoundTrip(r: U16, g: U16, b: U16)
    requires r <= 255 && g <= 255 && b <= 255
    ensures FromHex(GetHex(r, g, b)).Some? <==> 16 <= r && 16 <= g && 16 <= b
    ensures 16 <= r && 16 <= g && 16 <= b ==> FromHex(GetHex(r, g, b)) == Some(FromRgb(r, g, b))
  {
    var s := GetHex(r, g, b);
    FromHexAccepts(s);
    if 16 <= r && 16 <= g && 16 <= b {
      FromHexBytes(UpperHex(r), UpperHex(g), UpperHex(b));
      UpperHexParses(r);
      UpperHexParses(g);
      UpperHexParses(b);
    }
  }

  // ---------------------------------------------------------------------
  // Complementary and dimmed colors
  // ---------------------------------------------------------------------

  /** The opposite hue, `(h + 180) % 360`. */
  function HalfTurn(h: int): (t: int)
    ensures 0 <= t < 360
  {
    (h + 180) % 360
  }

  /** Two half turns are a full turn. */
  lemma HalfTurnTwice(h: int)
    requires 0 <= h < 360
    ensures HalfTurn(HalfTurn(h)) == h
  {
    if h < 180 {
      assert HalfTurn(h) == h + 180;
    } else {
      assert HalfTurn(h) == h - 180;
    }
  }

  /** Taking the contrasting color twice returns to the original hue. */
  lemma InvTwice(c: Color)
    requires c.h < 360
    ensures c.Inv().Inv().h == c.h
  {
    HalfTurnTwice(c.h);
  }

  /** Dimming twice returns to the original value. */
  lemma DimTwice(c: Color)
    requires c.h <= 360 && c.v <= 100
    ensures c.Dim().Dim().v == c.v && c.Dim().Dim().s == 30
  {
  }
}
