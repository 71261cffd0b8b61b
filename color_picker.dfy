/**
 * The colour arithmetic of src/components/LiquidGlassColorPicker.jsx: the
 * conversion of the point's "#rrggbb" colour to hue / saturation / lightness
 * when the picker opens, the conversion back to hex whenever a slider moves,
 * and the clamps that turn pointer positions into slider values.
 */
module ColorPicker {
  import opened GradientMesh
  import opened HexCodec
  import opened Numeric

  /** Hue in degrees, saturation and lightness in percent, as hexToHsl returns them. */
  datatype Hsl = Hsl(h: int, s: int, l: int)

  // ---------------------------------------------------------------------------
  // hexToHsl

  /** The strings hexToHsl reads: characters 1..6 are hex digits (character 0 is skipped). */
  predicate IsSixDigitHex(hex: string)
  {
    |hex| >= 7 && forall i :: 1 <= i < 7 ==> IsHexDigit(hex[i])
  }

  function Max3(a: real, b: real, c: real): (m: real)
    ensures m >= a && m >= b && m >= c && (m == a || m == b || m == c)
  {
    var ab := if a > b then a else b;
    if ab > c then ab else c
  }

  function Min3(a: real, b: real, c: real): (m: real)
    ensures m <= a && m <= b && m <= c && (m == a || m == b || m == c)
  {
    var ab := if a < b then a else b;
    if ab < c then ab else c
  }

  /** The unit hue of a non-grey colour, by the channel that is largest (red first, then green, then blue). */
  function UnitHue(r: real, g: real, b: real): real
    requires Max3(r, g, b) > Min3(r, g, b)
  {
    var max := Max3(r, g, b);
    var d := max - Min3(r, g, b);
    if max == r then ((g - b) / d + (if g < b then 6.0 else 0.0)) / 6.0
    else if max == g then ((b - r) / d + 2.0) / 6.0
    else if max == b then ((r - g) / d + 4.0) / 6.0
    else 0.0
  }

  /** The unit saturation of a non-grey colour, by whether its lightness is above one half. */
  function UnitSaturation(r: real, g: real, b: real): real
    requires 0.0 <= r <= 1.0 && 0.0 <= g <= 1.0 && 0.0 <= b <= 1.0
    requires Max3(r, g, b) > Min3(r, g, b)
  {
    var max, min := Max3(r, g, b), Min3(r, g, b);
    var l := (max + min) / 2.0;
    var d := max - min;
    if l > 0.5 then d / (2.0 - max - min) else d / (max + min)
  }

  /** hexToHsl on unit channels: h = s = 0 for a grey, the unit hue and saturation otherwise. */
  function UnitChannelsToHsl(r: real, g: real, b: real): Hsl
    requires 0.0 <= r <= 1.0 && 0.0 <= g <= 1.0 && 0.0 <= b <= 1.0
  {
    var max, min := Max3(r, g, b), Min3(r, g, b);
    var l := (max + min) / 2.0;
    if max == min then Hsl(0, 0, Round(l * 100.0))
    else Hsl(Round(UnitHue(r, g, b) * 360.0), Round(UnitSaturation(r, g, b) * 100.0), Round(l * 100.0))
  }

  /** hexToHsl: each two-digit pair read as a channel over 255, then converted. */
  function HexToHsl(hex: string): Hsl
    requires IsSixDigitHex(hex)
  {
    var r := ParseByte(hex[1..3]) as real / 255.0;
    var g := ParseByte(hex[3..5]) as real / 255.0;
    var b := ParseByte(hex[5..7]) as real / 255.0;
    UnitChannelsToHsl(r, g, b)
  }

  /** The unit hue lies in [0, 1]. */
  lemma UnitHueBounds(r: real, g: real, b: real)
    requires Max3(r, g, b) > Min3(r, g, b)
    ensures 0.0 <= UnitHue(r, g, b) <= 1.0
  {
    var max := Max3(r, g, b);
    var d := max - Min3(r, g, b);
    if max == r {
      RatioBounds(g - b, d);
    } else if max == g {
      RatioBounds(b - r, d);
    } else {
      RatioBounds(r - g, d);
    }
  }

  /** A difference of two channels divided by the channel range lies in [-1, 1]. */
  lemma RatioBounds(diff: real, d: real)
    requires d > 0.0 && -d <= diff <= d
    ensures -1.0 <= diff / d <= 1.0
  {
  }

  /** The unit saturation lies in [0, 1]. */
  lemma UnitSaturationBounds(r: real, g: real, b: real)
    requires 0.0 <= r <= 1.0 && 0.0 <= g <= 1.0 && 0.0 <= b <= 1.0
    requires Max3(r, g, b) > Min3(r, g, b)
    ensures 0.0 <= UnitSaturation(r, g, b) <= 1.0
  {
    var max, min := Max3(r, g, b), Min3(r, g, b);
    var d := max - min;
    if (max + min) / 2.0 > 0.5 {
      FractionAtMostOne(d, 2.0 - max - min);
    } else {
      FractionAtMostOne(d, max + min);
    }
  }

  lemma FractionAtMostOne(a: real, b: real)
    requires 0.0 <= a <= b && b > 0.0
    ensures 0.0 <= a / b <= 1.0
  {
  }

  /** On unit channels the hue is in [0, 360] and saturation and lightness in [0, 100]. */
  lemma UnitChannelsToHslRanges(r: real, g: real, b: real)
    requires 0.0 <= r <= 1.0 && 0.0 <= g <= 1.0 && 0.0 <= b <= 1.0
    ensures var hsl := UnitChannelsToHsl(r, g, b);
      0 <= hsl.h <= 360 && 0 <= hsl.s <= 100 && 0 <= hsl.l <= 100
  {
    var max, min := Max3(r, g, b), Min3(r, g, b);
    RoundWithin((max + min) / 2.0 * 100.0, 0, 100);
    if max != min {
      UnitHueBounds(r, g, b);
      UnitSaturationBounds(r, g, b);
      RoundWithin(UnitHue(r, g, b) * 360.0, 0, 360);
      RoundWithin(UnitSaturation(r, g, b) * 100.0, 0, 100);
    }
  }

  /** For every well-formed input the hue is in [0, 360] and saturation and lightness in [0, 100]. */
  lemma HexToHslRanges(hex: string)
    requires IsSixDigitHex(hex)
    ensures var hsl := HexToHsl(hex);
      0 <= hsl.h <= 360 && 0 <= hsl.s <= 100 && 0 <= hsl.l <= 100
  {
    var r := ParseByte(hex[1..3]) as real / 255.0;
    var g := ParseByte(hex[3..5]) as real / 255.0;
    var b := ParseByte(hex[5..7]) as real / 255.0;
    UnitChannelsToHslRanges(r, g, b);
  }

  /**
   * A grey (three equal channel values, whatever the case of the digits) has
   * hue and saturation 0 and lightness round(100 * channel / 255).
   */
  lemma GreyHasNoHue(hex: string)
    requires IsSixDigitHex(hex)
    requires ParseByte(hex[1..3]) == ParseByte(hex[3..5]) == ParseByte(hex[5..7])
    ensures HexToHsl(hex) == Hsl(0, 0, Round(ParseByte(hex[1..3]) as real / 255.0 * 100.0))
  {
  }

  // ---------------------------------------------------------------------------
  // hslToHex

  /**
   * JavaScript's `a % 2` on numbers: the remainder of truncating division by 2,
   * carrying the dividend's sign.
   */
  function RemainderTwo(a: real): (r: real)
    ensures a >= 0.0 ==> 0.0 <= r < 2.0
    ensures a < 0.0 ==> -2.0 < r <= 0.0
  {
    var q := a / 2.0;
    var truncated := if q >= 0.0 then q.Floor else -((-q).Floor);
    a - 2.0 * truncated as real
  }

  /** The chroma of unit saturation s and unit lightness l: (1 - |2l - 1|) * s. */
  function Chroma(s: real, l: real): real
  {
    (1.0 - Abs(2.0 * l - 1.0)) * s
  }

  /** The middle component x = c * (1 - |(h / 60) % 2 - 1|). */
  function Middle(h: real, c: real): real
  {
    c * (1.0 - Abs(RemainderTwo(h / 60.0) - 1.0))
  }

  /**
   * The six 60-degree sectors of the hue circle, each placing the chroma c and
   * the middle component x on two channels. A hue outside [0, 360) matches
   * no sector and leaves all three channels at 0.
   */
  function Sector(h: real, c: real, x: real): (rgb: (real, real, real))
    ensures !(0.0 <= h < 360.0) ==> rgb == (0.0, 0.0, 0.0)
  {
    if 0.0 <= h < 60.0 then (c, x, 0.0)
    else if 60.0 <= h < 120.0 then (x, c, 0.0)
    else if 120.0 <= h < 180.0 then (0.0, c, x)
    else if 180.0 <= h < 240.0 then (0.0, x, c)
    else if 240.0 <= h < 300.0 then (x, 0.0, c)
    else if 300.0 <= h < 360.0 then (c, 0.0, x)
    else (0.0, 0.0, 0.0)
  }

  /** The three rounded channels hslToHex prints. */
  function HslChannels(h: real, s: real, l: real): Rgb
  {
    var s1, l1 := s / 100.0, l / 100.0;
    var c := Chroma(s1, l1);
    var x := Middle(h, c);
    var m := l1 - c / 2.0;
    var rgb := Sector(h, c, x);
    Rgb(Round((rgb.0 + m) * 255.0), Round((rgb.1 + m) * 255.0), Round((rgb.2 + m) * 255.0))
  }

  /** hslToHex: "#" and each channel in base 16, a single digit padded with "0". */
  function HslToHex(h: real, s: real, l: real): string
  {
    var c := HslChannels(h, s, l);
    "#" + ChannelHex(c.r) + ChannelHex(c.g) + ChannelHex(c.b)
  }

  /** With saturation 0 every hue gives the same grey. */
  lemma NoSaturationIsGrey(h: real, l: real)
    ensures var c := HslChannels(h, 0.0, l);
      c.r == c.g == c.b == Round(l / 100.0 * 255.0)
  {
    assert Chroma(0.0, l / 100.0) == 0.0;
    assert Middle(h, 0.0) == 0.0;
  }

  /** A hue outside [0, 360) matches no sector: the result is a grey, whatever the saturation. */
  lemma HueOutsideSectorsIsGrey(h: real, s: real, l: real)
    requires !(0.0 <= h < 360.0)
    ensures var c := HslChannels(h, s, l);
      c.r == c.g == c.b
  {
  }

  /** For saturation and lightness in [0, 100], the chroma fits below both 2l and 2 - 2l. */
  lemma ChromaBounds(s: real, l: real)
    requires 0.0 <= s <= 1.0 && 0.0 <= l <= 1.0
    ensures 0.0 <= Chroma(s, l) <= 2.0 * l && Chroma(s, l) <= 2.0 - 2.0 * l
  {
    var k := 1.0 - Abs(2.0 * l - 1.0);
    var c := Chroma(s, l);
    FractionOf(k, s, c);
  }

  /** A fraction s in [0, 1] of a non-negative k lies in [0, k]. */
  lemma FractionOf(k: real, s: real, p: real)
    requires k >= 0.0 && 0.0 <= s <= 1.0 && p == k * s
    ensures 0.0 <= p <= k
  {
    if k > 0.0 {
      ScaleInequality(0.0, s, k);
      ScaleInequality(s, 1.0, k);
    }
  }

  lemma ScaleInequality(a: real, b: real, n: real)
    requires n > 0.0 && a <= b
    ensures n * a <= n * b
  {
  }

  /** For a hue of at least 0 the middle component lies between 0 and the chroma. */
  lemma MiddleBounds(h: real, c: real)
    requires h >= 0.0 && c >= 0.0
    ensures 0.0 <= Middle(h, c) <= c
  {
    var f := 1.0 - Abs(RemainderTwo(h / 60.0) - 1.0);
    assert 0.0 <= f <= 1.0;
    FractionOf(c, f, Middle(h, c));
  }

  /** A component between 0 and the chroma, shifted by m, prints as a channel in [0, 255]. */
  lemma ShiftedComponentIsChannel(v: real, c: real, l: real)
    requires 0.0 <= v <= c && 0.0 <= l <= 1.0 && c <= 2.0 * l && c <= 2.0 - 2.0 * l
    ensures IsChannel(Round((v + (l - c / 2.0)) * 255.0))
  {
    var u := v + (l - c / 2.0);
    assert 0.0 <= u <= 1.0;
    RoundWithin(u * 255.0, 0, 255);
  }

  /** For saturation and lightness in [0, 100] every channel is in [0, 255], for every hue. */
  lemma HslChannelsAreColor(h: real, s: real, l: real)
    requires 0.0 <= s <= 100.0 && 0.0 <= l <= 100.0
    ensures IsColor(HslChannels(h, s, l))
  {
    var s1, l1 := s / 100.0, l / 100.0;
    var c := Chroma(s1, l1);
    ChromaBounds(s1, l1);
    var x := Middle(h, c);
    if h >= 0.0 {
      MiddleBounds(h, c);
    }
    var rgb := Sector(h, c, x);
    assert 0.0 <= rgb.0 <= c && 0.0 <= rgb.1 <= c && 0.0 <= rgb.2 <= c;
    ShiftedComponentIsChannel(rgb.0, c, l1);
    ShiftedComponentIsChannel(rgb.1, c, l1);
    ShiftedComponentIsChannel(rgb.2, c, l1);
  }

  /** hslToHex prints what rgbToHex prints for its rounded channels. */
  lemma HslToHexIsRgbToHex(h: real, s: real, l: real)
    ensures var c := HslChannels(h, s, l);
      HslToHex(h, s, l) == RgbToHex(c.r as real, c.g as real, c.b as real)
  {
    var c := HslChannels(h, s, l);
    RoundInteger(c.r);
    RoundInteger(c.g);
    RoundInteger(c.b);
  }

  /**
   * For saturation and lightness in [0, 100] the result is "#" and six
   * lower-case hex digits, and it decodes back to the rounded channels.
   */
  lemma HslToHexIsWellFormed(h: real, s: real, l: real)
    requires 0.0 <= s <= 100.0 && 0.0 <= l <= 100.0
    ensures IsLowerHexColor(HslToHex(h, s, l))
    ensures HexToRgb(HslToHex(h, s, l)) == HslChannels(h, s, l)
  {
    var c := HslChannels(h, s, l);
    HslChannelsAreColor(h, s, l);
    HslToHexIsRgbToHex(h, s, l);
    RgbToHexShape(c.r, c.g, c.b);
    HexRoundTrip(c.r, c.g, c.b);
  }

  /** At full saturation and half lightness the chroma is 1 and the shift m is 0. */
  lemma FullSaturationHalfLightness(h: real)
    ensures var rgb := Sector(h, 1.0, Middle(h, 1.0));
      HslChannels(h, 100.0, 50.0) == Rgb(Round(rgb.0 * 255.0), Round(rgb.1 * 255.0), Round(rgb.2 * 255.0))
  {
    assert 100.0 / 100.0 == 1.0 && 50.0 / 100.0 == 0.5;
    assert Chroma(1.0, 0.5) == 1.0;
  }

  /** At a multiple of 120 degrees the middle component vanishes. */
  lemma MiddleVanishesAtPrimaries(k: nat)
    ensures Middle(120.0 * k as real, 1.0) == 0.0
  {
    var q := 120.0 * k as real / 60.0;
    assert q == 2.0 * k as real;
    assert (q / 2.0).Floor == k;
    assert RemainderTwo(q) == 0.0;
  }

  lemma ChannelHexOfExtremes()
    ensures ChannelHex(0) == "00" && ChannelHex(255) == "ff"
  {
    ChannelHexOfByte(0);
    ChannelHexOfByte(255);
  }

  /** Pure red, green and blue at full saturation and half lightness. */
  lemma PrimaryHues()
    ensures HslToHex(0.0, 100.0, 50.0) == "#ff0000"
    ensures HslToHex(120.0, 100.0, 50.0) == "#00ff00"
    ensures HslToHex(240.0, 100.0, 50.0) == "#0000ff"
  {
    ChannelHexOfExtremes();
    RoundInteger(0);
    RoundInteger(255);
    assert HslChannels(0.0, 100.0, 50.0) == Rgb(255, 0, 0) by {
      FullSaturationHalfLightness(0.0);
      MiddleVanishesAtPrimaries(0);
    }
    assert HslChannels(120.0, 100.0, 50.0) == Rgb(0, 255, 0) by {
      FullSaturationHalfLightness(120.0);
      MiddleVanishesAtPrimaries(1);
    }
    assert HslChannels(240.0, 100.0, 50.0) == Rgb(0, 0, 255) by {
      FullSaturationHalfLightness(240.0);
      MiddleVanishesAtPrimaries(2);
    }
  }

  /** hexToHsl of the three primaries, the inverse of PrimaryHues. */
  lemma PrimaryHexToHsl()
    ensures HexToHsl("#ff0000") == Hsl(0, 100, 50)
    ensures HexToHsl("#00ff00") == Hsl(120, 100, 50)
    ensures HexToHsl("#0000ff") == Hsl(240, 100, 50)
  {
    assert "#ff0000"[1..3] == "ff" && "#ff0000"[3..5] == "00" && "#ff0000"[5..7] == "00";
    assert "#00ff00"[1..3] == "00" && "#00ff00"[3..5] == "ff" && "#00ff00"[5..7] == "00";
    assert "#0000ff"[1..3] == "00" && "#0000ff"[3..5] == "00" && "#0000ff"[5..7] == "ff";
  }

  // ---------------------------------------------------------------------------
  // The hue that matches no sector

  /**
   * Hue 360 is the same colour as hue 0, but the last sector stops below 360,
   * so hslToHex(360, 100, 50) prints black instead of red. Both the hue slider
   * (at its right end) and hexToHsl (for "#ff0001", whose unit hue rounds up
   * to 360) produce this hue, and the picker writes its result back to the
   * point as soon as it opens.
   */
  lemma FullHueTurnsBlack(left: real, width: real)
    requires width > 0.0
    ensures HueFromPointer(left + width, left, width) == 360.0
    ensures HexToHsl("#ff0001") == Hsl(360, 100, 50)
    ensures HslToHex(360.0, 100.0, 50.0) == "#000000"
    ensures HslToHex(0.0, 100.0, 50.0) == "#ff0000"
  {
    assert (left + width - left) / width * 360.0 == 360.0;
    AlmostRedHasFullHue();
    BlackAtFullHue();
    PrimaryHues();
  }

  /** Hue 360 falls outside every sector at full saturation and half lightness, leaving black. */
  lemma BlackAtFullHue()
    ensures HslChannels(360.0, 100.0, 50.0) == Rgb(0, 0, 0)
    ensures HslToHex(360.0, 100.0, 50.0) == "#000000"
  {
    ChannelHexOfExtremes();
    RoundInteger(0);
    assert HslChannels(360.0, 100.0, 50.0) == Rgb(0, 0, 0) by {
      FullSaturationHalfLightness(360.0);
    }
    assert HslToHex(360.0, 100.0, 50.0) == "#" + "00" + "00" + "00";
  }

  /** "#ff0001": red is largest and green just below blue, so the hue is 1529/1530 of a turn, which rounds to 360. */
  lemma AlmostRedHasFullHue()
    ensures HexToHsl("#ff0001") == Hsl(360, 100, 50)
  {
    var hex := "#ff0001";
    assert hex[1..3] == "ff" && hex[3..5] == "00" && hex[5..7] == "01";
    assert ParseByte("ff") == 255 && ParseByte("00") == 0 && ParseByte("01") == 1;
    var r, g, b := 1.0, 0.0, 1.0 / 255.0;
    assert Max3(r, g, b) == 1.0 && Min3(r, g, b) == 0.0;
    assert UnitHue(r, g, b) == 1529.0 / 1530.0;
    assert Round(1529.0 / 1530.0 * 360.0) == 360;
    assert UnitSaturation(r, g, b) == 1.0;
    assert Round(0.5 * 100.0) == 50;
  }

  /** The hue taken into [0, 360): hue is an angle, so 360 and 0 are the same hue. */
  function WrapHue(h: real): (w: real)
    ensures 0.0 <= w < 360.0
    ensures 0.0 <= h < 360.0 ==> w == h
  {
    h - 360.0 * (h / 360.0).Floor as real
  }

  /** hslToHex with the hue taken modulo 360 first, so every hue lands in a sector. */
  function HslToHexWrapped(h: real, s: real, l: real): string
  {
    HslToHex(WrapHue(h), s, l)
  }

  /** Where the written conversion handles the hue, the corrected one agrees with it. */
  lemma WrappedAgreesInRange(h: real, s: real, l: real)
    requires 0.0 <= h < 360.0
    ensures HslToHexWrapped(h, s, l) == HslToHex(h, s, l)
  {
  }

  /** The corrected conversion is periodic in the hue with period 360. */
  lemma WrappedIsPeriodic(h: real, s: real, l: real)
    ensures HslToHexWrapped(h + 360.0, s, l) == HslToHexWrapped(h, s, l)
  {
    WrapHuePeriodic(h);
  }

  lemma WrapHuePeriodic(h: real)
    ensures WrapHue(h + 360.0) == WrapHue(h)
  {
    assert ((h + 360.0) / 360.0).Floor == (h / 360.0).Floor + 1 by {
      assert (h + 360.0) / 360.0 == h / 360.0 + 1.0;
    }
  }

  /** Hue 360 under the corrected conversion is red, as hue 0 is. */
  lemma WrappedFullHueIsRed()
    ensures HslToHexWrapped(360.0, 100.0, 50.0) == "#ff0000"
  {
    assert WrapHue(360.0) == 0.0 by {
      assert (360.0 / 360.0).Floor == 1;
    }
    PrimaryHues();
  }

  /**
   * The colour written back to the point when its picker opens on `hex`: the
   * hex string converted to HSL and, with the corrected conversion, back.
   */
  function ColorOnOpen(hex: string): (out: string)
    requires IsSixDigitHex(hex)
    ensures IsLowerHexColor(out)
  {
    var hsl := HexToHsl(hex);
    HexToHslRanges(hex);
    HslToHexIsWellFormed(WrapHue(hsl.h as real), hsl.s as real, hsl.l as real);
    HslToHexWrapped(hsl.h as real, hsl.s as real, hsl.l as real)
  }

  /** With the corrected conversion, opening the picker on "#ff0001" keeps the point red. */
  lemma OpeningOnAlmostRedStaysRed()
    ensures ColorOnOpen("#ff0001") == "#ff0000"
  {
    FullHueTurnsBlack(0.0, 1.0);
    WrappedFullHueIsRed();
  }

  // ---------------------------------------------------------------------------
  // Sliders

  /** updateHue: the pointer's offset along the slider, as a fraction of its width, times 360, clamped. */
  function HueFromPointer(clientX: real, left: real, width: real): (h: real)
    requires width > 0.0
    ensures 0.0 <= h <= 360.0
  {
    var x := clientX - left;
    ClampTo(360.0, x / width * 360.0)
  }

  /** A pointer inside the slider gives the hue proportional to its offset; one past either end gives the end. */
  lemma HueFollowsPointer(clientX: real, left: real, width: real)
    requires width > 0.0
    ensures left <= clientX <= left + width ==>
      HueFromPointer(clientX, left, width) * width == (clientX - left) * 360.0
    ensures clientX < left ==> HueFromPointer(clientX, left, width) == 0.0
    ensures clientX > left + width ==> HueFromPointer(clientX, left, width) == 360.0
  {
    var f := (clientX - left) / width;
    assert f * width == clientX - left;
    if clientX < left {
      assert f < 0.0;
    } else if clientX > left + width {
      assert f > 1.0;
    }
  }

  /**
   * updateSaturation: saturation from the horizontal offset, lightness from
   * the vertical one (100 at the top, 0 at the bottom), each clamped to [0, 100].
   */
  function SaturationLightnessFromPointer(clientX: real, clientY: real, left: real, top: real, width: real, height: real)
    : (sl: (real, real))
    requires width > 0.0 && height > 0.0
    ensures 0.0 <= sl.0 <= 100.0 && 0.0 <= sl.1 <= 100.0
  {
    var x := clientX - left;
    var y := clientY - top;
    (ClampTo(100.0, x / width * 100.0), ClampTo(100.0, 100.0 - y / height * 100.0))
  }

  /** Inside the pad, lightness falls linearly from 100 at the top edge to 0 at the bottom edge. */
  lemma LightnessFollowsPointer(clientX: real, clientY: real, left: real, top: real, width: real, height: real)
    requires width > 0.0 && height > 0.0 && top <= clientY <= top + height
    ensures SaturationLightnessFromPointer(clientX, clientY, left, top, width, height).1 * height ==
      (top + height - clientY) * 100.0
  {
    var f := (clientY - top) / height;
    assert f * height == clientY - top;
    assert 0.0 <= f <= 1.0;
  }
}
