/** `extractDominantColor`: the average colour of an album cover sampled on a
    50 x 50 canvas, moved to HSL, made more saturated and darker, and moved
    back; or the fixed Spotify-green fallback when the image does not load or
    sampling throws. Arithmetic is on exact reals and unbounded integers. */
module ColorExtractor {
  import opened Common

  type Byte = b: int | 0 <= b < 256

  predicate IsChannel(c: int) { 0 <= c <= 255 }

  datatype Rgb = Rgb(r: int, g: int, b: int)

  predicate IsColor(c: Rgb) { IsChannel(c.r) && IsChannel(c.g) && IsChannel(c.b) }

  /** Hue in degrees, saturation and lightness in percent. */
  datatype Hsl = Hsl(h: real, s: real, l: real)

  /** What the promise resolves to. */
  datatype ColorResult = ColorResult(rgb: string, hex: string, hsl: Hsl)

  /** The sampling canvas is `CanvasSize` pixels square, four bytes (RGBA) a pixel. */
  const CanvasSize: nat := 50
  const RasterBytes: nat := 4 * CanvasSize * CanvasSize

  // -----------------------------------------------------------------------
  // Averaging the raster

  /** Sum of channel `k` (0 red, 1 green, 2 blue) over the first `n` pixels. */
  function ChannelSum(data: seq<Byte>, k: nat, n: nat): (s: int)
    requires k < 3 && 4 * n <= |data|
    ensures 0 <= s <= 255 * n
  {
    if n == 0 then 0 else ChannelSum(data, k, n - 1) + data[4 * (n - 1) + k]
  }

  /** `Math.round(sum / count)` for a channel sum over `count` pixels. */
  function AverageOf(sum: int, count: nat): (r: int)
    requires count > 0 && 0 <= sum <= 255 * count
    ensures IsChannel(r)
    ensures (r as real - 0.5) * count as real <= sum as real < (r as real + 0.5) * count as real
  {
    var x := sum as real / count as real;
    FractionBound(sum as real, 255.0 * count as real, count as real);
    RoundBetween(x, 0, 255);
    RoundScaled(sum as real, count as real);
    Round(x)
  }

  /** Multiplying back by the count: the rounded mean is within half a
      pixel's worth of the sum. */
  lemma RoundScaled(sum: real, c: real)
    requires c > 0.0
    ensures (Round(sum / c) as real - 0.5) * c <= sum < (Round(sum / c) as real + 0.5) * c
  {
    var x := sum / c;
    assert x * c == sum;
    var rounded := Round(x) as real;
    assert x - 0.5 < rounded <= x + 0.5;
    ScaleStrict(rounded - 0.5, x, c);
    ScaleStrict(x, rounded + 0.5, c);
    assert x * c < (rounded + 0.5) * c;
    assert sum < (rounded + 0.5) * c;
  }

  /** `x / y` lies between 0 and `bound / y` when `x` lies between 0 and `bound`. */
  lemma FractionBound(x: real, bound: real, y: real)
    requires y > 0.0 && 0.0 <= x <= bound
    ensures 0.0 <= x / y <= bound / y
  {
  }

  /** A fraction whose numerator lies between 0 and its denominator lies in [0, 1]. */
  lemma FractionAtMostOne(x: real, y: real)
    requires y > 0.0 && 0.0 <= x <= y
    ensures 0.0 <= x / y <= 1.0
  {
    FractionBound(x, y, y);
    assert y / y == 1.0;
  }

  lemma ScaleStrict(a: real, b: real, c: real)
    requires c > 0.0
    ensures a < b ==> a * c < b * c
    ensures a <= b ==> a * c <= b * c
  {
  }

  /** The average colour of a raster: each channel's mean, rounded. */
  function Average(data: seq<Byte>): (c: Rgb)
    requires |data| == RasterBytes
    ensures IsColor(c)
  {
    var n := CanvasSize * CanvasSize;
    Rgb(AverageOf(ChannelSum(data, 0, n), n), AverageOf(ChannelSum(data, 1, n), n), AverageOf(ChannelSum(data, 2, n), n))
  }

  /** The averaging loop: red, green and blue of every pixel are added up,
      alpha is skipped, and one pixel is counted per four bytes. */
  method AverageColor(data: seq<Byte>) returns (avg: Rgb, pixelCount: nat)
    requires |data| == RasterBytes
    ensures pixelCount == CanvasSize * CanvasSize
    ensures avg == Average(data)
  {
    var r: int, g: int, b: int := 0, 0, 0;
    pixelCount := 0;
    var i := 0;
    while i < |data|
      invariant i == 4 * pixelCount && i <= |data|
      invariant r == ChannelSum(data, 0, pixelCount)
      invariant g == ChannelSum(data, 1, pixelCount)
      invariant b == ChannelSum(data, 2, pixelCount)
    {
      r := r + data[i];
      g := g + data[i + 1];
      b := b + data[i + 2];
      pixelCount := pixelCount + 1;
      i := i + 4;
    }
    avg := Rgb(AverageOf(r, pixelCount), AverageOf(g, pixelCount), AverageOf(b, pixelCount));
  }

  // -----------------------------------------------------------------------
  // rgbToHsl

  function Max3(a: real, b: real, c: real): real { MaxReal(MaxReal(a, b), c) }
  function Min3(a: real, b: real, c: real): real { MinReal(MinReal(a, b), c) }

  /** The hue as a fraction of a turn. `switch (max)` takes the first channel
      equal to the maximum, red before green before blue. */
  function HueFraction(r: real, g: real, b: real): (h: real)
    requires Max3(r, g, b) > Min3(r, g, b)
    ensures 0.0 <= h <= 1.0
  {
    var mx, d := Max3(r, g, b), Max3(r, g, b) - Min3(r, g, b);
    if mx == r then
      QuotientBound(g - b, d);
      ((g - b) / d + (if g < b then 6.0 else 0.0)) / 6.0
    else if mx == g then
      QuotientBound(b - r, d);
      ((b - r) / d + 2.0) / 6.0
    else
      QuotientBound(r - g, d);
      ((r - g) / d + 4.0) / 6.0
  }

  lemma QuotientBound(x: real, d: real)
    requires d > 0.0 && -d <= x <= d
    ensures -1.0 <= x / d <= 1.0
    ensures x < 0.0 ==> x / d < 0.0
    ensures x >= 0.0 ==> x / d >= 0.0
  {
    var q := x / d;
    assert q * d == x;
    ScaleStrict(q, 1.0, d);
    ScaleStrict(-1.0, q, d);
    ScaleStrict(0.0, q, d);
    ScaleStrict(q, 0.0, d);
  }

  /** The saturation as a fraction, before rounding. */
  function SaturationFraction(mx: real, mn: real): (s: real)
    requires 0.0 <= mn < mx <= 1.0
    ensures 0.0 <= s <= 1.0
  {
    var d := mx - mn;
    if (mx + mn) / 2.0 > 0.5 then
      FractionAtMostOne(d, 2.0 - mx - mn);
      d / (2.0 - mx - mn)
    else
      FractionAtMostOne(d, mx + mn);
      d / (mx + mn)
  }

  /** `rgbToHsl` on channels the averaging produced. */
  function RgbToHsl(r: int, g: int, b: int): (c: Hsl)
    requires IsChannel(r) && IsChannel(g) && IsChannel(b)
    ensures 0.0 <= c.h <= 360.0 && 0.0 <= c.s <= 100.0 && 0.0 <= c.l <= 100.0
    // the achromatic branch: a grey has no hue and no saturation
    ensures r == g == b ==> c.h == 0.0 && c.s == 0.0
  {
    var rf, gf, bf := r as real / 255.0, g as real / 255.0, b as real / 255.0;
    var mx, mn := Max3(rf, gf, bf), Min3(rf, gf, bf);
    var l := (mx + mn) / 2.0;
    RoundBetween(l * 100.0, 0, 100);
    if mx == mn then
      Hsl(0.0, 0.0, Round(l * 100.0) as real)
    else
      var h, s := HueFraction(rf, gf, bf), SaturationFraction(mx, mn);
      RoundBetween(h * 360.0, 0, 360);
      RoundBetween(s * 100.0, 0, 100);
      Hsl(Round(h * 360.0) as real, Round(s * 100.0) as real, Round(l * 100.0) as real)
  }

  // -----------------------------------------------------------------------
  // hslToRgb

  /** `p + (q - p) * k`: the point a fraction `k` of the way from `p` to `q`. */
  function Lerp(p: real, q: real, k: real): real
  {
    p + (q - p) * k
  }

  /** `hue2rgb`: one channel from the two HSL intermediates and a hue offset.
      `p + (q - p) * 6 * t` and `p + (q - p) * (2/3 - t) * 6` are written
      as interpolations. */
  function HueToChannel(p: real, q: real, t: real): (r: real)
    // for a grey (p == q) every hue gives the same channel
    ensures p == q ==> r == p
  {
    var t1 := if t < 0.0 then t + 1.0 else t;
    var t2 := if t1 > 1.0 then t1 - 1.0 else t1;
    if t2 < 1.0 / 6.0 then Lerp(p, q, 6.0 * t2)
    else if t2 < 1.0 / 2.0 then q
    else if t2 < 2.0 / 3.0 then Lerp(p, q, (2.0 / 3.0 - t2) * 6.0)
    else p
  }

  /** Every channel `hue2rgb` produces lies between `p` and `q`. */
  lemma HueToChannelBetween(p: real, q: real, t: real)
    requires -1.0 <= t <= 2.0 && p <= q
    ensures p <= HueToChannel(p, q, t) <= q
  {
    var t1 := if t < 0.0 then t + 1.0 else t;
    var t2 := if t1 > 1.0 then t1 - 1.0 else t1;
    if t2 < 1.0 / 6.0 {
      LerpBetween(p, q, 6.0 * t2);
    } else if 1.0 / 2.0 <= t2 < 2.0 / 3.0 {
      LerpBetween(p, q, (2.0 / 3.0 - t2) * 6.0);
    }
  }

  lemma LerpBetween(p: real, q: real, k: real)
    requires p <= q && 0.0 <= k <= 1.0
    ensures p <= Lerp(p, q, k) <= q
  {
    var d := q - p;
    ProductBelow(d, k);
    var m := d * k;
    assert 0.0 <= m <= d;
    assert Lerp(p, q, k) == p + m;
  }

  /** `q` and `p` of `hslToRgb`, for saturation and lightness as fractions. */
  function HslIntermediates(s: real, l: real): (pq: (real, real))
    ensures 0.0 <= s <= 1.0 && 0.0 <= l <= 1.0 ==> 0.0 <= pq.0 <= pq.1 <= 1.0
  {
    var q := if l < 0.5 then l * (1.0 + s) else l + s - l * s;
    var p := 2.0 * l - q;
    IntermediatesBound(s, l);
    (p, q)
  }

  lemma IntermediatesBound(s: real, l: real)
    ensures var q := if l < 0.5 then l * (1.0 + s) else l + s - l * s;
      0.0 <= s <= 1.0 && 0.0 <= l <= 1.0 ==> 0.0 <= 2.0 * l - q <= q <= 1.0
  {
    if 0.0 <= s <= 1.0 && 0.0 <= l <= 1.0 {
      if l < 0.5 {
        DarkIntermediates(s, l);
      } else {
        LightIntermediates(s, l);
      }
    }
  }

  lemma DarkIntermediates(s: real, l: real)
    requires 0.0 <= s <= 1.0 && 0.0 <= l < 0.5
    ensures 0.0 <= 2.0 * l - l * (1.0 + s) <= l * (1.0 + s) <= 1.0
  {
    ProductBelow(l, s);
    var ls := l * s;
    assert l * (1.0 + s) == l + ls;
  }

  lemma LightIntermediates(s: real, l: real)
    requires 0.0 <= s <= 1.0 && 0.5 <= l <= 1.0
    ensures 0.0 <= 2.0 * l - (l + s - l * s) <= l + s - l * s <= 1.0
  {
    ProductBelow(1.0 - l, s);
    var m := (1.0 - l) * s;
    assert l + s - l * s == l + m;
  }

  /** Scaling by a fraction of one shrinks a non-negative number. */
  lemma ProductBelow(a: real, k: real)
    requires 0.0 <= a && 0.0 <= k <= 1.0
    ensures 0.0 <= a * k <= a
  {
    if a > 0.0 {
      ScaleStrict(k, 1.0, a);
      ScaleStrict(0.0, k, a);
    }
  }

  /** `hslToRgb`, with hue in degrees and saturation and lightness in percent. */
  function HslToRgb(h: real, s: real, l: real): (c: Rgb)
    ensures 0.0 <= h <= 360.0 && 0.0 <= s <= 100.0 && 0.0 <= l <= 100.0 ==> IsColor(c)
    // the achromatic branch: no saturation gives a grey
    ensures s == 0.0 ==> c.r == c.g == c.b
  {
    var hf, sf, lf := h / 360.0, s / 100.0, l / 100.0;
    if sf == 0.0 then
      var v := Round(lf * 255.0);
      RoundBetween(lf * 255.0, 0, 255);
      Rgb(v, v, v)
    else
      var pq := HslIntermediates(sf, lf);
      var r, g, b := HueToChannel(pq.0, pq.1, hf + 1.0 / 3.0), HueToChannel(pq.0, pq.1, hf), HueToChannel(pq.0, pq.1, hf - 1.0 / 3.0);
      HslChannelsBetween(hf, sf, lf);
      RoundBetween(r * 255.0, 0, 255);
      RoundBetween(g * 255.0, 0, 255);
      RoundBetween(b * 255.0, 0, 255);
      Rgb(Round(r * 255.0), Round(g * 255.0), Round(b * 255.0))
  }

  /** With hue, saturation and lightness in range, all three channels lie
      between 0 and 1. */
  lemma HslChannelsBetween(hf: real, sf: real, lf: real)
    ensures var pq := HslIntermediates(sf, lf);
      0.0 <= hf <= 1.0 && 0.0 <= sf <= 1.0 && 0.0 <= lf <= 1.0 ==>
        && 0.0 <= HueToChannel(pq.0, pq.1, hf + 1.0 / 3.0) <= 1.0
        && 0.0 <= HueToChannel(pq.0, pq.1, hf) <= 1.0
        && 0.0 <= HueToChannel(pq.0, pq.1, hf - 1.0 / 3.0) <= 1.0
  {
    var pq := HslIntermediates(sf, lf);
    if 0.0 <= hf <= 1.0 && 0.0 <= sf <= 1.0 && 0.0 <= lf <= 1.0 {
      HueToChannelBetween(pq.0, pq.1, hf + 1.0 / 3.0);
      HueToChannelBetween(pq.0, pq.1, hf);
      HueToChannelBetween(pq.0, pq.1, hf - 1.0 / 3.0);
    }
  }

  // -----------------------------------------------------------------------
  // Adjustment for backgrounds

  /** Saturation up by a fifth, capped at 100; lightness down by 30 percent,
      floored at 20; hue unchanged. */
  function Adjust(c: Hsl): (a: Hsl)
    ensures a.h == c.h
    ensures a.s <= 100.0 && a.l >= 20.0
    // never less saturated, and never lighter unless it had to be raised to the floor
    ensures 0.0 <= c.s <= 100.0 ==> c.s <= a.s
    ensures 20.0 <= c.l ==> a.l <= c.l
    ensures 0.0 <= c.l <= 100.0 ==> a.l <= 70.0
  {
    Hsl(c.h, MinReal(c.s * 1.2, 100.0), MaxReal(c.l * 0.7, 20.0))
  }

  // -----------------------------------------------------------------------
  // rgbToHex and its inverse

  /** `"#" + ((1 << 24) + (r << 16) + (g << 8) + b).toString(16).slice(1)`.
      For channels in range the shifts are multiplications by 65536 and 256,
      and the leading 1 keeps leading zeros, which `slice(1)` then drops. */
  function RgbToHex(r: int, g: int, b: int): (hex: string)
    requires IsChannel(r) && IsChannel(g) && IsChannel(b)
    ensures |hex| == 7 && hex[0] == '#'
    ensures IsDigitString(hex[1..], 16)
    ensures DigitsValue(hex[1..], 16) == r * 65536 + g * 256 + b
  {
    var v := r * 65536 + g * 256 + b;
    var s := NatToString(16777216 + v, 16);
    SixHexDigits(v);
    var hex := "#" + s[1..];
    assert hex[1..] == s[1..];
    hex
  }

  lemma PowSixteen()
    ensures Pow(16, 6) == 16777216 && Pow(16, 7) == 268435456
  {
  }

  lemma {:induction false} PowMonotone(base: nat, a: nat, b: nat)
    requires base >= 1 && a <= b
    ensures Pow(base, a) <= Pow(base, b)
    decreases b
  {
    if a < b {
      PowMonotone(base, a, b - 1);
      assert Pow(base, b) == base * Pow(base, b - 1);
    }
  }

  /** A digit string splits into its leading digit and the rest. */
  lemma LeadingDigit(s: string, base: nat)
    requires ValidBase(base) && |s| >= 1
    ensures DigitsValue(s, base) == DigitValue(s[0]) * Pow(base, |s| - 1) + DigitsValue(s[1..], base)
  {
    assert s == s[..1] + s[1..];
    DigitsValueAppend(s[..1], s[1..], base);
    assert s[..1][..0] == [];
  }

  lemma DigitStringTail(s: string, base: nat)
    requires IsDigitString(s, base) && |s| >= 1
    ensures IsDigitString(s[1..], base)
  {
    forall i | 0 <= i < |s[1..]| ensures 0 <= DigitValue(s[1..][i]) < base {
      assert s[1..][i] == s[i + 1];
    }
  }

  /** `(2^24 + v).toString(16)` is a '1' followed by six digits spelling `v`. */
  lemma SixHexDigits(v: nat)
    requires v < 16777216
    ensures var s := NatToString(16777216 + v, 16);
      |s| == 7 && s[0] == '1' && IsDigitString(s[1..], 16) && DigitsValue(s[1..], 16) == v
  {
    var n := 16777216 + v;
    var s := NatToString(n, 16);
    NatToStringRoundTrip(n, 16);
    DigitsValueBound(s, 16);
    PowSixteen();
    LeadingDigit(s, 16);
    DigitStringTail(s, 16);
    DigitsValueBound(s[1..], 16);
    if |s| > 7 {
      PowMonotone(16, 7, |s| - 1);
      assert false;
    }
    if |s| < 7 {
      PowMonotone(16, |s|, 6);
      assert false;
    }
    var d0, rest := DigitValue(s[0]), DigitsValue(s[1..], 16);
    assert n == d0 * 16777216 + rest && 0 <= rest < 16777216;
    assert d0 == 1;
  }

  /** Reads `#rrggbb` back into its three channels; `None` for anything
      that is not `#` and six lower-case hex digits. */
  function HexToRgb(hex: string): (c: Option<Rgb>)
    ensures c.Some? ==> IsColor(c.value)
  {
    if |hex| == 7 && hex[0] == '#' && IsDigitString(hex[1..], 16) then
      var v := DigitsValue(hex[1..], 16);
      DigitsValueBound(hex[1..], 16);
      PowSixteen();
      Some(Rgb(v / 65536, v / 256 % 256, v % 256))
    else None
  }

  /** Reading back what `rgbToHex` wrote gives the channels it was given. */
  lemma HexRoundTrip(r: int, g: int, b: int)
    requires IsChannel(r) && IsChannel(g) && IsChannel(b)
    ensures HexToRgb(RgbToHex(r, g, b)) == Some(Rgb(r, g, b))
  {
    var v := r * 65536 + g * 256 + b;
    SplitChannels(r, g, b);
  }

  lemma SplitChannels(r: int, g: int, b: int)
    requires IsChannel(r) && IsChannel(g) && IsChannel(b)
    ensures var v := r * 65536 + g * 256 + b; v / 65536 == r && v / 256 % 256 == g && v % 256 == b
  {
    var v := r * 65536 + g * 256 + b;
    assert v / 256 == r * 256 + g;
  }

  // -----------------------------------------------------------------------
  // The resolved value

  /** The `rgb(r, g, b)` CSS text. */
  function RgbString(c: Rgb): string
  {
    "rgb(" + IntToDecimal(c.r) + ", " + IntToDecimal(c.g) + ", " + IntToDecimal(c.b) + ")"
  }

  /** Default Spotify green, used when the image cannot be read. */
  const Fallback: ColorResult := ColorResult("rgb(29, 185, 84)", "#1db954", Hsl(141.0, 73.0, 42.0))

  /** The fallback's three forms describe one colour: its hex is `rgbToHex`
      of its rgb, and its hsl is `rgbToHsl` of its rgb. */
  lemma FallbackConsistent()
    ensures Fallback.rgb == RgbString(Rgb(29, 185, 84))
    ensures Fallback.hex == RgbToHex(29, 185, 84)
    ensures Fallback.hsl == RgbToHsl(29, 185, 84)
  {
    FallbackRgb();
    FallbackHex();
    FallbackHsl();
  }

  lemma FallbackRgb()
    ensures Fallback.rgb == RgbString(Rgb(29, 185, 84))
  {
  }

  lemma FallbackHex()
    ensures Fallback.hex == RgbToHex(29, 185, 84)
  {
    var hex := RgbToHex(29, 185, 84);
    assert "1"[..0] == [];
    DigitsValueLast("1", 16);
    assert "1d"[..1] == "1";
    DigitsValueLast("1d", 16);
    assert "1db"[..2] == "1d";
    DigitsValueLast("1db", 16);
    assert "1db9"[..3] == "1db";
    DigitsValueLast("1db9", 16);
    assert "1db95"[..4] == "1db9";
    DigitsValueLast("1db95", 16);
    assert "1db954"[..5] == "1db95";
    DigitsValueLast("1db954", 16);
    assert DigitsValue("1db954", 16) == 1947988;
    DigitsValueInjective(hex[1..], "1db954", 16);
    assert hex == [hex[0]] + hex[1..];
  }

  lemma FallbackHsl()
    ensures Fallback.hsl == RgbToHsl(29, 185, 84)
  {
    var rf, gf, bf := 29.0 / 255.0, 185.0 / 255.0, 84.0 / 255.0;
    assert Max3(rf, gf, bf) == gf && Min3(rf, gf, bf) == rf;
    assert (gf + rf) / 2.0 * 100.0 == 10700.0 / 255.0;
    assert Round(10700.0 / 255.0) == 42;
    assert SaturationFraction(gf, rf) == 156.0 / 214.0;
    assert Round(156.0 / 214.0 * 100.0) == 73;
    assert HueFraction(rf, gf, bf) == 367.0 / 936.0;
    assert Round(367.0 / 936.0 * 360.0) == 141;
  }

  /** Lines 39-54: from the average colour to the resolved value. */
  function ColorFromAverage(avg: Rgb): (res: ColorResult)
    requires IsColor(avg)
    ensures 0.0 <= res.hsl.h <= 360.0
    ensures 0.0 <= res.hsl.s <= 100.0
    ensures 20.0 <= res.hsl.l <= 70.0
    // the hex text and the rgb text name the same colour
    ensures HexToRgb(res.hex).Some? && res.rgb == RgbString(HexToRgb(res.hex).value)
  {
    var hsl := RgbToHsl(avg.r, avg.g, avg.b);
    var adjusted := Adjust(hsl);
    var c := HslToRgb(adjusted.h, adjusted.s, adjusted.l);
    HexRoundTrip(c.r, c.g, c.b);
    ColorResult(RgbString(c), RgbToHex(c.r, c.g, c.b), adjusted)
  }

  /** Whether the sampling inside `img.onload` succeeded. */
  datatype Sampling = Threw | Sampled(data: seq<Byte>)

  /** How the image load ended. */
  datatype ImageEvent = LoadError | Loaded(sampling: Sampling)

  predicate Succeeded(event: ImageEvent) { event.Loaded? && event.sampling.Sampled? }

  /** What `extractDominantColor` resolves to for one image: whatever
      happens, a colour whose hex and rgb texts agree, with saturation and
      lightness within the adjusted bounds. */
  function DominantColor(event: ImageEvent): (result: ColorResult)
    requires Succeeded(event) ==> |event.sampling.data| == RasterBytes
    ensures HexToRgb(result.hex).Some? && result.rgb == RgbString(HexToRgb(result.hex).value)
    ensures 0.0 <= result.hsl.s <= 100.0 && 20.0 <= result.hsl.l
  {
    if Succeeded(event) then ColorFromAverage(Average(event.sampling.data))
    else
      FallbackConsistent();
      HexRoundTrip(29, 185, 84);
      Fallback
  }

  /** `extractDominantColor`: the promise always resolves, to the fallback
      on a load error or an exception, otherwise to the adjusted average. */
  method ExtractDominantColor(event: ImageEvent) returns (result: ColorResult)
    requires Succeeded(event) ==> |event.sampling.data| == RasterBytes
    ensures result == DominantColor(event)
    ensures !Succeeded(event) ==> result == Fallback
    ensures Succeeded(event) ==> result == ColorFromAverage(Average(event.sampling.data))
  {
    match event
    case LoadError =>
      result := Fallback;
    case Loaded(Threw) =>
      result := Fallback;
    case Loaded(Sampled(data)) =>
      var avg, _ := AverageColor(data);
      result := ColorFromAverage(avg);
  }
}
