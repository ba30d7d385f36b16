/** The per-pixel filters of the image processor hook.

    Each filter reads the red, green and blue bytes of one pixel, computes
    new values with exact real arithmetic, and stores them back through
    `Math.min(255, …)` and the byte conversion of the pixel array. The alpha
    byte is never written.
 */
module PixelFilters {
  import opened Channel
  import opened Hsl

  datatype Pixel = Pixel(r: int, g: int, b: int, a: int)

  predicate ValidPixel(p: Pixel) {
    IsByte(p.r) && IsByte(p.g) && IsByte(p.b) && IsByte(p.a)
  }

  predicate IsGray(p: Pixel) {
    p.r == p.g == p.b
  }

  /** The per-pixel operations, with the parameter the caller passes. */
  datatype Filter =
    | Grayscale
    | Sepia
    | Brightness(value: int)
    | Contrast(value: int)
    | Saturation(value: int)
    | CrossProcess
    | HueShift(degrees: int)

  /** `applyGrayscale`: every colour channel becomes the mean of the three. */
  function GrayscalePixel(p: Pixel): (q: Pixel)
    requires ValidPixel(p)
    ensures ValidPixel(q) && IsGray(q) && q.a == p.a
    ensures IsGray(p) ==> q == p
  {
    ToUint8ClampOfByte(p.r);
    var v := ToUint8Clamp((p.r + p.g + p.b) as real / 3.0);
    Pixel(v, v, v, p.a)
  }

  /** `applySepia`: a fixed colour matrix; every row reads the unmodified
      channels. */
  function SepiaPixel(p: Pixel): (q: Pixel)
    requires ValidPixel(p)
    ensures ValidPixel(q) && q.a == p.a
  {
    var r := p.r as real;
    var g := p.g as real;
    var b := p.b as real;
    Pixel(StoreMin(r * 0.393 + g * 0.769 + b * 0.189),
          StoreMin(r * 0.349 + g * 0.686 + b * 0.168),
          StoreMin(r * 0.272 + g * 0.534 + b * 0.131),
          p.a)
  }

  /** `applyBrightnessAdjustment`: every channel is scaled by `value / 100`. */
  function BrightnessPixel(value: int, p: Pixel): (q: Pixel)
    requires ValidPixel(p)
    ensures ValidPixel(q) && q.a == p.a
  {
    var factor := value as real / 100.0;
    Pixel(StoreMin(p.r as real * factor), StoreMin(p.g as real * factor),
          StoreMin(p.b as real * factor), p.a)
  }

  /** The contrast factor: `(value / 100) * 2`, so the neutral value is 50
      and the slider default of 100 doubles the distance from 128. */
  function ContrastFactor(value: int): real {
    (value as real / 100.0) * 2.0
  }

  /** One channel of `applyContrastEnhancement`: it moves away from 128 by
      the contrast factor. */
  function ContrastChannel(value: int, x: int): (b: int)
    ensures IsByte(b)
    ensures x == 128 ==> b == 128
  {
    ToUint8ClampOfByte(128);
    StoreMin(128.0 + (x - 128) as real * ContrastFactor(value))
  }

  /** `applyContrastEnhancement` */
  function ContrastPixel(value: int, p: Pixel): (q: Pixel)
    requires ValidPixel(p)
    ensures ValidPixel(q) && q.a == p.a
    ensures p.r == 128 ==> q.r == 128
    ensures p.g == 128 ==> q.g == 128
    ensures p.b == 128 ==> q.b == 128
  {
    Pixel(ContrastChannel(value, p.r), ContrastChannel(value, p.g), ContrastChannel(value, p.b), p.a)
  }

  /** The luma the saturation filter pulls towards. */
  function Luma(p: Pixel): real {
    0.2989 * p.r as real + 0.587 * p.g as real + 0.114 * p.b as real
  }

  /** One channel of `applySaturationBoost`: it moves away from the luma
      by `value / 100`. */
  function SaturationChannel(value: int, gray: real, x: int): (b: int)
    ensures IsByte(b)
    ensures value == 0 ==> b == ToUint8Clamp(gray)
  {
    StoreMin(gray + (value as real / 100.0) * (x as real - gray))
  }

  /** `applySaturationBoost` */
  function SaturationPixel(value: int, p: Pixel): (q: Pixel)
    requires ValidPixel(p)
    ensures ValidPixel(q) && q.a == p.a
    ensures value == 0 ==> IsGray(q)
  {
    var gray := Luma(p);
    Pixel(SaturationChannel(value, gray, p.r), SaturationChannel(value, gray, p.g),
          SaturationChannel(value, gray, p.b), p.a)
  }

  /** `applyCrossProcess`: three conditional boosts run in sequence on the
      stored bytes, so the third test reads the green byte the second one
      may already have rewritten. */
  function CrossProcessPixel(p: Pixel): (q: Pixel)
    requires ValidPixel(p)
    ensures ValidPixel(q) && q.a == p.a
    ensures q.b == (if p.r < 120 && p.g < 120 then StoreMin(p.b as real * 1.2) else p.b)
    ensures q.r >= p.r && q.g >= p.g && q.b >= p.b
    ensures q.b != p.b ==> p.r < 120 && p.g < 120
    ensures q.g != p.g ==> 80 < p.r
    ensures q.r != p.r ==> 150 < p.r && 150 < q.g
  {
    BoostNeverLowers(p.b, 1.2);
    BoostNeverLowers(p.g, 1.2);
    BoostNeverLowers(p.r, 1.1);
    var b1 := if p.r < 120 && p.g < 120 then StoreMin(p.b as real * 1.2) else p.b;
    var g1 := if 80 < p.r < 180 then StoreMin(p.g as real * 1.2) else p.g;
    if 150 < p.r && 150 < g1 then
      Pixel(StoreMin(p.r as real * 1.1), StoreMin(g1 as real * 1.1), b1, p.a)
    else
      Pixel(p.r, g1, b1, p.a)
  }

  /** A boost by a factor of at least 1 never lowers a byte. */
  lemma BoostNeverLowers(x: int, k: real)
    requires IsByte(x) && k >= 1.0
    ensures StoreMin(x as real * k) >= x
  {
    assert x as real <= x as real * k;
    ToUint8ClampMonotone(x as real, x as real * k);
    ToUint8ClampOfByte(x);
  }

  /** For every pixel with a midtone red, the highlight boost of red fires
      exactly when the green byte already boosted by the midtone step is
      above 150; the original green does not decide it. */
  lemma {:induction false} CrossProcessHighlightReadsBoostedGreen(p: Pixel)
    requires ValidPixel(p) && 80 < p.r < 180
    ensures CrossProcessPixel(p).r != p.r <==> 150 < p.r && 150 < StoreMin(p.g as real * 1.2)
  {
    if 150 < p.r && 150 < StoreMin(p.g as real * 1.2) {
      assert (p.r + 1) as real <= p.r as real * 1.1;
      ToUint8ClampMonotone((p.r + 1) as real, p.r as real * 1.1);
      ToUint8ClampOfByte(p.r + 1);
    }
  }

  /** The hue after `(h * 360 + degrees) % 360`, as a fraction of a turn. */
  function ShiftedHue(h: real, degrees: int): (t: real)
    ensures 0.0 <= h < 1.0 && degrees >= 0 ==> 0.0 <= t < 1.0
  {
    Rem360(h * 360.0 + degrees as real) / 360.0
  }

  /** `applyHueShift`: convert to HSL, turn the hue, convert back. */
  function HueShiftPixel(degrees: int, p: Pixel): (q: Pixel)
    requires ValidPixel(p)
    ensures ValidPixel(q) && q.a == p.a
  {
    var c := RgbToHsl(p.r, p.g, p.b);
    var rgb := HslToRgb(Hsl(ShiftedHue(c.h, degrees), c.s, c.l));
    Pixel(ToUint8Clamp(rgb.r as real), ToUint8Clamp(rgb.g as real), ToUint8Clamp(rgb.b as real), p.a)
  }

  /** One filter applied to one pixel. */
  function FilterPixel(f: Filter, p: Pixel): (q: Pixel)
    requires ValidPixel(p)
    ensures ValidPixel(q) && q.a == p.a
  {
    match f
    case Grayscale => GrayscalePixel(p)
    case Sepia => SepiaPixel(p)
    case Brightness(v) => BrightnessPixel(v, p)
    case Contrast(v) => ContrastPixel(v, p)
    case Saturation(v) => SaturationPixel(v, p)
    case CrossProcess => CrossProcessPixel(p)
    case HueShift(d) => HueShiftPixel(d, p)
  }

  /** A sequence of filters applied one after the other. */
  function FilterAllPixel(fs: seq<Filter>, p: Pixel): (q: Pixel)
    requires ValidPixel(p)
    ensures ValidPixel(q) && q.a == p.a
    decreases |fs|
  {
    if fs == [] then p else FilterAllPixel(fs[1..], FilterPixel(fs[0], p))
  }

  /** The pixel that tells each scaling filter's neutral value apart from
      every other value. */
  const Probe := Pixel(100, 0, 0, 255)

  /** At `value == 100` the brightness factor is 1. */
  lemma BrightnessNeutral(p: Pixel)
    requires ValidPixel(p)
    ensures BrightnessPixel(100, p) == p
  {
    ToUint8ClampOfByte(p.r);
    ToUint8ClampOfByte(p.g);
    ToUint8ClampOfByte(p.b);
  }

  /** Away from `value == 100` the red byte 100 of the probe moves. */
  lemma BrightnessMovesProbe(value: int)
    requires value != 100
    ensures BrightnessPixel(value, Probe).r != 100
  {
    assert 100.0 * (value as real / 100.0) == value as real;
    assert BrightnessPixel(value, Probe).r == ToUint8Clamp(value as real);
  }

  /** Brightness leaves every pixel alone exactly at `value == 100`. */
  lemma {:induction false} BrightnessNeutralIff(value: int)
    ensures (forall p | ValidPixel(p) :: BrightnessPixel(value, p) == p) <==> value == 100
  {
    if value == 100 {
      forall p | ValidPixel(p) ensures BrightnessPixel(value, p) == p {
        BrightnessNeutral(p);
      }
    } else {
      BrightnessMovesProbe(value);
    }
  }

  /** At `value == 50` the contrast factor is 1. */
  lemma ContrastNeutral(p: Pixel)
    requires ValidPixel(p)
    ensures ContrastPixel(50, p) == p
  {
    assert ContrastFactor(50) == 1.0;
    ToUint8ClampOfByte(p.r);
    ToUint8ClampOfByte(p.g);
    ToUint8ClampOfByte(p.b);
  }

  /** Away from `value == 50` the red byte 100 of the probe moves. */
  lemma ContrastMovesProbe(value: int)
    requires value != 50
    ensures ContrastPixel(value, Probe).r != 100
  {
    var x := 128.0 + (100 - 128) as real * ContrastFactor(value);
    assert x == 128.0 - 0.56 * value as real;
    assert ContrastChannel(value, 100) == ToUint8Clamp(x);
    if value < 50 {
      assert x >= 100.56;
    } else {
      assert x <= 99.44;
    }
  }

  /** Contrast leaves every pixel alone exactly at `value == 50`; the slider
      default of 100 is not neutral. */
  lemma {:induction false} ContrastNeutralIff(value: int)
    ensures (forall p | ValidPixel(p) :: ContrastPixel(value, p) == p) <==> value == 50
  {
    if value == 50 {
      forall p | ValidPixel(p) ensures ContrastPixel(value, p) == p {
        ContrastNeutral(p);
      }
    } else {
      ContrastMovesProbe(value);
    }
  }

  /** At `value == 100` every channel is pulled back onto itself. */
  lemma SaturationNeutral(p: Pixel)
    requires ValidPixel(p)
    ensures SaturationPixel(100, p) == p
  {
    ToUint8ClampOfByte(p.r);
    ToUint8ClampOfByte(p.g);
    ToUint8ClampOfByte(p.b);
  }

  /** Away from `value == 100` the red byte 100 of the probe moves. */
  lemma SaturationMovesProbe(value: int)
    requires value != 100
    ensures SaturationPixel(value, Probe).r != 100
  {
    assert Luma(Probe) == 29.89;
    var x := 29.89 + (value as real / 100.0) * (100.0 - 29.89);
    assert x == 29.89 + 0.7011 * value as real;
    assert SaturationChannel(value, 29.89, 100) == ToUint8Clamp(x);
    if value < 100 {
      assert x <= 99.3989;
    } else {
      assert x >= 100.7011;
    }
  }

  /** Saturation leaves every pixel alone exactly at `value == 100`. */
  lemma {:induction false} SaturationNeutralIff(value: int)
    ensures (forall p | ValidPixel(p) :: SaturationPixel(value, p) == p) <==> value == 100
  {
    if value == 100 {
      forall p | ValidPixel(p) ensures SaturationPixel(value, p) == p {
        SaturationNeutral(p);
      }
    } else {
      SaturationMovesProbe(value);
    }
  }

  /** The sepia matrix never makes green exceed red or blue exceed green. */
  lemma {:induction false} SepiaOrdered(p: Pixel)
    requires ValidPixel(p)
    ensures SepiaPixel(p).r >= SepiaPixel(p).g >= SepiaPixel(p).b
  {
    var r := p.r as real;
    var g := p.g as real;
    var b := p.b as real;
    ToUint8ClampMonotone(r * 0.349 + g * 0.686 + b * 0.168, r * 0.393 + g * 0.769 + b * 0.189);
    ToUint8ClampMonotone(r * 0.272 + g * 0.534 + b * 0.131, r * 0.349 + g * 0.686 + b * 0.168);
  }

  /** The highlight test of cross-process sees the green byte written by the
      midtone test: here the original green (130) would fail `> 150`, but
      the boosted one (156) passes, so red and green are boosted again. */
  lemma CrossProcessReadsRewrittenGreen()
    ensures !(150 < Pixel(160, 130, 50, 255).g)
    ensures CrossProcessPixel(Pixel(160, 130, 50, 255)) == Pixel(176, 172, 50, 255)
  {
    assert StoreMin(130.0 * 1.2) == 156;
    assert StoreMin(160.0 * 1.1) == 176;
    assert StoreMin(156.0 * 1.1) == 172;
  }

  /** A gray pixel has saturation 0, so any hue shift gives it back. */
  lemma {:induction false} HueShiftKeepsGray(degrees: int, p: Pixel)
    requires ValidPixel(p) && IsGray(p)
    ensures HueShiftPixel(degrees, p) == p
  {
    var c := RgbToHsl(p.r, p.g, p.b);
    assert c.s == 0.0 && c.l * 255.0 == p.r as real;
    MathRoundOfInt(p.r);
    ToUint8ClampOfByte(p.r);
  }

  /** Turning the hue by whole turns gives back every pixel. */
  lemma {:induction false} HueShiftWholeTurns(turns: nat, p: Pixel)
    requires ValidPixel(p)
    ensures HueShiftPixel(360 * turns, p) == p
  {
    var c := RgbToHsl(p.r, p.g, p.b);
    Rem360Periodic(c.h * 360.0, turns);
    assert (360 * turns) as real == 360.0 * turns as real;
    assert ShiftedHue(c.h, 360 * turns) == c.h;
    assert Hsl(ShiftedHue(c.h, 360 * turns), c.s, c.l) == c;
    RoundTrip(p.r, p.g, p.b);
    ToUint8ClampOfByte(p.r);
    ToUint8ClampOfByte(p.g);
    ToUint8ClampOfByte(p.b);
  }

  /** Turning pure red half way round gives cyan. */
  lemma HueShiftRedToCyan()
    ensures HueShiftPixel(180, Pixel(255, 0, 0, 255)) == Pixel(0, 255, 255, 255)
  {
    var c := RgbToHsl(255, 0, 0);
    assert c == Hsl(0.0, 1.0, 0.5);
    assert ShiftedHue(0.0, 180) == 0.5;
    assert HslToUnit(Hsl(0.5, 1.0, 0.5)) == Unit(0.0, 1.0, 1.0);
  }

  /** The filters `applyAdjustments` runs, in its order: brightness,
      contrast, saturation, hue. The blur value is not used. */
  function AdjustmentFilters(brightness: int, contrast: int, saturation: int, hue: int): (fs: seq<Filter>)
    ensures |fs| == 4
  {
    [Brightness(brightness), Contrast(contrast), Saturation(saturation), HueShift(hue)]
  }

  /** The neutral settings of the four adjustment filters leave every pixel
      alone. */
  lemma {:induction false} NeutralAdjustments(p: Pixel)
    requires ValidPixel(p)
    ensures FilterAllPixel(AdjustmentFilters(100, 50, 100, 0), p) == p
  {
    assert AdjustmentFilters(100, 50, 100, 0) == [Brightness(100), Contrast(50), Saturation(100), HueShift(0)];
    FilterAllFour(Brightness(100), Contrast(50), Saturation(100), HueShift(0), p);
    assert FilterPixel(Brightness(100), p) == p by { BrightnessNeutral(p); }
    assert FilterPixel(Contrast(50), p) == p by { ContrastNeutral(p); }
    assert FilterPixel(Saturation(100), p) == p by { SaturationNeutral(p); }
    assert FilterPixel(HueShift(0), p) == p by { HueShiftWholeTurns(0, p); }
  }

  /** The first filter of a list runs first. */
  lemma FilterAllCons(f: Filter, fs: seq<Filter>, p: Pixel)
    requires ValidPixel(p)
    ensures FilterAllPixel([f] + fs, p) == FilterAllPixel(fs, FilterPixel(f, p))
  {
    assert ([f] + fs)[1..] == fs;
  }

  /** A list of one filter runs that filter. */
  lemma FilterAllOne(f: Filter, p: Pixel)
    requires ValidPixel(p)
    ensures FilterAllPixel([f], p) == FilterPixel(f, p)
  {
    assert [f][1..] == [];
  }

  /** Two filters in a row, one after the other. */
  lemma FilterAllTwo(f1: Filter, f2: Filter, p: Pixel)
    requires ValidPixel(p)
    ensures FilterAllPixel([f1, f2], p) == FilterPixel(f2, FilterPixel(f1, p))
  {
    assert [f1, f2] == [f1] + [f2];
    FilterAllCons(f1, [f2], p);
    FilterAllOne(f2, FilterPixel(f1, p));
  }

  /** Three filters in a row, one after the other. */
  lemma FilterAllThree(f1: Filter, f2: Filter, f3: Filter, p: Pixel)
    requires ValidPixel(p)
    ensures FilterAllPixel([f1, f2, f3], p) == FilterPixel(f3, FilterPixel(f2, FilterPixel(f1, p)))
  {
    assert [f1, f2, f3] == [f1] + [f2, f3];
    FilterAllCons(f1, [f2, f3], p);
    FilterAllTwo(f2, f3, FilterPixel(f1, p));
  }

  /** Four filters in a row, one after the other. */
  lemma FilterAllFour(f1: Filter, f2: Filter, f3: Filter, f4: Filter, p: Pixel)
    requires ValidPixel(p)
    ensures FilterAllPixel([f1, f2, f3, f4], p)
         == FilterPixel(f4, FilterPixel(f3, FilterPixel(f2, FilterPixel(f1, p))))
  {
    assert [f1, f2, f3, f4] == [f1] + [f2, f3, f4];
    FilterAllCons(f1, [f2, f3, f4], p);
    FilterAllThree(f2, f3, f4, FilterPixel(f1, p));
  }

  /** Contrast at the slider default moves gray 100 to 72. */
  lemma ContrastMovesGray(p: Pixel)
    requires p == Pixel(100, 100, 100, 255)
    ensures ContrastPixel(100, p) == Pixel(72, 72, 72, 255)
  {
    assert ContrastFactor(100) == 2.0;
    assert 128.0 + (100 - 128) as real * 2.0 == 72.0;
    ToUint8ClampOfByte(72);
  }

  /** The slider defaults (brightness, contrast and saturation 100, hue 0)
      are not neutral: contrast doubles the distance from 128. */
  lemma DefaultAdjustmentsDarkenGray(p: Pixel)
    requires p == Pixel(100, 100, 100, 255)
    ensures FilterAllPixel(AdjustmentFilters(100, 100, 100, 0), p)
         == Pixel(72, 72, 72, 255)
  {
    var q := Pixel(72, 72, 72, 255);
    FilterAllFour(Brightness(100), Contrast(100), Saturation(100), HueShift(0), p);
    BrightnessNeutral(p);
    ContrastMovesGray(p);
    SaturationNeutral(q);
    HueShiftKeepsGray(0, q);
  }
}
