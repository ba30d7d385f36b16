/** The editor's RGB <-> HSL conversions, used by the hue shift and by the
    simulated effect.

    `HslToRgb` follows the algorithm of section 4.2.4 of CSS Color Module
    Level 3 and rounds with `Math.round`; `RgbToHsl` is its max/min-channel
    inverse. Both work on exact reals. The main result is `RoundTrip`: for
    every byte triple, converting to HSL and back gives the same triple.
 */
module Hsl {
  import opened Channel

  datatype Hsl = Hsl(h: real, s: real, l: real)

  /** Three rounded channels, as returned by `hslToRgb`. */
  datatype Rgb = Rgb(r: int, g: int, b: int)

  /** Three channels on the unit interval, before rounding. */
  datatype Unit = Unit(r: real, g: real, b: real)

  predicate InUnit(x: real) {
    0.0 <= x <= 1.0
  }

  /** `Math.max(a, b, c)` */
  function Max3(a: real, b: real, c: real): (m: real)
    ensures m >= a && m >= b && m >= c
    ensures m == a || m == b || m == c
  {
    if a >= b && a >= c then a else if b >= c then b else c
  }

  /** `Math.min(a, b, c)` */
  function Min3(a: real, b: real, c: real): (m: real)
    ensures m <= a && m <= b && m <= c
    ensures m == a || m == b || m == c
  {
    if a <= b && a <= c then a else if b <= c then b else c
  }

  lemma MulPos(a: real, b: real)
    requires a > 0.0 && b > 0.0
    ensures a * b > 0.0
  {
  }

  /** `a * x` lies between 0 and `a` when `x` lies on the unit interval. */
  lemma MulUnit(a: real, x: real)
    ensures a >= 0.0 && 0.0 <= x <= 1.0 ==> 0.0 <= a * x <= a
  {
    if a >= 0.0 && 0.0 <= x <= 1.0 {
      MulNonneg(a, x);
      MulNonneg(a, 1.0 - x);
      assert a * (1.0 - x) == a - a * x;
    }
  }

  /** Facts about `x / d` for a positive `d` that bounds `x`. */
  lemma Ratio(x: real, d: real)
    requires d > 0.0 && -d <= x <= d
    ensures (x / d) * d == x
    ensures -1.0 <= x / d <= 1.0
    ensures x >= 0.0 ==> x / d >= 0.0
    ensures x < 0.0 ==> x / d < 0.0
    ensures x > 0.0 ==> x / d > 0.0
    ensures x < d ==> x / d < 1.0
    ensures -d < x ==> -1.0 < x / d
  {
    var k := x / d;
    assert k * d == x;
    SignOfFactor(k, d);
    UpperOfFactor(k, d);
    LowerOfFactor(k, d);
  }

  lemma SignOfFactor(k: real, d: real)
    requires d > 0.0
    ensures k * d >= 0.0 ==> k >= 0.0
    ensures k * d > 0.0 ==> k > 0.0
    ensures k * d < 0.0 ==> k < 0.0
  {
    if k < 0.0 {
      MulPos(-k, d);
    } else {
      MulNonneg(k, d);
      if k == 0.0 {
        assert k * d == 0.0;
      }
    }
  }

  lemma UpperOfFactor(k: real, d: real)
    requires d > 0.0
    ensures k * d <= d ==> k <= 1.0
    ensures k * d < d ==> k < 1.0
  {
    assert (k - 1.0) * d == k * d - d;
    SignOfFactor(k - 1.0, d);
  }

  lemma LowerOfFactor(k: real, d: real)
    requires d > 0.0
    ensures -d <= k * d ==> -1.0 <= k
    ensures -d < k * d ==> -1.0 < k
  {
    assert (k + 1.0) * d == k * d + d;
    SignOfFactor(k + 1.0, d);
  }

  /** Saturation of a chromatic colour whose largest and smallest channels
      are `mx` and `mn`; the lightness decides the denominator. */
  function SatOf(mx: real, mn: real): (s: real)
    requires 0.0 <= mn < mx <= 1.0
    ensures 0.0 < s <= 1.0
  {
    var l := (mx + mn) / 2.0;
    var d := mx - mn;
    if l > 0.5 then
      Ratio(d, 2.0 - mx - mn);
      d / (2.0 - mx - mn)
    else
      Ratio(d, mx + mn);
      d / (mx + mn)
  }

  /** Hue of a chromatic colour, as a fraction of a full turn. */
  function HueOf(r: real, g: real, b: real): (h: real)
    requires InUnit(r) && InUnit(g) && InUnit(b)
    requires Min3(r, g, b) < Max3(r, g, b)
    ensures 0.0 <= h < 1.0
  {
    var mx := Max3(r, g, b);
    var d := mx - Min3(r, g, b);
    var sector :=
      if mx == r then
        (Ratio(g - b, d); (g - b) / d + (if g < b then 6.0 else 0.0))
      else if mx == g then
        (Ratio(b - r, d); (b - r) / d + 2.0)
      else
        (Ratio(r - g, d); (r - g) / d + 4.0);
    sector / 6.0
  }

  /** `rgbToHsl` after its three divisions by 255. */
  function UnitToHsl(r: real, g: real, b: real): (c: Hsl)
    requires InUnit(r) && InUnit(g) && InUnit(b)
    ensures 0.0 <= c.h < 1.0 && InUnit(c.s) && InUnit(c.l)
    ensures c.s == 0.0 <==> r == g == b
    ensures r == g == b ==> c.h == 0.0 && c.l == r
  {
    var mx := Max3(r, g, b);
    var mn := Min3(r, g, b);
    var l := (mx + mn) / 2.0;
    if mx == mn then Hsl(0.0, 0.0, l)
    else Hsl(HueOf(r, g, b), SatOf(mx, mn), l)
  }

  /** `rgbToHsl(r, g, b)` on three stored bytes. */
  function RgbToHsl(r: int, g: int, b: int): (c: Hsl)
    requires IsByte(r) && IsByte(g) && IsByte(b)
    ensures 0.0 <= c.h < 1.0 && InUnit(c.s) && InUnit(c.l)
    ensures c.s == 0.0 <==> r == g == b
    ensures r == g == b ==> c.h == 0.0 && c.l * 255.0 == r as real
  {
    UnitToHsl(r as real / 255.0, g as real / 255.0, b as real / 255.0)
  }

  /** The point a fraction `x` of the way from `p` to `q`. `hue2rgb` writes
      its two ramps as `p + (q - p) * 6 * t` and `p + (q - p) * (2/3 - t) * 6`,
      which over exact reals are `Ramp(p, q, 6 * t)` and
      `Ramp(p, q, (2/3 - t) * 6)`. */
  function Ramp(p: real, q: real, x: real): (v: real)
    ensures p <= q && 0.0 <= x <= 1.0 ==> p <= v <= q
  {
    MulUnit(q - p, x);
    p + (q - p) * x
  }

  /** The nested `hue2rgb(p, q, t)` helper of `hslToRgb`. */
  function Hue2Rgb(p: real, q: real, t0: real): (v: real)
    ensures p <= q && -1.0 <= t0 <= 2.0 ==> p <= v <= q
  {
    var t1 := if t0 < 0.0 then t0 + 1.0 else t0;
    var t := if t1 > 1.0 then t1 - 1.0 else t1;
    if t < 1.0 / 6.0 then Ramp(p, q, 6.0 * t)
    else if t < 1.0 / 2.0 then q
    else if t < 2.0 / 3.0 then Ramp(p, q, (2.0 / 3.0 - t) * 6.0)
    else p
  }

  /** The `q` of `hslToRgb`: the largest channel of the colour. */
  function QOf(s: real, l: real): real {
    if l < 0.5 then l * (1.0 + s) else l + s - l * s
  }

  lemma PQBounds(s: real, l: real)
    ensures InUnit(s) && InUnit(l) ==> 0.0 <= 2.0 * l - QOf(s, l) <= QOf(s, l) <= 1.0
  {
    if InUnit(s) && InUnit(l) {
      if l < 0.5 {
        QBelowHalf(s, l);
        PQLinear(l, l * s, QOf(s, l));
      } else {
        QFromHalf(s, l);
        PQLinear(l, (1.0 - l) * s, QOf(s, l));
      }
    }
  }

  /** Below half lightness `q` is `l` plus a product at most `l`. */
  lemma QBelowHalf(s: real, l: real)
    requires InUnit(s) && 0.0 <= l < 0.5
    ensures QOf(s, l) == l + l * s && 0.0 <= l * s <= l
  {
    MulUnit(l, s);
    MulDistrib(l, 1.0, s);
  }

  /** From half lightness on `q` is `l` plus a product at most `1 - l`. */
  lemma QFromHalf(s: real, l: real)
    requires InUnit(s) && 0.5 <= l <= 1.0
    ensures QOf(s, l) == l + (1.0 - l) * s && 0.0 <= (1.0 - l) * s <= 1.0 - l
  {
    MulUnit(1.0 - l, s);
    MulSub(1.0, l, s);
  }

  /** The bounds on `p` and `q`, once the product in `q` is bounded. */
  lemma PQLinear(l: real, m: real, q: real)
    requires InUnit(l) && q == l + m
    requires l < 0.5 ==> 0.0 <= m <= l
    requires l >= 0.5 ==> 0.0 <= m <= 1.0 - l
    ensures 0.0 <= 2.0 * l - q <= q <= 1.0
  {
  }

  /** `hslToRgb` before its final `Math.round(x * 255)`. */
  function HslToUnit(c: Hsl): Unit {
    if c.s == 0.0 then Unit(c.l, c.l, c.l)
    else
      var q := QOf(c.s, c.l);
      var p := 2.0 * c.l - q;
      Unit(Hue2Rgb(p, q, c.h + 1.0 / 3.0), Hue2Rgb(p, q, c.h), Hue2Rgb(p, q, c.h - 1.0 / 3.0))
  }

  /** `hslToRgb(h, s, l)` */
  function HslToRgb(c: Hsl): (rgb: Rgb)
    ensures c.s == 0.0 ==> rgb.r == rgb.g == rgb.b == MathRound(c.l * 255.0)
  {
    var u := HslToUnit(c);
    Rgb(MathRound(u.r * 255.0), MathRound(u.g * 255.0), MathRound(u.b * 255.0))
  }

  /** A colour whose hue, saturation and lightness all lie on the unit
      interval has all three channels on the unit interval, so `hslToRgb`
      yields bytes and the store after it never clamps. */
  lemma HslToRgbBytes(c: Hsl)
    requires InUnit(c.h) && InUnit(c.s) && InUnit(c.l)
    ensures var u := HslToUnit(c); InUnit(u.r) && InUnit(u.g) && InUnit(u.b)
    ensures var rgb := HslToRgb(c); IsByte(rgb.r) && IsByte(rgb.g) && IsByte(rgb.b)
  {
    if c.s != 0.0 {
      var q := QOf(c.s, c.l);
      var p := 2.0 * c.l - q;
      PQBounds(c.s, c.l);
    }
  }

  /** For a chromatic colour, the `q` and `p` that `hslToRgb` derives from
      its saturation and lightness are its largest and smallest channels. */
  lemma PQOfChromatic(mx: real, mn: real)
    requires 0.0 <= mn < mx <= 1.0
    ensures QOf(SatOf(mx, mn), (mx + mn) / 2.0) == mx
    ensures 2.0 * ((mx + mn) / 2.0) - QOf(SatOf(mx, mn), (mx + mn) / 2.0) == mn
  {
    var l := (mx + mn) / 2.0;
    var d := mx - mn;
    var s := SatOf(mx, mn);
    if l > 0.5 {
      Ratio(d, 2.0 - mx - mn);
      assert s * (2.0 - mx - mn) == d;
      assert l + s - l * s == l + s * (2.0 - mx - mn) / 2.0;
    } else {
      Ratio(d, mx + mn);
      assert s * (mx + mn) == d;
      if l < 0.5 {
        assert l * (1.0 + s) == l + s * (mx + mn) / 2.0;
      } else {
        assert mx + mn == 1.0;
        assert s == d;
      }
    }
  }

  /** `Ramp(p, q, k)` lands on `x` when `k` is the fraction `(x - p) / (q - p)`. */
  lemma RampHits(p: real, q: real, x: real)
    requires p < q && p <= x <= q
    ensures Ramp(p, q, (x - p) / (q - p)) == x
  {
    Ratio(x - p, q - p);
  }

  /** Negating a numerator negates the quotient. */
  lemma NegQuotient(x: real, y: real, d: real)
    requires d > 0.0 && y == -x
    ensures y / d == -(x / d)
  {
    var k := x / d;
    assert k * d == x;
    assert (-k) * d == y;
  }

  /** The six hue sectors. In each, `p` and `q` are the smallest and
      largest channels, `x` the middle one, and `f` is where `x` sits
      between them; `hue2rgb` rebuilds the three channels from the hue. */
  lemma SectorRedBlue(p: real, q: real, x: real, h: real)
    requires p < q && p <= x <= q
    requires h == ((x - p) / (q - p)) / 6.0
    ensures
      Hue2Rgb(p, q, h + 1.0 / 3.0) == q && Hue2Rgb(p, q, h) == x && Hue2Rgb(p, q, h - 1.0 / 3.0) == p
  {
    RampHits(p, q, x);
    Ratio(x - p, q - p);
  }

  lemma SectorRedGreen(p: real, q: real, x: real, h: real)
    requires p < q && p <= x <= q
    requires h == (6.0 - ((x - p) / (q - p))) / 6.0
    ensures
      Hue2Rgb(p, q, h + 1.0 / 3.0) == q && Hue2Rgb(p, q, h) == p && Hue2Rgb(p, q, h - 1.0 / 3.0) == x
  {
    RampHits(p, q, x);
    Ratio(x - p, q - p);
  }

  lemma SectorGreenBlue(p: real, q: real, x: real, h: real)
    requires p < q && p <= x <= q
    requires h == (2.0 - ((x - p) / (q - p))) / 6.0
    ensures
      Hue2Rgb(p, q, h + 1.0 / 3.0) == x && Hue2Rgb(p, q, h) == q && Hue2Rgb(p, q, h - 1.0 / 3.0) == p
  {
    RampHits(p, q, x);
    Ratio(x - p, q - p);
  }

  lemma SectorGreenRed(p: real, q: real, x: real, h: real)
    requires p < q && p <= x <= q
    requires h == (2.0 + ((x - p) / (q - p))) / 6.0
    ensures
      Hue2Rgb(p, q, h + 1.0 / 3.0) == p && Hue2Rgb(p, q, h) == q && Hue2Rgb(p, q, h - 1.0 / 3.0) == x
  {
    RampHits(p, q, x);
    Ratio(x - p, q - p);
  }

  lemma SectorBlueRed(p: real, q: real, x: real, h: real)
    requires p < q && p <= x <= q
    requires h == (4.0 - ((x - p) / (q - p))) / 6.0
    ensures
      Hue2Rgb(p, q, h + 1.0 / 3.0) == p && Hue2Rgb(p, q, h) == x && Hue2Rgb(p, q, h - 1.0 / 3.0) == q
  {
    RampHits(p, q, x);
    Ratio(x - p, q - p);
  }

  lemma SectorBlueGreen(p: real, q: real, x: real, h: real)
    requires p < q && p <= x <= q
    requires h == (4.0 + ((x - p) / (q - p))) / 6.0
    ensures
      Hue2Rgb(p, q, h + 1.0 / 3.0) == x && Hue2Rgb(p, q, h) == p && Hue2Rgb(p, q, h - 1.0 / 3.0) == q
  {
    RampHits(p, q, x);
    Ratio(x - p, q - p);
  }

  /** For a chromatic colour, `hslToRgb` rebuilds each channel by `hue2rgb`
      between the colour's smallest and largest channels. */
  lemma ChromaticBack(r: real, g: real, b: real)
    requires InUnit(r) && InUnit(g) && InUnit(b)
    requires Min3(r, g, b) < Max3(r, g, b)
    ensures var mn := Min3(r, g, b); var mx := Max3(r, g, b); var h := HueOf(r, g, b);
      HslToUnit(UnitToHsl(r, g, b))
      == Unit(Hue2Rgb(mn, mx, h + 1.0 / 3.0), Hue2Rgb(mn, mx, h), Hue2Rgb(mn, mx, h - 1.0 / 3.0))
  {
    var mn := Min3(r, g, b);
    var mx := Max3(r, g, b);
    PQOfChromatic(mx, mn);
    assert UnitToHsl(r, g, b) == Hsl(HueOf(r, g, b), SatOf(mx, mn), (mx + mn) / 2.0);
  }

  /** Round trip for a colour whose red channel is the largest. */
  lemma RoundTripRedMax(r: real, g: real, b: real)
    requires InUnit(r) && InUnit(g) && InUnit(b)
    requires Min3(r, g, b) < Max3(r, g, b) && Max3(r, g, b) == r
    ensures HslToUnit(UnitToHsl(r, g, b)) == Unit(r, g, b)
  {
    ChromaticBack(r, g, b);
    if g >= b {
      assert Min3(r, g, b) == b;
      assert HueOf(r, g, b) == ((g - b) / (r - b)) / 6.0;
      SectorRedBlue(b, r, g, HueOf(r, g, b));
    } else {
      assert Min3(r, g, b) == g;
      assert HueOf(r, g, b) == ((g - b) / (r - g) + 6.0) / 6.0;
      NegQuotient(g - b, b - g, r - g);
      SectorRedGreen(g, r, b, HueOf(r, g, b));
    }
  }

  /** Round trip for a colour whose green channel is the largest and whose
      red channel is smaller. */
  lemma RoundTripGreenMax(r: real, g: real, b: real)
    requires InUnit(r) && InUnit(g) && InUnit(b)
    requires Min3(r, g, b) < Max3(r, g, b) && Max3(r, g, b) != r && Max3(r, g, b) == g
    ensures HslToUnit(UnitToHsl(r, g, b)) == Unit(r, g, b)
  {
    ChromaticBack(r, g, b);
    if b >= r {
      assert Min3(r, g, b) == r;
      assert HueOf(r, g, b) == ((b - r) / (g - r) + 2.0) / 6.0;
      SectorGreenRed(r, g, b, HueOf(r, g, b));
    } else {
      assert Min3(r, g, b) == b;
      assert HueOf(r, g, b) == ((b - r) / (g - b) + 2.0) / 6.0;
      NegQuotient(b - r, r - b, g - b);
      SectorGreenBlue(b, g, r, HueOf(r, g, b));
    }
  }

  /** Round trip for a colour whose blue channel is the largest and whose
      red and green channels are smaller. */
  lemma RoundTripBlueMax(r: real, g: real, b: real)
    requires InUnit(r) && InUnit(g) && InUnit(b)
    requires Min3(r, g, b) < Max3(r, g, b) && Max3(r, g, b) != r && Max3(r, g, b) != g
    ensures HslToUnit(UnitToHsl(r, g, b)) == Unit(r, g, b)
  {
    ChromaticBack(r, g, b);
    assert Max3(r, g, b) == b;
    if r >= g {
      assert Min3(r, g, b) == g;
      assert HueOf(r, g, b) == ((r - g) / (b - g) + 4.0) / 6.0;
      SectorBlueGreen(g, b, r, HueOf(r, g, b));
    } else {
      assert Min3(r, g, b) == r;
      assert HueOf(r, g, b) == ((r - g) / (b - r) + 4.0) / 6.0;
      NegQuotient(r - g, g - r, b - r);
      SectorBlueRed(r, b, g, HueOf(r, g, b));
    }
  }

  /** Converting three unit channels to HSL and back, before rounding,
      gives the same channels. */
  lemma UnitRoundTrip(r: real, g: real, b: real)
    requires InUnit(r) && InUnit(g) && InUnit(b)
    ensures HslToUnit(UnitToHsl(r, g, b)) == Unit(r, g, b)
  {
    var mx := Max3(r, g, b);
    if mx == Min3(r, g, b) {
    } else if mx == r {
      RoundTripRedMax(r, g, b);
    } else if mx == g {
      RoundTripGreenMax(r, g, b);
    } else {
      RoundTripBlueMax(r, g, b);
    }
  }

  /** `hslToRgb(...rgbToHsl(r, g, b))` gives back every byte triple. */
  lemma RoundTrip(r: int, g: int, b: int)
    requires IsByte(r) && IsByte(g) && IsByte(b)
    ensures HslToRgb(RgbToHsl(r, g, b)) == Rgb(r, g, b)
  {
    var u := Unit(r as real / 255.0, g as real / 255.0, b as real / 255.0);
    UnitRoundTrip(u.r, u.g, u.b);
    assert u.r * 255.0 == r as real;
    assert u.g * 255.0 == g as real;
    assert u.b * 255.0 == b as real;
    MathRoundOfInt(r);
    MathRoundOfInt(g);
    MathRoundOfInt(b);
  }
}
