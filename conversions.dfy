/** The colour-space conversions `rgbToRgb`, `rgbToHsl`, `hslToRgb`,
    `rgbToHsv` and `hsvToRgb`.

    Each conversion first brings its inputs into [0,1] with `bound01`, then
    works on unit values; the unit-level cores (`HslOf`, `RgbOfHsl`, `HsvOf`,
    `RgbOfHsv`) are separated out so that the round trips can be stated on
    them. */
module Conversions {
  import opened JsValues
  import opened Bounds

  datatype Rgb = Rgb(r: real, g: real, b: real)
  datatype Hsl = Hsl(h: real, s: real, l: real)
  datatype Hsv = Hsv(h: real, s: real, v: real)

  predicate InUnit(x: real)
  {
    0.0 <= x <= 1.0
  }

  predicate UnitRgb(c: Rgb)
  {
    InUnit(c.r) && InUnit(c.g) && InUnit(c.b)
  }

  /** Every channel in [0,255]. */
  predicate ByteRgb(c: Rgb)
  {
    0.0 <= c.r <= 255.0 && 0.0 <= c.g <= 255.0 && 0.0 <= c.b <= 255.0
  }

  function Scale255(c: Rgb): (d: Rgb)
    requires UnitRgb(c)
    ensures ByteRgb(d)
  {
    Rgb(c.r * 255.0, c.g * 255.0, c.b * 255.0)
  }

  /** `mathMax(r, g, b)`. */
  function MaxOf(c: Rgb): (m: real)
    ensures m == c.r || m == c.g || m == c.b
    ensures c.r <= m && c.g <= m && c.b <= m
  {
    Max(Max(c.r, c.g), c.b)
  }

  /** `mathMin(r, g, b)`. */
  function MinOf(c: Rgb): (m: real)
    ensures m == c.r || m == c.g || m == c.b
    ensures m <= c.r && m <= c.g && m <= c.b
  {
    Min(Min(c.r, c.g), c.b)
  }

  /** The hue, in sixths of the colour wheel, of a colour that is not grey;
      the `switch (max)` tests red, then green, then blue. */
  function Sextant(c: Rgb): (h6: real)
    requires MaxOf(c) != MinOf(c)
    ensures 0.0 <= h6 < 6.0
  {
    var mx := MaxOf(c);
    var d := mx - MinOf(c);
    SextantBounds(c);
    if mx == c.r then (c.g - c.b) / d + (if c.g < c.b then 6.0 else 0.0)
    else if mx == c.g then (c.b - c.r) / d + 2.0
    else (c.r - c.g) / d + 4.0
  }

  lemma SextantBounds(c: Rgb)
    requires MaxOf(c) != MinOf(c)
    ensures var mx := MaxOf(c); var d := mx - MinOf(c);
      && -1.0 <= (c.g - c.b) / d <= 1.0
      && (c.g < c.b ==> (c.g - c.b) / d < 0.0)
      && -1.0 <= (c.b - c.r) / d <= 1.0
      && -1.0 <= (c.r - c.g) / d <= 1.0
  {
    var mx := MaxOf(c);
    var d := mx - MinOf(c);
    QuotientBound(c.g - c.b, d);
    QuotientBound(c.b - c.r, d);
    QuotientBound(c.r - c.g, d);
  }

  lemma QuotientBound(a: real, d: real)
    requires d > 0.0 && -d <= a <= d
    ensures -1.0 <= a / d <= 1.0
    ensures a < 0.0 ==> a / d < 0.0
    ensures a >= 0.0 ==> a / d >= 0.0
  {
    var k := a / d;
    assert d * k == a;
    if k > 1.0 { MulMore(d, k); }
    if k < -1.0 { MulMore(d, -k); }
    if a >= 0.0 && k < 0.0 { MulMore(d, 1.0 - k); }
    if a < 0.0 && k >= 0.0 { MulMore(d, 1.0 + k); }
  }

  /** Scaling a positive number by more than one makes it larger. */
  lemma MulMore(d: real, k: real)
    requires d > 0.0 && k > 1.0
    ensures d * k > d
  {
    assert d * k - d == d * (k - 1.0);
  }

  /** The unit-level core of `rgbToHsl`. */
  function HslOf(c: Rgb): (x: Hsl)
    requires UnitRgb(c)
    ensures 0.0 <= x.h < 1.0 && InUnit(x.s) && InUnit(x.l)
    ensures x.l == (MaxOf(c) + MinOf(c)) / 2.0
    ensures x.s == 0.0 <==> MaxOf(c) == MinOf(c)
    ensures MaxOf(c) != MinOf(c) ==>
      x.s == HslSaturation(MaxOf(c), MinOf(c)) && x.h == Sextant(c) / 6.0
  {
    var mx := MaxOf(c);
    var mn := MinOf(c);
    var l := (mx + mn) / 2.0;
    if mx == mn then Hsl(0.0, 0.0, l)
    else Hsl(Sextant(c) / 6.0, HslSaturation(mx, mn), l)
  }

  /** The HSL saturation of a colour whose largest and smallest channels are
      `mx` and `mn`: the spread over the lightness's distance from an end. */
  function HslSaturation(mx: real, mn: real): (s: real)
    requires 0.0 <= mn < mx <= 1.0
    ensures 0.0 < s <= 1.0
  {
    var l := (mx + mn) / 2.0;
    var d := mx - mn;
    var e := if l > 0.5 then 2.0 - mx - mn else mx + mn;
    SaturationBound(d, e);
    d / e
  }

  lemma SaturationBound(d: real, e: real)
    requires 0.0 < d <= e
    ensures 0.0 < d / e <= 1.0
  {
  }

  /** `hue2rgb`, the piecewise-linear profile of one channel around the
      wheel. */
  function HueToChannel(p: real, q: real, t: real): (v: real)
    requires -1.0 <= t <= 2.0
    ensures Min(p, q) <= v <= Max(p, q)
  {
    var t1 := if t < 0.0 then t + 1.0 else t;
    var t2 := if t1 > 1.0 then t1 - 1.0 else t1;
    Profile(p, q, t2)
  }

  function Profile(p: real, q: real, t: real): (v: real)
    requires 0.0 <= t <= 1.0
    ensures Min(p, q) <= v <= Max(p, q)
  {
    if t < 1.0 / 6.0 then
      Between(p, q, 6.0 * t);
      p + (q - p) * (6.0 * t)
    else if t < 1.0 / 2.0 then q
    else if t < 2.0 / 3.0 then
      Between(p, q, (2.0 / 3.0 - t) * 6.0);
      p + (q - p) * ((2.0 / 3.0 - t) * 6.0)
    else p
  }

  /** A point `k` of the way from `p` to `q` lies between them. */
  lemma Between(p: real, q: real, k: real)
    requires 0.0 <= k <= 1.0
    ensures Min(p, q) <= p + (q - p) * k <= Max(p, q)
  {
    if p <= q {
      Rising(p, q, k);
    } else {
      Falling(p, q, k);
    }
  }

  lemma Rising(p: real, q: real, k: real)
    requires 0.0 <= k <= 1.0 && p <= q
    ensures Min(p, q) <= p + (q - p) * k <= Max(p, q)
  {
    NonNegProduct(q - p, k);
    NonNegProduct(q - p, 1.0 - k);
  }

  lemma Falling(p: real, q: real, k: real)
    requires 0.0 <= k <= 1.0 && q < p
    ensures Min(p, q) <= p + (q - p) * k <= Max(p, q)
  {
    NonPosProduct(q - p, k);
    NonPosProduct(q - p, 1.0 - k);
  }

  lemma NonNegProduct(m: real, f: real)
    requires 0.0 <= m && 0.0 <= f
    ensures 0.0 <= m * f
  {
  }

  lemma NonPosProduct(m: real, f: real)
    requires m <= 0.0 && 0.0 <= f
    ensures m * f <= 0.0
  {
  }

  /** The `q` of `hslToRgb`. */
  function HslQ(l: real, s: real): real
  {
    if l < 0.5 then l * (1.0 + s) else l + s - l * s
  }

  /** The unit-level core of `hslToRgb`. */
  function RgbOfHsl(x: Hsl): (c: Rgb)
    requires InUnit(x.h) && InUnit(x.s) && InUnit(x.l)
    ensures UnitRgb(c)
    ensures x.s == 0.0 ==> c == Rgb(x.l, x.l, x.l)
  {
    if x.s == 0.0 then Rgb(x.l, x.l, x.l)
    else
      var q := HslQ(x.l, x.s);
      var p := 2.0 * x.l - q;
      HslQBounds(x.l, x.s);
      Rgb(HueToChannel(p, q, x.h + 1.0 / 3.0), HueToChannel(p, q, x.h), HueToChannel(p, q, x.h - 1.0 / 3.0))
  }

  lemma HslQBounds(l: real, s: real)
    requires InUnit(l) && InUnit(s)
    ensures var q := HslQ(l, s); 0.0 <= 2.0 * l - q <= q <= 1.0
  {
    if l < 0.5 {
      MulBelow(s, l);
      assert HslQ(l, s) == l + s * l;
    } else {
      MulBelow(s, 1.0 - l);
      var q := HslQ(l, s);
      assert q == l + s * (1.0 - l);
      assert q <= l + (1.0 - l);
    }
  }

  /** The unit-level core of `rgbToHsv`. */
  function HsvOf(c: Rgb): (x: Hsv)
    requires UnitRgb(c)
    ensures 0.0 <= x.h < 1.0 && InUnit(x.s) && InUnit(x.v)
    ensures x.v == MaxOf(c)
    ensures x.s == 0.0 <==> MaxOf(c) == MinOf(c)
    ensures MaxOf(c) != MinOf(c) ==>
      x.s * MaxOf(c) == MaxOf(c) - MinOf(c) && x.h == Sextant(c) / 6.0
  {
    if MaxOf(c) == MinOf(c) then Hsv(0.0, HsvSaturation(MaxOf(c), MinOf(c)), MaxOf(c))
    else Hsv(Sextant(c) / 6.0, HsvSaturation(MaxOf(c), MinOf(c)), MaxOf(c))
  }

  /** The HSV saturation of a colour whose largest and smallest channels are
      `mx` and `mn`: the spread over the largest (0 for black). */
  function HsvSaturation(mx: real, mn: real): (s: real)
    requires 0.0 <= mn <= mx <= 1.0
    ensures InUnit(s)
    ensures s == 0.0 <==> mx == mn
    ensures mx != mn ==> s * mx == mx - mn
  {
    if mx == 0.0 then 0.0
    else
      assert mx != mn ==> 0.0 < (mx - mn) / mx <= 1.0 by {
        if mx != mn { SaturationBound(mx - mn, mx); }
      }
      (mx - mn) / mx
  }

  /** The unit-level core of `hsvToRgb`: the sector `i % 6` of the wheel
      picks which of `v`, `p`, `q`, `t` each channel takes. */
  function RgbOfHsv(x: Hsv): (c: Rgb)
    requires InUnit(x.h) && InUnit(x.s) && InUnit(x.v)
    ensures UnitRgb(c)
  {
    var h := x.h * 6.0;
    var i := h.Floor;
    HsvSector(i, h - i as real, x.v, x.s)
  }

  /** `hsvToRgb`'s `p`, `q`, `t` for sector `i` and fraction `f`. */
  function HsvSector(i: int, f: real, v: real, s: real): (c: Rgb)
    requires InUnit(v) && InUnit(s) && 0.0 <= f < 1.0
    ensures UnitRgb(c)
  {
    HsvTerms(v, s, f);
    SectorPick(i % 6, v, v * (1.0 - s), v * (1.0 - f * s), v * (1.0 - (1.0 - f) * s))
  }

  /** The three lookup tables of `hsvToRgb`, indexed by sector. */
  function SectorPick(k: int, v: real, p: real, q: real, t: real): Rgb
  {
    match k
    case 0 => Rgb(v, t, p)
    case 1 => Rgb(q, v, p)
    case 2 => Rgb(p, v, t)
    case 3 => Rgb(p, q, v)
    case 4 => Rgb(t, p, v)
    case _ => Rgb(v, p, q)
  }

  lemma HsvTerms(v: real, s: real, f: real)
    requires InUnit(v) && InUnit(s) && 0.0 <= f < 1.0
    ensures InUnit(v * (1.0 - s))
    ensures InUnit(v * (1.0 - f * s))
    ensures InUnit(v * (1.0 - (1.0 - f) * s))
  {
    UnitProduct(f, s);
    UnitProduct(1.0 - f, s);
    UnitProduct(v, 1.0 - s);
    UnitProduct(v, 1.0 - f * s);
    UnitProduct(v, 1.0 - (1.0 - f) * s);
  }

  lemma UnitProduct(a: real, b: real)
    requires InUnit(a) && InUnit(b)
    ensures InUnit(a * b)
  {
    MulBelow(a, b);
  }

  lemma MulBelow(k: real, x: real)
    requires 0.0 <= k <= 1.0 && 0.0 <= x
    ensures 0.0 <= k * x <= x
    ensures x * k == k * x
  {
    assert x - k * x == (1.0 - k) * x;
  }

  // ---------------------------------------------------------------------
  // The conversions on record fields, as the engine calls them.

  /** A value `rgbToRgb` passes through unchanged: a number, or a text
      with neither `.` nor `%`, in [0,255] and not within `Epsilon` below 255
      (those snap to 255). */
  predicate KeptByte(f: Field)
  {
    && (f.Num? || (!f.dot && !f.percent))
    && (0.0 <= ParseFloat(f) <= 255.0 - Epsilon || ParseFloat(f) == 255.0)
  }

  /** `rgbToRgb`: each channel bounded to [0,255]. */
  function RgbToRgb(r: Field, g: Field, b: Field): (c: Rgb)
    ensures ByteRgb(c)
    ensures KeptByte(r) ==> c.r == ParseFloat(r)
    ensures KeptByte(g) ==> c.g == ParseFloat(g)
    ensures KeptByte(b) ==> c.b == ParseFloat(b)
  {
    Scale255(Rgb(Bound01(r, 255.0), Bound01(g, 255.0), Bound01(b, 255.0)))
  }

  /** `rgbToHsl`; the result's `h` is a fraction of the wheel. */
  function RgbToHsl(r: Field, g: Field, b: Field): (x: Hsl)
    ensures 0.0 <= x.h < 1.0 && InUnit(x.s) && InUnit(x.l)
  {
    HslOf(Rgb(Bound01(r, 255.0), Bound01(g, 255.0), Bound01(b, 255.0)))
  }

  /** `hslToRgb`: `h` against 360, `s` and `l` against 100. */
  function HslToRgb(h: Field, s: Field, l: Field): (c: Rgb)
    ensures ByteRgb(c)
  {
    Scale255(RgbOfHsl(Hsl(Bound01(h, 360.0), Bound01(s, 100.0), Bound01(l, 100.0))))
  }

  /** `rgbToHsv`; the result's `h` is a fraction of the wheel. */
  function RgbToHsv(r: Field, g: Field, b: Field): (x: Hsv)
    ensures 0.0 <= x.h < 1.0 && InUnit(x.s) && InUnit(x.v)
  {
    HsvOf(Rgb(Bound01(r, 255.0), Bound01(g, 255.0), Bound01(b, 255.0)))
  }

  /** `hsvToRgb`: `h` against 360, `s` and `v` against 100. */
  function HsvToRgb(h: Field, s: Field, v: Field): (c: Rgb)
    ensures ByteRgb(c)
  {
    Scale255(RgbOfHsv(Hsv(Bound01(h, 360.0), Bound01(s, 100.0), Bound01(v, 100.0))))
  }
}
