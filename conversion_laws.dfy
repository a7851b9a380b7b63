/** Round trips between the colour spaces, on unit values: converting a
    colour to HSL or HSV and back gives the same colour. */
module ConversionLaws {
  import opened JsValues
  import opened Conversions

  lemma DivCancel(a: real, e: real)
    requires e != 0.0
    ensures e * (a / e) == a
  {
  }

  /** The `q` and `p` that `hslToRgb` derives from a colour's lightness and
      saturation are its largest and smallest channels again. */
  lemma {:induction false} HslRecoversExtremes(mx: real, mn: real)
    requires 0.0 <= mn < mx <= 1.0
    ensures var l := (mx + mn) / 2.0; var q := HslQ(l, HslSaturation(mx, mn));
      q == mx && 2.0 * l - q == mn
  {
    var s := HslSaturation(mx, mn);
    var d := mx - mn;
    var l := (mx + mn) / 2.0;
    if l > 0.5 {
      var e := 2.0 - mx - mn;
      assert s == d / e;
      DivCancel(d, e);
      assert HslQ(l, s) == l + s * (1.0 - l);
      assert s * (1.0 - l) == (e * (d / e)) / 2.0;
    } else {
      var e := mx + mn;
      assert s == d / e;
      DivCancel(d, e);
      if l < 0.5 {
        assert HslQ(l, s) == l + l * s;
        assert l * s == (e * (d / e)) / 2.0;
      } else {
        assert e == 1.0;
        assert s == d;
      }
    }
  }

  lemma ProfileRise(p: real, q: real, u: real)
    requires 0.0 <= u <= 1.0 / 6.0
    ensures Profile(p, q, u) == p + (q - p) * (6.0 * u)
  {
  }

  lemma ProfileFall(p: real, q: real, u: real)
    requires 1.0 / 2.0 <= u <= 2.0 / 3.0
    ensures Profile(p, q, u) == p + (q - p) * ((2.0 / 3.0 - u) * 6.0)
  {
  }

  /** Converting a colour with unit channels to HSL and back gives the same
      colour. */
  lemma {:induction false} HslRoundTrip(c: Rgb)
    requires UnitRgb(c)
    ensures RgbOfHsl(HslOf(c)) == c
  {
    var mx := MaxOf(c);
    var mn := MinOf(c);
    if mx != mn {
      var x := HslOf(c);
      HslRecoversExtremes(mx, mn);
      var q := HslQ(x.l, x.s);
      var p := 2.0 * x.l - q;
      assert RgbOfHsl(x) == Rgb(HueToChannel(p, q, x.h + 1.0 / 3.0), HueToChannel(p, q, x.h), HueToChannel(p, q, x.h - 1.0 / 3.0));
      HslChannels(c, p, q, x.h);
    }
  }

  /** The three `hue2rgb` calls recover the channels of a colour that is not
      grey from its hue and its extreme channels. */
  lemma HslChannels(c: Rgb, p: real, q: real, h: real)
    requires UnitRgb(c) && MaxOf(c) != MinOf(c)
    requires q == MaxOf(c) && p == MinOf(c) && h == Sextant(c) / 6.0
    ensures HueToChannel(p, q, h + 1.0 / 3.0) == c.r
    ensures HueToChannel(p, q, h) == c.g
    ensures HueToChannel(p, q, h - 1.0 / 3.0) == c.b
  {
    var d := q - p;
    if q == c.r {
      var a := (c.g - c.b) / d;
      DivCancel(c.g - c.b, d);
      QuotientBound(c.g - c.b, d);
      if c.g < c.b {
        HslRedMaxGreenLow(c, p, q, a, h);
      } else {
        HslRedMaxBlueLow(c, p, q, a, h);
      }
    } else if q == c.g {
      HslChannelsGreenMax(c, p, q, h);
    } else {
      HslChannelsBlueMax(c, p, q, h);
    }
  }

  lemma HslChannelsGreenMax(c: Rgb, p: real, q: real, h: real)
    requires UnitRgb(c) && MaxOf(c) != MinOf(c) && MaxOf(c) != c.r
    requires q == MaxOf(c) && q == c.g && p == MinOf(c) && h == Sextant(c) / 6.0
    ensures HueToChannel(p, q, h + 1.0 / 3.0) == c.r
    ensures HueToChannel(p, q, h) == c.g
    ensures HueToChannel(p, q, h - 1.0 / 3.0) == c.b
  {
    var d := q - p;
    var a := (c.b - c.r) / d;
    DivCancel(c.b - c.r, d);
    QuotientBound(c.b - c.r, d);
    if c.b < c.r {
      HslGreenMaxBlueLow(c, p, q, a, h);
    } else {
      HslGreenMaxRedLow(c, p, q, a, h);
    }
  }

  lemma HslChannelsBlueMax(c: Rgb, p: real, q: real, h: real)
    requires UnitRgb(c) && MaxOf(c) != MinOf(c) && MaxOf(c) != c.r && MaxOf(c) != c.g
    requires q == MaxOf(c) && p == MinOf(c) && h == Sextant(c) / 6.0
    ensures HueToChannel(p, q, h + 1.0 / 3.0) == c.r
    ensures HueToChannel(p, q, h) == c.g
    ensures HueToChannel(p, q, h - 1.0 / 3.0) == c.b
  {
    var d := q - p;
    var a := (c.r - c.g) / d;
    DivCancel(c.r - c.g, d);
    QuotientBound(c.r - c.g, d);
    if c.r < c.g {
      HslBlueMaxRedLow(c, p, q, a, h);
    } else {
      HslBlueMaxGreenLow(c, p, q, a, h);
    }
  }

  lemma HslRedMaxBlueLow(c: Rgb, p: real, q: real, a: real, h: real)
    requires q == c.r && p == c.b && q - p > 0.0 && p <= c.g <= q
    requires (q - p) * a == c.g - c.b && 0.0 <= a <= 1.0 && h == a / 6.0
    ensures HueToChannel(p, q, h + 1.0 / 3.0) == c.r
    ensures HueToChannel(p, q, h) == c.g
    ensures HueToChannel(p, q, h - 1.0 / 3.0) == c.b
  {
    ProfileRise(p, q, h);
  }

  lemma HslRedMaxGreenLow(c: Rgb, p: real, q: real, a: real, h: real)
    requires q == c.r && p == c.g && q - p > 0.0 && p <= c.b <= q
    requires (q - p) * a == c.g - c.b && -1.0 <= a < 0.0 && h == (a + 6.0) / 6.0
    ensures HueToChannel(p, q, h + 1.0 / 3.0) == c.r
    ensures HueToChannel(p, q, h) == c.g
    ensures HueToChannel(p, q, h - 1.0 / 3.0) == c.b
  {
    ProfileFall(p, q, h - 1.0 / 3.0);
  }

  lemma HslGreenMaxBlueLow(c: Rgb, p: real, q: real, a: real, h: real)
    requires q == c.g && p == c.b && q - p > 0.0 && p <= c.r <= q
    requires (q - p) * a == c.b - c.r && -1.0 <= a < 0.0 && h == (a + 2.0) / 6.0
    ensures HueToChannel(p, q, h + 1.0 / 3.0) == c.r
    ensures HueToChannel(p, q, h) == c.g
    ensures HueToChannel(p, q, h - 1.0 / 3.0) == c.b
  {
    ProfileFall(p, q, h + 1.0 / 3.0);
  }

  lemma HslGreenMaxRedLow(c: Rgb, p: real, q: real, a: real, h: real)
    requires q == c.g && p == c.r && q - p > 0.0 && p <= c.b <= q
    requires (q - p) * a == c.b - c.r && 0.0 <= a <= 1.0 && h == (a + 2.0) / 6.0
    ensures HueToChannel(p, q, h + 1.0 / 3.0) == c.r
    ensures HueToChannel(p, q, h) == c.g
    ensures HueToChannel(p, q, h - 1.0 / 3.0) == c.b
  {
    ProfileRise(p, q, h - 1.0 / 3.0);
  }

  lemma HslBlueMaxRedLow(c: Rgb, p: real, q: real, a: real, h: real)
    requires q == c.b && p == c.r && q - p > 0.0 && p <= c.g <= q
    requires (q - p) * a == c.r - c.g && -1.0 <= a < 0.0 && h == (a + 4.0) / 6.0
    ensures HueToChannel(p, q, h + 1.0 / 3.0) == c.r
    ensures HueToChannel(p, q, h) == c.g
    ensures HueToChannel(p, q, h - 1.0 / 3.0) == c.b
  {
    ProfileFall(p, q, h);
  }

  lemma HslBlueMaxGreenLow(c: Rgb, p: real, q: real, a: real, h: real)
    requires q == c.b && p == c.g && q - p > 0.0 && p <= c.r <= q
    requires (q - p) * a == c.r - c.g && 0.0 <= a <= 1.0 && h == (a + 4.0) / 6.0
    ensures HueToChannel(p, q, h + 1.0 / 3.0) == c.r
    ensures HueToChannel(p, q, h) == c.g
    ensures HueToChannel(p, q, h - 1.0 / 3.0) == c.b
  {
    if h + 1.0 / 3.0 > 1.0 {
      ProfileRise(p, q, h + 1.0 / 3.0 - 1.0);
    }
  }

  /** `p`, `q` and `t` of `hsvToRgb` in terms of the spread `d = v * s`. */
  lemma HsvTermsRecover(v: real, s: real, f: real, d: real)
    requires v * s == d
    ensures v * (1.0 - s) == v - d
    ensures v * (1.0 - f * s) == v - f * d
    ensures v * (1.0 - (1.0 - f) * s) == v - (1.0 - f) * d
  {
    assert v * (f * s) == f * (v * s);
    assert v * ((1.0 - f) * s) == (1.0 - f) * (v * s);
  }

  /** The sector table of `hsvToRgb` with `p`, `q`, `t` written in terms of
      the spread `d`, at wheel position `h6` (in sixths). */
  function SectorAt(h6: real, v: real, d: real): Rgb
  {
    var i := h6.Floor;
    var f := h6 - i as real;
    SectorPick(i % 6, v, v - d, v - f * d, v - (1.0 - f) * d)
  }

  lemma HsvSpread(x: Hsv, d: real)
    requires InUnit(x.h) && InUnit(x.s) && InUnit(x.v) && x.v * x.s == d
    ensures RgbOfHsv(x) == SectorAt(x.h * 6.0, x.v, d)
  {
    SectorAtSpread(x.h * 6.0, x.v, x.s, d);
    hide HsvSector, SectorAt;
  }

  lemma SectorAtSpread(h6: real, v: real, s: real, d: real)
    requires InUnit(v) && InUnit(s) && v * s == d
    ensures HsvSector(h6.Floor, h6 - h6.Floor as real, v, s) == SectorAt(h6, v, d)
  {
    hide HsvSector, SectorPick, SectorAt;
    SectorAtTerms(h6, v, d);
    SectorSpread(h6.Floor, h6 - h6.Floor as real, v, s, d);
  }

  lemma SectorSpread(i: int, f: real, v: real, s: real, d: real)
    requires InUnit(v) && InUnit(s) && 0.0 <= f < 1.0 && v * s == d
    ensures HsvSector(i, f, v, s) == SectorPick(i % 6, v, v - d, v - f * d, v - (1.0 - f) * d)
  {
    HsvTermsRecover(v, s, f, d);
    PickCongruent(i % 6, v, v * (1.0 - s), v * (1.0 - f * s), v * (1.0 - (1.0 - f) * s),
      v - d, v - f * d, v - (1.0 - f) * d);
  }

  lemma SectorAtTerms(h6: real, v: real, d: real)
    ensures var i := h6.Floor; var f := h6 - i as real;
      SectorAt(h6, v, d) == SectorPick(i % 6, v, v - d, v - f * d, v - (1.0 - f) * d)
  {
  }

  lemma PickCongruent(k: int, v: real, p: real, q: real, t: real, p': real, q': real, t': real)
    requires p == p' && q == q' && t == t'
    ensures SectorPick(k, v, p, q, t) == SectorPick(k, v, p', q', t')
  {
  }

  /** Converting a colour with unit channels to HSV and back gives the same
      colour. */
  lemma {:induction false} HsvRoundTrip(c: Rgb)
    requires UnitRgb(c)
    ensures RgbOfHsv(HsvOf(c)) == c
  {
    hide HsvOf, RgbOfHsv, HsvSaturation, Sextant, SectorAt;
    var mx := MaxOf(c);
    var mn := MinOf(c);
    var x := HsvOf(c);
    if mx == mn {
      HsvGrey(c);
    } else {
      HsvSpread(x, mx - mn);
      HsvChannels(c, mx, mn, x.h * 6.0);
    }
  }

  lemma HsvGrey(c: Rgb)
    requires UnitRgb(c) && MaxOf(c) == MinOf(c)
    ensures RgbOfHsv(HsvOf(c)) == c
  {
    assert HsvOf(c).s == 0.0;
  }

  lemma HsvChannels(c: Rgb, mx: real, mn: real, h6: real)
    requires UnitRgb(c) && mx == MaxOf(c) && mn == MinOf(c) && mx != mn
    requires h6 == Sextant(c)
    ensures SectorAt(h6, mx, mx - mn) == c
  {
    var d := mx - mn;
    if mx == c.r {
      var a := (c.g - c.b) / d;
      DivCancel(c.g - c.b, d);
      QuotientBound(c.g - c.b, d);
      if c.g < c.b {
        HsvSectorFive(c, mx, d, a);
      } else {
        HsvSectorZero(c, mx, d, a);
      }
    } else if mx == c.g {
      HsvChannelsGreenMax(c, mx, mn, h6);
    } else {
      HsvChannelsBlueMax(c, mx, mn, h6);
    }
  }

  lemma HsvChannelsGreenMax(c: Rgb, mx: real, mn: real, h6: real)
    requires UnitRgb(c) && mx == MaxOf(c) && mn == MinOf(c) && mx != mn
    requires mx != c.r && mx == c.g && h6 == Sextant(c)
    ensures SectorAt(h6, mx, mx - mn) == c
  {
    var d := mx - mn;
    var a := (c.b - c.r) / d;
    DivCancel(c.b - c.r, d);
    QuotientBound(c.b - c.r, d);
    if c.b < c.r {
      HsvSectorOne(c, mx, d, a);
    } else {
      HsvSectorTwo(c, mx, d, a);
    }
  }

  lemma HsvChannelsBlueMax(c: Rgb, mx: real, mn: real, h6: real)
    requires UnitRgb(c) && mx == MaxOf(c) && mn == MinOf(c) && mx != mn
    requires mx != c.r && mx != c.g && h6 == Sextant(c)
    ensures SectorAt(h6, mx, mx - mn) == c
  {
    var d := mx - mn;
    var a := (c.r - c.g) / d;
    DivCancel(c.r - c.g, d);
    QuotientBound(c.r - c.g, d);
    if c.r < c.g {
      HsvSectorThree(c, mx, d, a);
    } else {
      HsvSectorFour(c, mx, d, a);
    }
  }

  lemma HsvSectorZero(c: Rgb, v: real, d: real, a: real)
    requires v == c.r && d > 0.0 && c.b == v - d && c.b <= c.g <= v
    requires d * a == c.g - c.b && 0.0 <= a <= 1.0
    ensures SectorAt(a, v, d) == c
  {
    if a == 1.0 {
      assert c.g == v;
      assert a.Floor == 1;
    } else {
      assert a.Floor == 0;
    }
  }

  lemma HsvSectorFive(c: Rgb, v: real, d: real, a: real)
    requires v == c.r && d > 0.0 && c.g == v - d && c.g < c.b <= v
    requires d * a == c.g - c.b && -1.0 <= a < 0.0
    ensures SectorAt(a + 6.0, v, d) == c
  {
    assert (a + 6.0).Floor == 5;
    assert (a + 1.0) * d == d + d * a;
  }

  lemma HsvSectorTwo(c: Rgb, v: real, d: real, a: real)
    requires v == c.g && d > 0.0 && c.r == v - d && c.r <= c.b <= v
    requires d * a == c.b - c.r && 0.0 <= a <= 1.0
    ensures SectorAt(a + 2.0, v, d) == c
  {
    if a == 1.0 {
      assert c.b == v;
      assert (a + 2.0).Floor == 3;
    } else {
      assert (a + 2.0).Floor == 2;
      assert (1.0 - a) * d == d - d * a;
    }
  }

  lemma HsvSectorOne(c: Rgb, v: real, d: real, a: real)
    requires v == c.g && d > 0.0 && c.b == v - d && c.b < c.r <= v
    requires d * a == c.b - c.r && -1.0 <= a < 0.0
    ensures SectorAt(a + 2.0, v, d) == c
  {
    assert (a + 2.0).Floor == 1;
    assert (a + 1.0) * d == d + d * a;
  }

  lemma HsvSectorFour(c: Rgb, v: real, d: real, a: real)
    requires v == c.b && d > 0.0 && c.g == v - d && c.g <= c.r <= v
    requires d * a == c.r - c.g && 0.0 <= a <= 1.0
    ensures SectorAt(a + 4.0, v, d) == c
  {
    if a == 1.0 {
      assert c.r == v;
      assert (a + 4.0).Floor == 5;
    } else {
      assert (a + 4.0).Floor == 4;
      assert (1.0 - a) * d == d - d * a;
    }
  }

  lemma HsvSectorThree(c: Rgb, v: real, d: real, a: real)
    requires v == c.b && d > 0.0 && c.r == v - d && c.r < c.g <= v
    requires d * a == c.r - c.g && -1.0 <= a < 0.0
    ensures SectorAt(a + 4.0, v, d) == c
  {
    assert (a + 4.0).Floor == 3;
    assert (a + 1.0) * d == d + d * a;
  }
}
