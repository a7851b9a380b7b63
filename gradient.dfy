// The picker's gradient helpers: `modifyColor`, `csscolor` and
// `getScaledGradientStops`, which samples a colour along one of its
// properties to draw a slider's background.

module Gradient {
  import opened JsValues
  import opened Conversions
  import opened Cie
  import opened Gamut

  /** A colour object of the picker: named numeric properties (`r`, `g`,
      `b`, `h`, `s`, `l`, `c`, `a`, ...). */
  type Props = map<string, real>

  /** `modifyColor(color, property, value)`: a copy with one property set;
      a property the colour lacks throws. */
  function ModifyColor(color: Props, property: string, value: real): (r: Result<Props>)
    ensures r.Success? <==> property in color
    ensures r.Failure? ==> r.error == "Missing color property: " + property
    ensures r.Success? ==> r.value.Keys == color.Keys && r.value[property] == value
    ensures r.Success? ==> forall k :: k in color && k != property ==> r.value[k] == color[k]
  {
    if property !in color then Failure("Missing color property: " + property)
    else Success(color[property := value])
  }

  /** Setting a property back to its old value gives the colour back. */
  lemma ModifyUndone(color: Props, property: string, value: real)
    requires property in color
    ensures ModifyColor(ModifyColor(color, property, value).value, property, color[property]) == Success(color)
  {
    var once := ModifyColor(color, property, value).value;
    assert once[property := color[property]] == color;
  }

  /** Setting the same property twice keeps the second value only. */
  lemma ModifyLastWins(color: Props, property: string, v: real, w: real)
    requires property in color
    ensures ModifyColor(ModifyColor(color, property, v).value, property, w) == ModifyColor(color, property, w)
  {
    assert color[property := v][property := w] == color[property := w];
  }

  // ---------------------------------------------------------------------
  // csscolor

  /** The CSS text `csscolor` builds, by its parts: `false`,
      `hsla(h,s%,l%,a)` (saturation and lightness already times 100; no
      alpha prints `undefined`), `rgba(r,g,b,a)` or `rgb(r,g,b)`. */
  datatype Css =
    | NoColour
    | HslaText(h: real, s: real, l: real, alpha: Option<real>)
    | RgbaText(r: int, g: int, b: int, a: real)
    | RgbText(r: int, g: int, b: int)

  /** The properties the `h` and `r` branches of `csscolor` read. */
  predicate Paintable(p: Props)
  {
    && ("h" in p ==> "s" in p && "l" in p)
    && ("r" in p ==> "g" in p && "b" in p)
  }

  /** The text branches of `csscolor`: an `h` property makes hsla text, an
      `r` property (checked last, so it wins) makes rgb text, rgba when
      the colour has an `a` below 1. */
  function Paint(p: Props): (css: Css)
    requires Paintable(p)
    ensures css.NoColour? <==> "r" !in p && "h" !in p
    ensures css.HslaText? <==> "r" !in p && "h" in p
    ensures css.RgbaText? <==> "r" in p && "a" in p && p["a"] < 1.0
  {
    var hsla := if "h" in p then HslaText(p["h"], p["s"] * 100.0, p["l"] * 100.0, if "a" in p then Some(p["a"]) else None)
                else NoColour;
    if "r" in p then
      if "a" in p && p["a"] < 1.0 then RgbaText(Round(p["r"]), Round(p["g"]), Round(p["b"]), p["a"])
      else RgbText(Round(p["r"]), Round(p["g"]), Round(p["b"]))
    else hsla
  }

  /** The LCh colour a colour object with `l`, `c` and `h` stands for. */
  function LchOf(p: Props): (lch: Lch)
    requires "l" in p && "c" in p && "h" in p
    ensures lch.alpha.Some? <==> "a" in p
  {
    Lch(p["l"], p["c"], p["h"], if "a" in p then Some(p["a"]) else None)
  }

  /** The rgb object `lch2rgb` returns, as properties (`isok` is not read
      by `csscolor` and is kept apart). */
  function FittedProps(f: Fitted): (p: Props)
    ensures p.Keys == {"r", "g", "b"} + (if f.alpha.Some? then {"a"} else {})
    ensures p["r"] == f.rgb.r && p["g"] == f.rgb.g && p["b"] == f.rgb.b
    ensures f.alpha.Some? ==> p["a"] == f.alpha.value
    ensures CssReady(p) && "c" !in p && "h" !in p
  {
    var rgb := map["r" := f.rgb.r, "g" := f.rgb.g, "b" := f.rgb.b];
    match f.alpha
    case None => rgb
    case Some(a) => rgb["a" := a]
  }

  /** What `csscolor` reads: an LCh colour needs `l` and `h` besides `c`. */
  predicate CssReady(p: Props)
  {
    if "c" in p then "l" in p && "h" in p else Paintable(p)
  }

  /** `csscolor(color, invalidcolorsopacity)`: a colour with a `c`
      property is first fitted into sRGB by `lch2rgb`. */
  function CssColor(m: Maths, color: Props, opacity: real): (css: Css)
    requires CssReady(color)
    ensures "c" in color ==> css.RgbText? || css.RgbaText?
    ensures "c" in color ==> 0 <= css.r <= 255 && 0 <= css.g <= 255 && 0 <= css.b <= 255
  {
    var tmp := if "c" in color then FittedProps(Fit(m, LchOf(color), opacity)) else color;
    Paint(tmp)
  }

  /** An LCh colour that is out of gamut, drawn with an opacity below 1
      for invalid colours, comes out as rgba text with its alpha faded. */
  lemma CssFadesInvalid(m: Maths, color: Props, opacity: real)
    requires "c" in color && "l" in color && "h" in color
    requires 0.0 <= opacity < 1.0
    requires "a" in color ==> 0.0 <= color["a"] <= 1.0
    requires !Acceptable(LchToRgb(m, LchOf(color)))
    ensures CssColor(m, color, opacity).RgbaText?
    ensures CssColor(m, color, opacity).a == if "a" in color then color["a"] * opacity else opacity
  {
    hide Fit, Bisect, LchToRgb;
    var f := Fit(m, LchOf(color), opacity);
    FitCases(m, LchOf(color), opacity);
    var faded := if "a" in color then color["a"] * opacity else opacity;
    assert f.alpha == FadedAlpha(LchOf(color).alpha, opacity);
    assert f.alpha.Some? && f.alpha.value == faded;
    if "a" in color {
      FadedBelowOne(color["a"], opacity);
    }
    var p := FittedProps(f);
    assert "a" in p && p["a"] == faded < 1.0;
    assert CssColor(m, color, opacity) == Paint(p);
  }

  lemma FadedBelowOne(a: real, opacity: real)
    requires 0.0 <= a <= 1.0 && 0.0 <= opacity < 1.0
    ensures a * opacity < 1.0
  {
    assert a * opacity <= opacity;
  }

  /** An opaque rgb colour is written as `rgb(...)` with its rounded
      channels. */
  lemma CssOpaqueRgb(m: Maths, color: Props, opacity: real)
    requires "c" !in color && "r" in color && "g" in color && "b" in color
    requires "h" in color ==> "s" in color && "l" in color
    requires "a" !in color || color["a"] >= 1.0
    ensures CssColor(m, color, opacity) == RgbText(Round(color["r"]), Round(color["g"]), Round(color["b"]))
  {
  }

  // ---------------------------------------------------------------------
  // getScaledGradientStops

  /** One entry of the array `getScaledGradientStops` returns. */
  datatype Stop = Stop(color: Css, position: real, isok: bool, rawcolor: Props)

  /** An optional argument with its default (`typeof x === "undefined"`). */
  function Given(x: Option<real>, default: real): (v: real)
    ensures x.None? ==> v == default
    ensures x.Some? ==> v == x.value
  {
    match x
    case None => default
    case Some(v) => v
  }

  /** `i / (steps - 1)`: how far along the slider stop `i` is. */
  function Stage(i: nat, steps: int): real
    requires steps >= 2
  {
    i as real / (steps - 1) as real
  }

  /** A stop's position, rounded to hundredths. */
  function Position(stage: real, minposition: real, maxposition: real): real
  {
    Round(Unrounded(stage, minposition, maxposition) * 100.0) as real / 100.0
  }

  /** A stop's position before rounding. */
  function Unrounded(stage: real, minposition: real, maxposition: real): real
  {
    stage * (maxposition - minposition) + minposition
  }

  /** The value of the scaled property at stop `i`. */
  function ScaledValue(i: nat, steps: int, minvalue: real, maxvalue: real): real
    requires steps >= 2
  {
    Stage(i, steps) * (maxvalue - minvalue) + minvalue
  }

  /** What an LCh colour needs for `lch2rgb` when invalid colours are faded. */
  predicate LchReady(p: Props)
  {
    "l" in p && "c" in p && "h" in p
  }

  /** The text and the `isok` flag of one stop: with an opacity below 1
      for invalid colours the modified colour goes through `lch2rgb`
      first, otherwise straight to `csscolor`. */
  function Painted(m: Maths, modified: Props, opacity: real): (painted: (Css, bool))
    requires CssReady(modified) && (opacity < 1.0 ==> LchReady(modified))
    ensures opacity >= 1.0 ==> painted.1
    ensures opacity < 1.0 ==> painted.1 == Acceptable(LchToRgb(m, LchOf(modified)))
  {
    if opacity < 1.0 then
      var fitted := Fit(m, LchOf(modified), opacity);
      (CssColor(m, FittedProps(fitted), opacity), fitted.isok)
    else
      (CssColor(m, modified, opacity), true)
  }

  lemma PaintedCases(m: Maths, modified: Props, opacity: real)
    requires CssReady(modified) && (opacity < 1.0 ==> LchReady(modified))
    ensures Painted(m, modified, opacity) ==
              if opacity < 1.0 then
                (CssColor(m, FittedProps(Fit(m, LchOf(modified), opacity)), opacity), Fit(m, LchOf(modified), opacity).isok)
              else (CssColor(m, modified, opacity), true)
  {
    hide Fit, CssColor;
  }

  /** Stop `i` as `getScaledGradientStops` builds it. */
  function StopAt(m: Maths, color: Props, property: string, minvalue: real, maxvalue: real,
                  steps: int, opacity: real, minposition: real, maxposition: real, i: nat): (s: Stop)
    requires property in color && CssReady(color) && (opacity < 1.0 ==> LchReady(color))
    requires steps >= 2 && i < steps
    ensures s.rawcolor.Keys == color.Keys
    ensures s.rawcolor[property] == ScaledValue(i, steps, minvalue, maxvalue)
    ensures forall k :: k in color && k != property ==> s.rawcolor[k] == color[k]
  {
    var modified := color[property := ScaledValue(i, steps, minvalue, maxvalue)];
    var painted := Painted(m, modified, opacity);
    Stop(painted.0, Position(Stage(i, steps), minposition, maxposition), painted.1, modified)
  }

  lemma StopAtIs(m: Maths, color: Props, property: string, minvalue: real, maxvalue: real,
                 steps: int, opacity: real, minposition: real, maxposition: real, i: nat)
    requires property in color && CssReady(color) && (opacity < 1.0 ==> LchReady(color))
    requires steps >= 2 && i < steps
    ensures var modified := color[property := ScaledValue(i, steps, minvalue, maxvalue)];
            StopAt(m, color, property, minvalue, maxvalue, steps, opacity, minposition, maxposition, i)
            == Stop(Painted(m, modified, opacity).0, Position(Stage(i, steps), minposition, maxposition),
                    Painted(m, modified, opacity).1, modified)
  {
    hide Painted, Position;
  }

  /** `getScaledGradientStops(color, scalableproperty, minvalue, maxvalue,
      steps, invalidcolorsopacity, minposition, maxposition)`; the throw of
      `modifyColor` is the `Failure` result. */
  method GetScaledGradientStops(m: Maths, color: Props, property: string, minvalue: real, maxvalue: real,
                                steps: int, invalidcolorsopacity: Option<real>,
                                minposition: Option<real>, maxposition: Option<real>)
    returns (r: Result<seq<Stop>>)
    requires steps != 1
    requires CssReady(color) && (Given(invalidcolorsopacity, 1.0) < 1.0 ==> LchReady(color))
    ensures steps <= 0 ==> r == Success([])
    ensures steps > 0 && property !in color ==> r == Failure("Missing color property: " + property)
    ensures steps > 0 && property in color ==>
              && r.Success? && |r.value| == steps
              && forall i :: 0 <= i < steps ==>
                   r.value[i] == StopAt(m, color, property, minvalue, maxvalue, steps,
                                        Given(invalidcolorsopacity, 1.0), Given(minposition, 0.0),
                                        Given(maxposition, 100.0), i)
  {
    hide Fit, CssColor, Round, StopAt, Painted;
    var opacity := Given(invalidcolorsopacity, 1.0);
    var lo := Given(minposition, 0.0);
    var hi := Given(maxposition, 100.0);
    var stops: seq<Stop> := [];
    var diff := maxvalue - minvalue;
    var i := 0;
    while i < steps
      invariant 0 <= i && (steps > 0 ==> i <= steps)
      invariant i > 0 ==> property in color && steps >= 2
      invariant |stops| == i
      invariant forall k :: 0 <= k < i ==>
                  stops[k] == StopAt(m, color, property, minvalue, maxvalue, steps, opacity, lo, hi, k)
    {
      var stage := i as real / (steps - 1) as real;
      assert stage == Stage(i, steps);
      var value := stage * diff + minvalue;
      var modified := ModifyColor(color, property, value);
      if modified.Failure? {
        return Failure(modified.error);
      }
      assert value == ScaledValue(i, steps, minvalue, maxvalue);
      assert modified.value == color[property := ScaledValue(i, steps, minvalue, maxvalue)];
      var stop := PaintStop(m, modified.value, opacity, stage, lo, hi);
      StopAtIs(m, color, property, minvalue, maxvalue, steps, opacity, lo, hi, i);
      stops := stops + [stop];
      i := i + 1;
    }
    return Success(stops);
  }

  /** The body of the sampling loop once the colour is modified: the
      colour text (through `lch2rgb` when invalid colours are faded), the
      `isok` flag and the rounded position of the stop. */
  method PaintStop(m: Maths, modified: Props, opacity: real, stage: real, lo: real, hi: real)
    returns (stop: Stop)
    requires CssReady(modified) && (opacity < 1.0 ==> LchReady(modified))
    ensures stop == Stop(Painted(m, modified, opacity).0, Position(stage, lo, hi),
                         Painted(m, modified, opacity).1, modified)
    ensures opacity >= 1.0 ==> stop.isok
  {
    hide Fit, CssColor, Round;
    var isok := true;
    var css;
    if opacity < 1.0 {
      var stagergb := LchToRgbFitted(m, LchOf(modified), opacity);
      isok := stagergb.isok;
      css := CssColor(m, FittedProps(stagergb), opacity);
    } else {
      css := CssColor(m, modified, opacity);
    }
    PaintedCases(m, modified, opacity);
    var position := Position(stage, lo, hi);
    stop := Stop(css, position, isok, modified);
  }

  // ---------------------------------------------------------------------
  // Properties of the stops

  /** The stops sweep the property from `minvalue` at the first stop to
      `maxvalue` at the last, and leave every other property alone. */
  lemma StopsSweep(m: Maths, color: Props, property: string, minvalue: real, maxvalue: real,
                   steps: int, opacity: real, minposition: real, maxposition: real)
    requires property in color && CssReady(color) && (opacity < 1.0 ==> LchReady(color))
    requires steps >= 2
    ensures StopAt(m, color, property, minvalue, maxvalue, steps, opacity, minposition, maxposition, 0).rawcolor
            == color[property := minvalue]
    ensures StopAt(m, color, property, minvalue, maxvalue, steps, opacity, minposition, maxposition, steps - 1).rawcolor
            == color[property := maxvalue]
  {
    hide Fit, CssColor, Painted, Position;
    StopAtIs(m, color, property, minvalue, maxvalue, steps, opacity, minposition, maxposition, 0);
    StopAtIs(m, color, property, minvalue, maxvalue, steps, opacity, minposition, maxposition, steps - 1);
    ScaledEnds(steps, minvalue, maxvalue);
  }

  /** The scaled value is `minvalue` at the first stop and `maxvalue` at the last. */
  lemma ScaledEnds(steps: int, minvalue: real, maxvalue: real)
    requires steps >= 2
    ensures ScaledValue(0, steps, minvalue, maxvalue) == minvalue
    ensures ScaledValue(steps - 1, steps, minvalue, maxvalue) == maxvalue
  {
    assert Stage(0, steps) == 0.0;
    assert Stage(steps - 1, steps) == 1.0;
  }

  /** The first stop sits at `minposition` and the last at `maxposition`
      (both rounded to hundredths). */
  lemma StopsSpan(m: Maths, color: Props, property: string, minvalue: real, maxvalue: real,
                  steps: int, opacity: real, minposition: real, maxposition: real)
    requires property in color && CssReady(color) && (opacity < 1.0 ==> LchReady(color))
    requires steps >= 2
    ensures StopAt(m, color, property, minvalue, maxvalue, steps, opacity, minposition, maxposition, 0).position
            == Round(minposition * 100.0) as real / 100.0
    ensures StopAt(m, color, property, minvalue, maxvalue, steps, opacity, minposition, maxposition, steps - 1).position
            == Round(maxposition * 100.0) as real / 100.0
  {
    hide Fit, CssColor, Painted, Position;
    StopAtIs(m, color, property, minvalue, maxvalue, steps, opacity, minposition, maxposition, 0);
    StopAtIs(m, color, property, minvalue, maxvalue, steps, opacity, minposition, maxposition, steps - 1);
    PositionEnds(steps, minposition, maxposition);
  }

  /** Stage 0 is placed at `minposition` and the last stage at
      `maxposition`, rounded to hundredths. */
  lemma PositionEnds(steps: int, minposition: real, maxposition: real)
    requires steps >= 2
    ensures Position(Stage(0, steps), minposition, maxposition) == Round(minposition * 100.0) as real / 100.0
    ensures Position(Stage(steps - 1, steps), minposition, maxposition) == Round(maxposition * 100.0) as real / 100.0
  {
    assert Stage(0, steps) == 0.0;
    assert Stage(steps - 1, steps) == 1.0;
    assert Unrounded(0.0, minposition, maxposition) == minposition;
    assert Unrounded(1.0, minposition, maxposition) == maxposition;
    hide Round, Unrounded;
  }

  /** Positions never go backwards along the slider when
      `minposition <= maxposition`. */
  lemma StopsInOrder(m: Maths, color: Props, property: string, minvalue: real, maxvalue: real,
                     steps: int, opacity: real, minposition: real, maxposition: real, i: nat, j: nat)
    requires property in color && CssReady(color) && (opacity < 1.0 ==> LchReady(color))
    requires steps >= 2 && i <= j < steps && minposition <= maxposition
    ensures StopAt(m, color, property, minvalue, maxvalue, steps, opacity, minposition, maxposition, i).position
            <= StopAt(m, color, property, minvalue, maxvalue, steps, opacity, minposition, maxposition, j).position
  {
    hide Fit, CssColor, Round, Painted, StopAt, Position;
    StopAtIs(m, color, property, minvalue, maxvalue, steps, opacity, minposition, maxposition, i);
    StopAtIs(m, color, property, minvalue, maxvalue, steps, opacity, minposition, maxposition, j);
    StageGrows(i, j, (steps - 1) as real);
    PositionGrows(Stage(i, steps), Stage(j, steps), minposition, maxposition);
  }

  lemma PositionGrows(s: real, t: real, minposition: real, maxposition: real)
    requires s <= t && minposition <= maxposition
    ensures Position(s, minposition, maxposition) <= Position(t, minposition, maxposition)
  {
    ScaleGrows(s, t, maxposition - minposition);
    assert Unrounded(s, minposition, maxposition) <= Unrounded(t, minposition, maxposition);
    hide Unrounded;
    RoundGrows(Unrounded(s, minposition, maxposition) * 100.0, Unrounded(t, minposition, maxposition) * 100.0);
  }

  lemma StageGrows(i: nat, j: nat, n: real)
    requires i <= j && n > 0.0
    ensures i as real / n <= j as real / n
  {
    var d := (j - i) as real / n;
    assert d >= 0.0;
    assert j as real / n == i as real / n + d;
  }

  lemma ScaleGrows(x: real, y: real, k: real)
    requires x <= y && k >= 0.0
    ensures x * k <= y * k
  {
    assert (y - x) * k >= 0.0;
  }

  lemma RoundGrows(x: real, y: real)
    requires x <= y
    ensures Round(x) <= Round(y)
  {
  }
}
