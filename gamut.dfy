// Fitting an LCh colour into the sRGB gamut: `isGoodRgb`, which accepts
// channels a little outside [0,255] and clamps them in place, and
// `lch2rgb`, which bisects the chroma until the colour fits.

module Gamut {
  import opened JsValues
  import opened Conversions
  import opened Cie

  /** `isGoodRgb`'s window: no channel above 258 or below -1 (the slack
      absorbs rounding errors of yellows and blues). */
  predicate Acceptable(rgb: Rgb)
  {
    && -1.0 <= rgb.r <= 258.0
    && -1.0 <= rgb.g <= 258.0
    && -1.0 <= rgb.b <= 258.0
  }

  predicate InBytes(rgb: Rgb)
  {
    0.0 <= rgb.r <= 255.0 && 0.0 <= rgb.g <= 255.0 && 0.0 <= rgb.b <= 255.0
  }

  /** `Math.max(0, Math.min(255, x))` on every channel. */
  function Clamped(rgb: Rgb): (c: Rgb)
    ensures InBytes(c)
    ensures InBytes(rgb) ==> c == rgb
  {
    Rgb(Max(0.0, Min(255.0, rgb.r)), Max(0.0, Min(255.0, rgb.g)), Max(0.0, Min(255.0, rgb.b)))
  }

  /** Clamping moves an acceptable channel by at most 3. */
  lemma ClampedNear(rgb: Rgb)
    requires Acceptable(rgb)
    ensures Abs(Clamped(rgb).r - rgb.r) <= 3.0
    ensures Abs(Clamped(rgb).g - rgb.g) <= 3.0
    ensures Abs(Clamped(rgb).b - rgb.b) <= 3.0
  {
  }

  /** The rgb object `isGoodRgb` inspects and, when it is good, clamps. */
  class RgbBox {
    var r: real
    var g: real
    var b: real

    constructor (rgb: Rgb)
      ensures Value() == rgb
    {
      r, g, b := rgb.r, rgb.g, rgb.b;
    }

    function Value(): Rgb
      reads this
    {
      Rgb(r, g, b)
    }

    /** `isGoodRgb(this)`. */
    method IsGoodRgb() returns (good: bool)
      modifies this
      ensures good == Acceptable(old(Value()))
      ensures Value() == if good then Clamped(old(Value())) else old(Value())
    {
      if r > 258.0 || g > 258.0 || b > 258.0 || r < -1.0 || g < -1.0 || b < -1.0 {
        return false;
      }
      r := Min(255.0, r);
      g := Min(255.0, g);
      b := Min(255.0, b);
      r := Max(0.0, r);
      g := Max(0.0, g);
      b := Max(0.0, b);
      return true;
    }

    /** The closing clamp of `lch2rgb`: `Math.max(0, .)` first, then
        `Math.min(255, .)`. */
    method ClampToBytes()
      modifies this
      ensures Value() == Clamped(old(Value()))
    {
      r := Max(0.0, r);
      g := Max(0.0, g);
      b := Max(0.0, b);
      r := Min(255.0, r);
      g := Min(255.0, g);
      b := Min(255.0, b);
    }
  }

  // ---------------------------------------------------------------------
  // lch2rgb

  /** The colour `lch2rgb` gets for the LCh colour with chroma `c`. */
  function Probe(m: Maths, lch: Lch, c: real): Rgb
  {
    LchToRgb(m, lch.(c := c))
  }

  /** Where the chroma search stops: the last good and bad chroma, the
      number of probes and the rgb of the last probe (clamped if it was good). */
  datatype Search = Search(good: real, bad: real, loops: nat, last: Rgb)

  /** The `do ... while` of `lch2rgb` from the state (good, bad, loops):
      probe the midpoint, move the bound it belongs to, and go on while
      the bounds are more than 0.9 apart and fewer than 100 probes ran. */
  function Bisect(m: Maths, lch: Lch, good: real, bad: real, loops: nat): (s: Search)
    requires loops < 100
    ensures loops < s.loops <= 100
    decreases 100 - loops
  {
    var c := good + (bad - good) / 2.0;
    var probe := Probe(m, lch, c);
    var ok := Acceptable(probe);
    var good' := if ok then c else good;
    var bad' := if ok then bad else c;
    if Abs(bad' - good') > 0.9 && loops + 1 < 100 then Bisect(m, lch, good', bad', loops + 1)
    else Search(good', bad', loops + 1, if ok then Clamped(probe) else probe)
  }

  /** One step of the search, unrolled. */
  lemma BisectStep(m: Maths, lch: Lch, good: real, bad: real, loops: nat)
    requires loops < 100
    ensures var c := good + (bad - good) / 2.0;
            var probe := Probe(m, lch, c);
            var ok := Acceptable(probe);
            var good' := if ok then c else good;
            var bad' := if ok then bad else c;
            Bisect(m, lch, good, bad, loops) ==
              if Abs(bad' - good') > 0.9 && loops + 1 < 100 then Bisect(m, lch, good', bad', loops + 1)
              else Search(good', bad', loops + 1, if ok then Clamped(probe) else probe)
  {
  }

  function Pow2(n: nat): (p: real)
    ensures p >= 1.0
  {
    if n == 0 then 1.0 else 2.0 * Pow2(n - 1)
  }

  /** Every probe halves the distance between the bounds. */
  lemma {:induction false} BisectHalves(m: Maths, lch: Lch, good: real, bad: real, loops: nat)
    requires loops < 100
    decreases 100 - loops
    ensures var s := Bisect(m, lch, good, bad, loops);
            Abs(s.bad - s.good) * Pow2(s.loops - loops) == Abs(bad - good)
  {
    hide Bisect, Probe, LchToRgb, Acceptable, Abs, Pow2;
    BisectStep(m, lch, good, bad, loops);
    var c := good + (bad - good) / 2.0;
    var ok := Acceptable(Probe(m, lch, c));
    var good' := if ok then c else good;
    var bad' := if ok then bad else c;
    HalvedGap(good, bad, ok);
    var s := Bisect(m, lch, good, bad, loops);
    if Abs(bad' - good') > 0.9 && loops + 1 < 100 {
      assert s == Bisect(m, lch, good', bad', loops + 1);
      BisectHalves(m, lch, good', bad', loops + 1);
      Pow2Step(s.loops - loops);
      Regroup(Abs(s.bad - s.good), Pow2(s.loops - (loops + 1)), Pow2(s.loops - loops),
              Abs(bad' - good'), Abs(bad - good));
    } else {
      assert s.loops == loops + 1 && s.good == good' && s.bad == bad';
      Pow2One();
    }
  }

  /** Moving either bound to the midpoint halves the gap. */
  lemma HalvedGap(good: real, bad: real, ok: bool)
    ensures var c := good + (bad - good) / 2.0;
            Abs((if ok then bad else c) - (if ok then c else good)) * 2.0 == Abs(bad - good)
  {
  }

  lemma Pow2Step(n: nat)
    requires n >= 1
    ensures Pow2(n) == 2.0 * Pow2(n - 1)
  {
  }

  lemma Pow2One()
    ensures Pow2(1) == 2.0
  {
  }

  lemma Regroup(d: real, p: real, q: real, e: real, e0: real)
    requires d * p == e && q == 2.0 * p && e * 2.0 == e0
    ensures d * q == e0
  {
  }

  /** The search ends with the bounds at most 0.9 apart, or after 100
      probes. */
  lemma {:induction false} BisectStops(m: Maths, lch: Lch, good: real, bad: real, loops: nat)
    requires loops < 100
    decreases 100 - loops
    ensures var s := Bisect(m, lch, good, bad, loops);
            s.loops == 100 || Abs(s.bad - s.good) <= 0.9
  {
    hide Bisect, Probe, LchToRgb;
    BisectStep(m, lch, good, bad, loops);
    var c := good + (bad - good) / 2.0;
    var ok := Acceptable(Probe(m, lch, c));
    var good' := if ok then c else good;
    var bad' := if ok then bad else c;
    if Abs(bad' - good') > 0.9 && loops + 1 < 100 {
      BisectStops(m, lch, good', bad', loops + 1);
    }
  }

  /** The bounds keep their meaning: the good chroma is the starting one
      or a probe that passed `isGoodRgb`, the bad chroma the starting one
      or a probe that failed it. */
  lemma {:induction false} BisectBrackets(m: Maths, lch: Lch, good: real, bad: real, loops: nat)
    requires loops < 100
    decreases 100 - loops
    ensures var s := Bisect(m, lch, good, bad, loops);
            && (s.good == good || Acceptable(Probe(m, lch, s.good)))
            && (s.bad == bad || !Acceptable(Probe(m, lch, s.bad)))
  {
    hide Bisect, Probe, LchToRgb;
    BisectStep(m, lch, good, bad, loops);
    var c := good + (bad - good) / 2.0;
    var ok := Acceptable(Probe(m, lch, c));
    var good' := if ok then c else good;
    var bad' := if ok then bad else c;
    if Abs(bad' - good') > 0.9 && loops + 1 < 100 {
      BisectBrackets(m, lch, good', bad', loops + 1);
    }
  }

  /** What `lch2rgb` returns: the channels, the `a` property (absent when
      `None`) and `isok`. */
  datatype Fitted = Fitted(rgb: Rgb, alpha: Option<real>, isok: bool)

  /** The alpha of a colour that had to be fitted: scaled by the opacity
      for invalid colours when that is below 1 (set to it when absent). */
  function FadedAlpha(alpha: Option<real>, opacity: real): Option<real>
  {
    if opacity < 1.0 then
      match alpha
      case None => Some(opacity)
      case Some(a) => Some(a * opacity)
    else alpha
  }

  /** `lch2rgb(lch, invalidcolorsopacity)` as a value. */
  function Fit(m: Maths, lch: Lch, opacity: real): (f: Fitted)
    ensures InBytes(f.rgb)
    ensures f.isok == Acceptable(LchToRgb(m, lch))
    ensures f.alpha != lch.alpha ==> !f.isok && opacity < 1.0
    ensures f.isok ==> f.rgb == Clamped(LchToRgb(m, lch))
  {
    var direct := LchToRgb(m, lch);
    if Acceptable(direct) then Fitted(Clamped(direct), lch.alpha, true)
    else
      var s := Bisect(m, lch, -1.0, lch.c, 0);
      Fitted(Clamped(s.last), FadedAlpha(lch.alpha, opacity), false)
  }

  /** The chroma `lch2rgb` settles on, with its probe count: at most 100
      probes, and the bounds end at most 0.9 apart unless all 100 ran. */
  lemma FitSearch(m: Maths, lch: Lch)
    ensures var s := Bisect(m, lch, -1.0, lch.c, 0);
            && 1 <= s.loops <= 100
            && (s.loops == 100 || Abs(s.bad - s.good) <= 0.9)
            && Abs(s.bad - s.good) * Pow2(s.loops) == Abs(lch.c + 1.0)
  {
    hide Bisect, Probe, LchToRgb, Abs, Pow2;
    BisectStops(m, lch, -1.0, lch.c, 0);
    BisectHalves(m, lch, -1.0, lch.c, 0);
    var s := Bisect(m, lch, -1.0, lch.c, 0);
    assert s.loops - 0 == s.loops && lch.c - -1.0 == lch.c + 1.0;
  }

  lemma FitCases(m: Maths, lch: Lch, opacity: real)
    ensures Probe(m, lch, lch.c) == LchToRgb(m, lch)
    ensures Fit(m, lch, opacity) ==
              if Acceptable(LchToRgb(m, lch)) then Fitted(Clamped(LchToRgb(m, lch)), lch.alpha, true)
              else Fitted(Clamped(Bisect(m, lch, -1.0, lch.c, 0).last), FadedAlpha(lch.alpha, opacity), false)
  {
    assert lch.(c := lch.c) == lch;
  }

  /** One probe as `lch2rgb` makes it: `XYZ2rgb` on a fresh XYZ object. */
  method ProbeBox(m: Maths, lch: Lch, c: real) returns (box: RgbBox)
    ensures fresh(box) && box.Value() == Probe(m, lch, c)
  {
    var xyz := new XyzBox(LabToXyz(m, LchToLab(m, lch.(c := c))));
    var rgb := xyz.ToRgb(m);
    box := new RgbBox(rgb);
  }

  /** `lch2rgb(lch, invalidcolorsopacity)`. */
  method LchToRgbFitted(m: Maths, lch: Lch, opacity: real) returns (f: Fitted)
    ensures f == Fit(m, lch, opacity)
  {
    hide Bisect, Probe, LchToRgb, Fit;
    var box := ProbeBox(m, lch, lch.c);
    FitCases(m, lch, opacity);
    var good := box.IsGoodRgb();
    if good {
      return Fitted(box.Value(), lch.alpha, true);
    }
    ghost var whole := Bisect(m, lch, -1.0, lch.c, 0);
    var lastbad := lch.c;
    var lastgood := -1.0;
    var loops := 0;
    var going := true;
    while going
      invariant 0 <= loops <= 100
      invariant fresh(box)
      invariant going ==> loops < 100 && Bisect(m, lch, lastgood, lastbad, loops) == whole
      invariant !going ==> Search(lastgood, lastbad, loops, box.Value()) == whole
      decreases 100 - loops
    {
      BisectStep(m, lch, lastgood, lastbad, loops);
      loops := loops + 1;
      var c := lastgood + (lastbad - lastgood) / 2.0;
      box := ProbeBox(m, lch, c);
      var ok := box.IsGoodRgb();
      if ok {
        lastgood := c;
      } else {
        lastbad := c;
      }
      going := Abs(lastbad - lastgood) > 0.9 && loops < 100;
    }
    box.ClampToBytes();
    f := Fitted(box.Value(), FadedAlpha(lch.alpha, opacity), false);
  }
}
