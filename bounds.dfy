/** Input bounding: `bound01`, `boundAlpha`, `clamp01`, `convertToPercentage`
    and the two string tests they rely on. */
module Bounds {
  import opened JsValues

  /** `isOnePointZero`: a text containing a `.` whose value is exactly 1,
      which `bound01` reads as 100%. */
  predicate IsOnePointZero(n: Field)
  {
    n.Text? && n.dot && n.value == 1.0
  }

  /** `isPercentage`: a text containing `%`. */
  predicate IsPercentage(n: Field)
  {
    n.Text? && n.percent
  }

  /** The floating-point slack with which `bound01` snaps a value to its
      maximum. */
  const Epsilon: real := 0.000001

  /** `bound01` exactly as written: a percentage is clamped against `max`
      (not against 100) before it is scaled, so percentages between 100 and
      `max` wrap around through the final remainder. */
  function Bound01AsWritten(n: Field, max: real): (r: real)
    requires max > 0.0
    ensures 0.0 <= r <= 1.0
  {
    var n' := if IsOnePointZero(n) then Text(100.0, false, true) else n;
    var v := Clamp(ParseFloat(n'), 0.0, max);
    var w := if IsPercentage(n') then PercentOfMax(v, max) else v;
    TailBounds(w, max);
    Tail(w, max)
  }

  /** Where no percentage above 100 (nor above `max`) is involved, `bound01`
      as written and the clamped reading agree. */
  lemma Bound01Agrees(n: Field, max: real)
    requires max > 0.0
    requires IsOnePointZero(n) ==> 100.0 <= max
    requires !IsOnePointZero(n) && IsPercentage(n) ==> ParseFloat(n) <= 100.0 && ParseFloat(n) <= max
    ensures Bound01AsWritten(n, max) == Bound01(n, max)
  {
    hide Unit, Tail, PercentOfMax, Rem;
    var n' := if IsOnePointZero(n) then Text(100.0, false, true) else n;
    var p := ParseFloat(n');
    var v := Clamp(p, 0.0, max);
    if IsPercentage(n') {
      assert v == Clamp(p, 0.0, 100.0);
      PercentScaled(v, max);
      var w := PercentOfMax(v, max);
      assert Bound01(n, max) == BoundPercent(p, max);
      assert BoundPercent(p, max) == Unit(w, max);
      assert Bound01AsWritten(n, max) == Tail(w, max);
      UnitIsTail(w, max);
    } else {
      assert Bound01(n, max) == Unit(v, max);
      assert Bound01AsWritten(n, max) == Tail(v, max);
      UnitIsTail(v, max);
    }
  }

  /** `parseInt(n * max, 10) / 100`: percentage `v` of `max`, whole
      hundredths kept. */
  function PercentOfMax(v: real, max: real): real
  {
    Trunc(v * max) as real / 100.0
  }

  /** The last step of `bound01` as written. */
  function Tail(w: real, max: real): real
    requires 0.0 <= w && max > 0.0
  {
    if Abs(w - max) < Epsilon then 1.0 else Rem(w, max) / max
  }

  lemma TailBounds(w: real, max: real)
    requires 0.0 <= w && max > 0.0
    ensures 0.0 <= Tail(w, max) <= 1.0
  {
    RemSign(w, max);
    DivUnit(Rem(w, max), max);
  }

  lemma UnitIsTail(w: real, max: real)
    requires 0.0 <= w <= max && max > 0.0
    ensures Unit(w, max) == Tail(w, max)
  {
  }

  /** `bound01` with the clamp the code evidently intends: a percentage is
      clamped into [0,100] and a plain number into [0,max]; the result is the
      value as a fraction of `max`. The rest of the model uses this one. */
  function Bound01(n: Field, max: real): (r: real)
    requires max > 0.0
    ensures 0.0 <= r <= 1.0
    ensures IsOnePointZero(n) && IsInteger(max) ==> r == 1.0
    ensures !IsOnePointZero(n) && !IsPercentage(n) ==>
      var x := ParseFloat(n);
      && (x <= 0.0 && Epsilon <= max ==> r == 0.0)
      && (max - Epsilon < x ==> r == 1.0)
      && (0.0 <= x <= max - Epsilon ==> r == x / max)
    ensures !IsOnePointZero(n) && IsPercentage(n) ==>
      var p := ParseFloat(n);
      && (p <= 0.0 && Epsilon <= max ==> r == 0.0)
      && (100.0 <= p && IsInteger(max) ==> r == 1.0)
      && (0.0 <= p <= 100.0 ==> WithinHundredth(r, p, max))
  {
    if IsOnePointZero(n) then BoundPercent(100.0, max)
    else if IsPercentage(n) then
      var p := n.value;
      BoundPercent(p, max)
    else
      var x := ParseFloat(n);
      BoundNumber(x, max)
  }

  /** `r` of `max` is within a hundredth of `p` percent of `max`. */
  predicate WithinHundredth(r: real, p: real, max: real)
  {
    Abs(r * max - p * max / 100.0) < 0.01
  }

  /** `bound01` on a percentage `p` (the text `"1.0"` counts as 100). */
  function BoundPercent(p: real, max: real): (r: real)
    requires max > 0.0
    ensures 0.0 <= r <= 1.0
    ensures p <= 0.0 && Epsilon <= max ==> r == 0.0
    ensures 100.0 <= p && IsInteger(max) ==> r == 1.0
    ensures 0.0 <= p <= 100.0 ==> WithinHundredth(r, p, max)
  {
    var v := Clamp(p, 0.0, 100.0);
    PercentScaled(v, max);
    PercentUnit(v, max);
    Unit(PercentOfMax(v, max), max)
  }

  /** `bound01` on a plain number `x`. */
  function BoundNumber(x: real, max: real): (r: real)
    requires max > 0.0
    ensures 0.0 <= r <= 1.0
    ensures x <= 0.0 && Epsilon <= max ==> r == 0.0
    ensures max - Epsilon < x ==> r == 1.0
    ensures 0.0 <= x <= max - Epsilon ==> r == x / max
  {
    Unit(Clamp(x, 0.0, max), max)
  }

  /** The last step of `bound01`: a value in [0,max] as a fraction of `max`,
      snapped to 1 within `Epsilon` of `max`. */
  function Unit(w: real, max: real): (r: real)
    requires 0.0 <= w <= max
    ensures 0.0 <= r <= 1.0
    ensures max - Epsilon < w ==> r == 1.0
    ensures w <= max - Epsilon ==> r == w / max && r * max == w
  {
    if Abs(w - max) < Epsilon then 1.0
    else
      RemBelow(w, max);
      DivUnit(w, max);
      Rem(w, max) / max
  }

  lemma PercentUnit(v: real, max: real)
    requires 0.0 <= v <= 100.0 && max > 0.0
    ensures var r := Unit(PercentOfMax(v, max), max);
      && (v == 0.0 && Epsilon <= max ==> r == 0.0)
      && (v == 100.0 && IsInteger(max) ==> r == 1.0)
      && WithinHundredth(r, v, max)
  {
    PercentScaled(v, max);
    var w := PercentOfMax(v, max);
    if max - Epsilon < w {
      assert max - v * max / 100.0 < Epsilon;
    }
  }

  /** Scaling a clamped percentage to `max`: within a hundredth below the
      exact value, never above `max`. */
  lemma PercentScaled(v: real, max: real)
    requires 0.0 <= v <= 100.0 && max > 0.0
    ensures var w := PercentOfMax(v, max);
      && 0.0 <= w <= max
      && v * max / 100.0 - 0.01 < w <= v * max / 100.0
      && (v == 100.0 && IsInteger(max) ==> w == max)
      && (v == 0.0 ==> w == 0.0)
  {
    var t := Trunc(v * max) as real;
    assert 0.0 <= v * max <= 100.0 * max;
    assert t <= v * max < t + 1.0;
    if v == 100.0 && IsInteger(max) {
      var k := max.Floor;
      assert v * max == (100 * k) as real;
      assert Trunc(v * max) == 100 * k;
    }
  }

  lemma DivUnit(w: real, max: real)
    requires 0.0 <= w <= max && max > 0.0
    ensures 0.0 <= w / max <= 1.0
    ensures w < max ==> w / max < 1.0
  {
  }

  /** `boundAlpha`; the argument is `parseFloat(a)`, with `None` for NaN.
      Anything that is not a number in [0,1] becomes 1 (fully opaque). */
  function BoundAlpha(a: Option<real>): (r: real)
    ensures 0.0 <= r <= 1.0
    ensures a.Some? && 0.0 <= a.value <= 1.0 ==> r == a.value
    ensures a.None? || a.value < 0.0 || 1.0 < a.value ==> r == 1.0
  {
    if a.None? || a.value < 0.0 || a.value > 1.0 then 1.0 else a.value
  }

  /** `clamp01`. */
  function Clamp01(val: real): (r: real)
    ensures 0.0 <= r <= 1.0
    ensures 0.0 <= val <= 1.0 ==> r == val
    ensures val < 0.0 ==> r == 0.0
    ensures 1.0 < val ==> r == 1.0
  {
    Clamp(val, 0.0, 1.0)
  }

  /** `convertToPercentage`: a value that compares `<= 1` is rewritten as the
      text of its hundredfold followed by `%`; anything else (a larger number,
      or a text that is not a number as a whole, such as `"50%"`) is kept. */
  function ConvertToPercentage(n: Field): (r: Field)
    ensures ToNumber(n).Some? && ToNumber(n).value <= 1.0 ==>
      IsPercentage(r) && ParseFloat(r) == 100.0 * ToNumber(n).value && ToNumber(r).None?
    ensures ToNumber(n).None? || 1.0 < ToNumber(n).value ==> r == n
  {
    match ToNumber(n)
    case Some(x) => if x <= 1.0 then NumText(x * 100.0, true) else n
    case None => n
  }

  /** Rewriting a field as a percentage twice is the same as once: the text it
      writes is no longer a number as a whole. */
  lemma ConvertToPercentageIdempotent(n: Field)
    ensures ConvertToPercentage(ConvertToPercentage(n)) == ConvertToPercentage(n)
  {
  }

  /** A unit fraction written as a percentage text and bounded against 100
      comes back within 1e-4: `bound01` keeps only hundredths of a percent. */
  lemma {:induction false} FractionThroughPercent(x: real)
    requires 0.0 <= x <= 1.0
    ensures Abs(Bound01(ConvertToPercentage(Num(x)), 100.0) - x) < 0.0001
  {
    var f := ConvertToPercentage(Num(x));
    assert IsPercentage(f) && ParseFloat(f) == 100.0 * x;
    assert !IsOnePointZero(f);
    assert WithinHundredth(Bound01(f, 100.0), 100.0 * x, 100.0);
  }

  /** The discrepancy in `bound01` as written: `rgb(200%, 0, 0)` gives a red
      channel of 0, where the clamped reading gives full red. */
  lemma Bound01PercentWraps()
    ensures Bound01AsWritten(Text(200.0, false, true), 255.0) == 0.0
    ensures Bound01AsWritten(Text(150.0, false, true), 255.0) == 0.5
    ensures Bound01(Text(200.0, false, true), 255.0) == 1.0
  {
    assert Trunc(200.0 * 255.0) == 51000;
    assert Trunc(510.0 / 255.0) == 2;
    assert Trunc(150.0 * 255.0) == 38250;
    assert Trunc(382.5 / 255.0) == 1;
  }
}
