/** JavaScript values as the colour engine sees them.

    Numbers are modelled as mathematical reals; the few JavaScript numeric
    operators whose meaning differs from Dafny's are written out here:
    `Math.round`, truncation toward zero, and the truncating `%` on numbers.
    Colour records hold either numbers or numeric strings (the captures of the
    colour-string matchers, or the `"50%"` texts written by
    `convertToPercentage`); a numeric string is represented by exactly what the
    engine looks at: its `parseFloat` value, whether it contains a `.` and
    whether it carries a `%` suffix. */
module JsValues {

  datatype Option<+T> = None | Some(value: T)

  datatype Result<+T> = Success(value: T) | Failure(error: string)

  /** A colour-record field: a JS number, or a numeric string. */
  datatype Field =
    | Num(x: real)
    | Text(value: real, dot: bool, percent: bool)

  /** `parseFloat(n)`: the number itself, or the numeric prefix of the text. */
  function ParseFloat(n: Field): real
  {
    match n
    case Num(x) => x
    case Text(v, _, _) => v
  }

  /** `Number(n)` as used by a comparison like `n <= 1`; `None` is NaN
      (a text with a `%` suffix is not a number as a whole). */
  function ToNumber(n: Field): Option<real>
  {
    match n
    case Num(x) => Some(x)
    case Text(v, _, pct) => if pct then None else Some(v)
  }

  predicate IsInteger(x: real)
  {
    x.Floor as real == x
  }

  /** The text `String(x)` (followed by `"%"` when `percent`), as the colour
      matchers read it back: the number itself, with a `.` exactly when the
      number is not an integer. */
  function NumText(x: real, percent: bool): (f: Field)
    ensures ParseFloat(f) == x
    ensures f.Text? && f.percent == percent && f.dot == !IsInteger(x)
  {
    Text(x, !IsInteger(x), percent)
  }

  /** `Math.round`: halves round toward positive infinity. */
  function Round(x: real): (n: int)
    ensures x - 0.5 < n as real <= x + 0.5
  {
    (x + 0.5).Floor
  }

  /** Conversion of a number to an integer by dropping its fraction
      (what `parseInt` of a number, and `ToInt32` on small numbers, do). */
  function Trunc(x: real): (n: int)
    ensures 0.0 <= x ==> n as real <= x < n as real + 1.0
    ensures x < 0.0 ==> n as real - 1.0 < x <= n as real
  {
    if x >= 0.0 then x.Floor else -((-x).Floor)
  }

  /** The JavaScript remainder `x % m` on numbers: the sign follows the
      dividend. */
  function Rem(x: real, m: real): real
    requires m > 0.0
  {
    x - m * Trunc(x / m) as real
  }

  /** The remainder is the value less a whole number of divisors. */
  lemma RemDef(x: real, m: real)
    requires m > 0.0
    ensures Rem(x, m) == x - m * Trunc(x / m) as real
  {
  }

  /** What `x % m` means: the remainder has the sign of the dividend, is
      smaller than the divisor in size, and differs from the dividend by a
      whole number of divisors. */
  lemma RemSign(x: real, m: real)
    requires m > 0.0
    ensures 0.0 <= x ==> 0.0 <= Rem(x, m) < m
    ensures x < 0.0 ==> -m < Rem(x, m) <= 0.0
    ensures IsInteger((x - Rem(x, m)) / m)
  {
    var n := Trunc(x / m);
    assert Rem(x, m) == x - m * n as real;
    QuotientSign(x, m);
    hide Rem, Trunc;
    RemParts(x, m, n as real, Rem(x, m));
    assert IsInteger(n as real);
  }

  /** The remainder `r` = x - m*t left by a truncated quotient `t`. */
  lemma RemParts(x: real, m: real, t: real, r: real)
    requires m > 0.0 && r == x - m * t
    requires 0.0 <= x ==> t <= x / m < t + 1.0
    requires x < 0.0 ==> t - 1.0 < x / m <= t
    ensures 0.0 <= x ==> 0.0 <= r < m
    ensures x < 0.0 ==> -m < r <= 0.0
    ensures (x - r) / m == t
  {
    if 0.0 <= x {
      RemUp(x, m, t, r);
    } else {
      RemDown(x, m, t, r);
    }
    assert x - r == m * t;
    assert (m * t) / m == t;
  }

  lemma RemUp(x: real, m: real, t: real, r: real)
    requires m > 0.0 && r == x - m * t && t <= x / m < t + 1.0
    ensures 0.0 <= r < m
  {
    DivSub(x, m, t);
    DivBounds(r, m);
  }

  lemma RemDown(x: real, m: real, t: real, r: real)
    requires m > 0.0 && r == x - m * t && t - 1.0 < x / m <= t
    ensures -m < r <= 0.0
  {
    DivSub(x, m, t);
    DivBounds(r, m);
  }

  lemma DivSub(x: real, m: real, t: real)
    requires m > 0.0
    ensures (x - m * t) / m == x / m - t
  {
  }

  /** A quotient by a positive `m` in (-1, 1) means a dividend smaller than
      `m` in size, of the quotient's sign. */
  lemma DivBounds(r: real, m: real)
    requires m > 0.0
    ensures 0.0 <= r / m < 1.0 ==> 0.0 <= r < m
    ensures -1.0 < r / m <= 0.0 ==> -m < r <= 0.0
  {
    if r < 0.0 {
      DivMono(r, 0.0, m);
      assert 0.0 / m == 0.0;
    } else {
      DivMono(0.0, r, m);
    }
    if r >= m {
      DivMono(m, r, m);
      assert m / m == 1.0;
    }
    if r <= -m {
      DivMono(r, -m, m);
      assert (-m) / m == -1.0;
    }
  }

  /** Dividing by a positive `m` keeps the order. */
  lemma DivMono(a: real, b: real, m: real)
    requires m > 0.0 && a <= b
    ensures a / m <= b / m
  {
  }

  lemma QuotientSign(x: real, m: real)
    requires m > 0.0
    ensures 0.0 <= x ==> 0.0 <= x / m
    ensures x < 0.0 ==> x / m < 0.0
  {
  }

  /** Below the divisor, the remainder is the value itself. */
  lemma RemBelow(w: real, m: real)
    requires 0.0 <= w < m
    ensures Rem(w, m) == w
  {
    QuotientBelow(w, m);
    assert Trunc(w / m) == 0;
  }

  /** Between one and two divisors, the remainder takes one divisor off. */
  lemma RemOnce(w: real, m: real)
    requires 0.0 < m <= w < 2.0 * m
    ensures Rem(w, m) == w - m
  {
    QuotientBelow(w - m, m);
    DivShift(w, m);
    assert Trunc(w / m) == 1;
  }

  /** Between two and three divisors, the remainder drops two of them. */
  lemma RemTwice(w: real, m: real)
    requires 0.0 < m && 2.0 * m <= w < 3.0 * m
    ensures Rem(w, m) == w - 2.0 * m
  {
    DivShift(w, m);
    DivShift(w - m, m);
    QuotientBelow(w - 2.0 * m, m);
    assert Trunc(w / m) == 2;
  }

  lemma DivShift(w: real, m: real)
    requires m > 0.0
    ensures w / m == (w - m) / m + 1.0
  {
    var a := w / m;
    var b := (w - m) / m;
    assert m * a == w;
    assert m * b == w - m;
    ZeroFactor(m, a - b - 1.0);
  }

  lemma ZeroFactor(m: real, z: real)
    requires m > 0.0 && m * z == 0.0
    ensures z == 0.0
  {
  }

  lemma QuotientBelow(w: real, m: real)
    requires 0.0 <= w < m
    ensures 0.0 <= w / m < 1.0
  {
  }

  function Min(a: real, b: real): real
  {
    if a <= b then a else b
  }

  function Max(a: real, b: real): real
  {
    if a >= b then a else b
  }

  function Abs(x: real): real
  {
    if x < 0.0 then -x else x
  }

  /** `Math.min(hi, Math.max(x, lo))`. */
  function Clamp(x: real, lo: real, hi: real): (r: real)
    requires lo <= hi
    ensures lo <= r <= hi
    ensures lo <= x <= hi ==> r == x
  {
    Min(hi, Max(x, lo))
  }

  /** JavaScript truthiness of an optional string (`undefined`, `false` and
      `""` are falsy). */
  predicate Truthy(s: Option<string>)
  {
    s.Some? && s.value != ""
  }
}
