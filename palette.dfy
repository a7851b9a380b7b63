/** The modification and combination helpers: `desaturate`, `saturate`,
    `greyscale`, `lighten`, `darken` and `complement` move one HSL property
    of a colour; `triad`, `tetrad`, `splitcomplement`, `analogous` and
    `monochromatic` build a palette around it. */
module Palette {
  import opened JsValues
  import opened Bounds
  import opened Conversions
  import opened Parser
  import opened TinyColor

  /** What `tinycolor` accepts: a colour object passed in keeps its
      invariant. */
  predicate Usable(x: Input)
  {
    x.Tiny? ==> WellFormed(x.color)
  }

  /** The colour `tinycolor(record)` makes: the record's channels through
      the constructor (see `FromRecordIsMake`). */
  function FromRecord(rec: Record): (c: Color)
    ensures WellFormed(c)
  {
    FromParsed(RecordToRgb(rec), None)
  }

  /** `FromRecord` is `tinycolor` of the record. */
  lemma FromRecordIsMake(rec: Record)
    ensures FromRecord(rec) == Make(Arg(ObjArg(rec)), None)
  {
    assert InputToRgb(ObjArg(rec)) == RecordToRgb(rec);
  }

  /** `toHsl` of the colour `tinycolor(color)` makes. */
  function HslRecord(x: Input): (rec: Record)
    requires Usable(x)
    ensures rec.fields.Keys == {"h", "s", "l", "a"} && rec.format.None?
    ensures rec.fields["h"].Num? && rec.fields["s"].Num? && rec.fields["l"].Num?
    ensures 0.0 <= ParseFloat(rec.fields["h"]) < 360.0
    ensures InUnit(ParseFloat(rec.fields["s"])) && InUnit(ParseFloat(rec.fields["l"]))
    ensures rec.fields["a"] == Num(Make(x, None).a)
  {
    ToHsl(Make(x, None))
  }

  // ---------------------------------------------------------------------
  // Modification

  /** `(amount === 0) ? 0 : (amount || 10)`: a missing amount is 10, and an
      explicit 0 is kept. */
  function Amount(amount: Option<real>): (k: real)
    ensures amount.None? ==> k == 10.0
    ensures amount == Some(0.0) ==> k == 0.0
    ensures amount.Some? ==> k == amount.value
  {
    if amount.None? then 10.0 else amount.value
  }

  /** The record with the number under `key` moved by `delta` and put back
      through `clamp01`; every other property is kept. */
  function Nudged(rec: Record, key: string, delta: real): (r: Record)
    requires key in rec.fields
    ensures r.fields.Keys == rec.fields.Keys && r.format == rec.format
    ensures r.fields[key] == Num(Clamp01(ParseFloat(rec.fields[key]) + delta))
    ensures forall k :: k in rec.fields && k != key ==> r.fields[k] == rec.fields[k]
  {
    Record(rec.fields[key := Num(Clamp01(ParseFloat(rec.fields[key]) + delta))], rec.format)
  }

  /** `tinycolor.desaturate(color, amount)`. */
  function Desaturate(x: Input, amount: Option<real>): (c: Color)
    requires Usable(x)
  {
    FromRecord(Nudged(HslRecord(x), "s", -Amount(amount) / 100.0))
  }

  /** `tinycolor.saturate(color, amount)`. */
  function Saturate(x: Input, amount: Option<real>): (c: Color)
    requires Usable(x)
  {
    FromRecord(Nudged(HslRecord(x), "s", Amount(amount) / 100.0))
  }

  /** `tinycolor.greyscale(color)`: desaturate by 100. */
  function Greyscale(x: Input): (c: Color)
    requires Usable(x)
  {
    Desaturate(x, Some(100.0))
  }

  /** `tinycolor.lighten(color, amount)`. */
  function Lighten(x: Input, amount: Option<real>): (c: Color)
    requires Usable(x)
  {
    FromRecord(Nudged(HslRecord(x), "l", Amount(amount) / 100.0))
  }

  /** `tinycolor.darken(color, amount)`. */
  function Darken(x: Input, amount: Option<real>): (c: Color)
    requires Usable(x)
  {
    FromRecord(Nudged(HslRecord(x), "l", -Amount(amount) / 100.0))
  }

  /** An HSL record whose `s` and `l` are unit numbers and whose `h` is a
      number, as `toHsl` writes them. */
  predicate HslNumbers(f: map<string, Field>, h: real, s: real, l: real)
  {
    && f.Keys == {"h", "s", "l", "a"}
    && f["h"] == Num(h) && f["s"] == Num(s) && f["l"] == Num(l)
    && InUnit(s) && InUnit(l)
  }

  /** What `hslToRgb` reads from the numbers of such a record: the hue
      bounded against 360, `s` and `l` rewritten as percentages and bounded
      against 100. */
  function HslRead(h: real, s: real, l: real): (x: Hsl)
    ensures InUnit(x.h) && InUnit(x.s) && InUnit(x.l)
  {
    Hsl(Bound01(Num(h), 360.0), Bound01(ConvertToPercentage(Num(s)), 100.0),
        Bound01(ConvertToPercentage(Num(l)), 100.0))
  }

  /** `tinycolor` of an HSL record gives the channels of `hslToRgb`, each
      through the constructor's snap. */
  lemma HslRecordChannels(f: map<string, Field>, h: real, s: real, l: real)
    requires HslNumbers(f, h, s, l)
    ensures var c := FromRecord(Record(f, None)); var t := RgbOfHsl(HslRead(h, s, l));
      c.r == Snap(255.0 * t.r) && c.g == Snap(255.0 * t.g) && c.b == Snap(255.0 * t.b)
  {
    hide RgbOfHsl, Bound01, ConvertToPercentage;
    assert !Has3(f, "r", "g", "b") && !Has3(f, "h", "s", "v") && Has3(f, "h", "s", "l");
    var t := RgbOfHsl(HslRead(h, s, l));
    assert RecordColour(f) == Rgb(t.r * 255.0, t.g * 255.0, t.b * 255.0);
  }

  /** A unit number written as a percentage and bounded against 100 comes
      back as itself at the two ends. */
  lemma PercentEnds(x: real)
    requires x == 0.0 || x == 1.0
    ensures Bound01(ConvertToPercentage(Num(x)), 100.0) == x
  {
    assert ConvertToPercentage(Num(x)) == Text(100.0 * x, false, true);
  }

  /** Lightness 0 is black and lightness 1 is white, whatever the hue and
      saturation. */
  lemma HslEnds(x: Hsl)
    requires InUnit(x.h) && InUnit(x.s) && (x.l == 0.0 || x.l == 1.0)
    ensures RgbOfHsl(x) == Rgb(x.l, x.l, x.l)
  {
    if x.s != 0.0 {
      assert HslQ(x.l, x.s) == x.l;
    }
  }

  /** The record `greyscale`, `lighten` and `darken` pass on, with the
      numbers it holds. */
  lemma NudgedNumbers(x: Input, key: string, delta: real, v: real)
    requires Usable(x) && (key == "s" || key == "l") && v == Clamp01(ParseFloat(HslRecord(x).fields[key]) + delta)
    ensures var hsl := HslRecord(x);
      var h, s, l := ParseFloat(hsl.fields["h"]), ParseFloat(hsl.fields["s"]), ParseFloat(hsl.fields["l"]);
      HslNumbers(Nudged(hsl, key, delta).fields, h, if key == "s" then v else s, if key == "l" then v else l)
  {
    hide StringInputToObject;
  }

  /** `greyscale` leaves no hue: the three channels are equal. */
  lemma GreyscaleIsGrey(x: Input)
    requires Usable(x)
    ensures var c := Greyscale(x); c.r == c.g && c.g == c.b
  {
    hide HslRecord, StringInputToObject, FromRecord, RgbOfHsl, Bound01, ConvertToPercentage;
    var hsl := HslRecord(x);
    var h, l := ParseFloat(hsl.fields["h"]), ParseFloat(hsl.fields["l"]);
    assert -Amount(Some(100.0)) / 100.0 == -1.0;
    NudgedNumbers(x, "s", -1.0, 0.0);
    HslRecordChannels(Nudged(hsl, "s", -1.0).fields, h, 0.0, l);
    PercentEnds(0.0);
  }

  /** Lightening by 100 gives white, whatever the colour. */
  lemma LightenFullIsWhite(x: Input)
    requires Usable(x)
    ensures var c := Lighten(x, Some(100.0)); c.r == 255.0 && c.g == 255.0 && c.b == 255.0
  {
    hide HslRecord, StringInputToObject, FromRecord, RgbOfHsl, Bound01, ConvertToPercentage;
    var hsl := HslRecord(x);
    var h, s := ParseFloat(hsl.fields["h"]), ParseFloat(hsl.fields["s"]);
    assert Amount(Some(100.0)) / 100.0 == 1.0;
    NudgedNumbers(x, "l", 1.0, 1.0);
    HslRecordChannels(Nudged(hsl, "l", 1.0).fields, h, s, 1.0);
    PercentEnds(1.0);
    HslEnds(HslRead(h, s, 1.0));
  }

  /** Darkening by 100 gives black, whatever the colour. */
  lemma DarkenFullIsBlack(x: Input)
    requires Usable(x)
    ensures var c := Darken(x, Some(100.0)); c.r == 0.0 && c.g == 0.0 && c.b == 0.0
  {
    hide HslRecord, StringInputToObject, FromRecord, RgbOfHsl, Bound01, ConvertToPercentage;
    var hsl := HslRecord(x);
    var h, s := ParseFloat(hsl.fields["h"]), ParseFloat(hsl.fields["s"]);
    assert -Amount(Some(100.0)) / 100.0 == -1.0;
    NudgedNumbers(x, "l", -1.0, 0.0);
    HslRecordChannels(Nudged(hsl, "l", -1.0).fields, h, s, 0.0);
    PercentEnds(0.0);
    HslEnds(HslRead(h, s, 0.0));
  }

  /** The modification helpers keep the alpha: `toHsl` carries it in the
      record they pass on. */
  lemma NudgedKeepsAlpha(x: Input, key: string, delta: real)
    requires Usable(x) && (key == "s" || key == "l")
    ensures FromRecord(Nudged(HslRecord(x), key, delta)).a == Make(x, None).a
  {
    hide HslRecord, StringInputToObject;
    var rec := Nudged(HslRecord(x), key, delta);
    assert rec.fields["a"] == Num(Make(x, None).a);
  }

  // ---------------------------------------------------------------------
  // Hue rotation

  /** `(h + d) % 360`. */
  function Turn(h: real, d: real): real
  {
    Rem(h + d, 360.0)
  }

  /** Turning a hue on the wheel by less than a full turn stays on the
      wheel, and differs from `h + d` by at most one full turn. */
  lemma TurnOnWheel(h: real, d: real)
    requires 0.0 <= h < 360.0 && 0.0 <= d <= 360.0
    ensures 0.0 <= Turn(h, d) < 360.0
    ensures Turn(h, d) == (if h + d < 360.0 then h + d else h + d - 360.0)
  {
    if h + d < 360.0 {
      RemBelow(h + d, 360.0);
    } else {
      RemOnce(h + d, 360.0);
    }
  }

  /** `tinycolor.complement(color)`: the HSL record with its hue turned by
      180 degrees (saturation, lightness and alpha kept). */
  function Complement(x: Input): (c: Color)
    requires Usable(x)
  {
    var hsl := HslRecord(x);
    FromRecord(WithHue(hsl, Turn(ParseFloat(hsl.fields["h"]), 180.0)))
  }

  /** The record with its hue set to `h`. */
  function WithHue(rec: Record, h: real): (r: Record)
    ensures r.fields == rec.fields["h" := Num(h)] && r.format == rec.format
  {
    Record(rec.fields["h" := Num(h)], rec.format)
  }

  /** The hue `complement` gives lies opposite on the wheel. */
  lemma ComplementOpposite(x: Input)
    requires Usable(x)
    ensures var h := ParseFloat(HslRecord(x).fields["h"]);
      var h' := Turn(h, 180.0);
      0.0 <= h' < 360.0 && (h' == h + 180.0 || h' == h - 180.0)
  {
    hide HslRecord, StringInputToObject;
    var hsl := HslRecord(x);
    assert 0.0 <= ParseFloat(hsl.fields["h"]) < 360.0;
    TurnOnWheel(ParseFloat(hsl.fields["h"]), 180.0);
  }

  /** The record `{ h: (h + d) % 360, s: hsl.s, l: hsl.l }` the
      combination helpers pass to `tinycolor`: it has no `a`, so the colour
      made from it is fully opaque. */
  function SpunRecord(hsl: Record, d: real): (rec: Record)
    requires {"h", "s", "l"} <= hsl.fields.Keys
    ensures rec.fields.Keys == {"h", "s", "l"} && rec.format.None?
    ensures rec.fields["h"] == Num(Turn(ParseFloat(hsl.fields["h"]), d))
    ensures rec.fields["s"] == hsl.fields["s"] && rec.fields["l"] == hsl.fields["l"]
  {
    var f := hsl.fields;
    Record(map["h" := Num(Turn(ParseFloat(f["h"]), d)), "s" := f["s"], "l" := f["l"]], None)
  }

  /** A colour made from a record without `a` is fully opaque. */
  lemma SpunOpaque(hsl: Record, d: real)
    requires {"h", "s", "l"} <= hsl.fields.Keys
    ensures FromRecord(SpunRecord(hsl, d)).a == 1.0
  {
    assert "a" !in SpunRecord(hsl, d).fields;
  }

  /** The turns `triad`, `tetrad` and `splitcomplement` add. */
  const TriadTurns: seq<real> := [120.0, 240.0]
  const TetradTurns: seq<real> := [90.0, 180.0, 270.0]
  const SplitTurns: seq<real> := [72.0, 216.0]

  /** `tinycolor.triad(color)`: the colour, then its hue turned by 120 and
      by 240 degrees. */
  method Triad(x: Input) returns (cs: seq<Color>)
    requires Usable(x)
    ensures |cs| == 3 && cs[0] == Make(x, None)
    ensures forall k :: 1 <= k < 3 ==> cs[k] == FromRecord(SpunRecord(HslRecord(x), TriadTurns[k - 1]))
  {
    hide StringInputToObject, FromRecord, HslRecord, Make;
    var hsl := HslRecord(x);
    cs := [Make(x, None), FromRecord(SpunRecord(hsl, 120.0)), FromRecord(SpunRecord(hsl, 240.0))];
  }

  /** `tinycolor.tetrad(color)`: the colour, then its hue turned by 90, 180
      and 270 degrees. */
  method Tetrad(x: Input) returns (cs: seq<Color>)
    requires Usable(x)
    ensures |cs| == 4 && cs[0] == Make(x, None)
    ensures forall k :: 1 <= k < 4 ==> cs[k] == FromRecord(SpunRecord(HslRecord(x), TetradTurns[k - 1]))
  {
    hide StringInputToObject, FromRecord, HslRecord, Make;
    var hsl := HslRecord(x);
    cs := [Make(x, None), FromRecord(SpunRecord(hsl, 90.0)), FromRecord(SpunRecord(hsl, 180.0)),
           FromRecord(SpunRecord(hsl, 270.0))];
  }

  /** `tinycolor.splitcomplement(color)`: the colour, then its hue turned by
      72 and by 216 degrees. */
  method SplitComplement(x: Input) returns (cs: seq<Color>)
    requires Usable(x)
    ensures |cs| == 3 && cs[0] == Make(x, None)
    ensures forall k :: 1 <= k < 3 ==> cs[k] == FromRecord(SpunRecord(HslRecord(x), SplitTurns[k - 1]))
  {
    hide StringInputToObject, FromRecord, HslRecord, Make;
    var hsl := HslRecord(x);
    cs := [Make(x, None), FromRecord(SpunRecord(hsl, 72.0)), FromRecord(SpunRecord(hsl, 216.0))];
  }

  /** Two turns on the wheel make one turn by their sum. */
  lemma TurnTwice(h: real, d: real, e: real)
    requires 0.0 <= h < 360.0 && 0.0 <= d && 0.0 <= e && d + e <= 360.0
    ensures Turn(Turn(h, d), e) == Turn(h, d + e)
  {
    TurnOnWheel(h, d);
    TurnOnWheel(Turn(h, d), e);
    TurnOnWheel(h, d + e);
  }

  /** The turns `triad` and `tetrad` add split the wheel evenly: each added
      hue is one step on from the previous one, the last step comes back to
      the colour's own hue, and the hues are all different. */
  lemma EvenSplits(h: real)
    requires 0.0 <= h < 360.0
    ensures Turn(Turn(h, 120.0), 120.0) == Turn(h, 240.0) && Turn(Turn(h, 240.0), 120.0) == h
    ensures h != Turn(h, 120.0) && h != Turn(h, 240.0) && Turn(h, 120.0) != Turn(h, 240.0)
    ensures Turn(Turn(h, 90.0), 90.0) == Turn(h, 180.0) && Turn(Turn(h, 180.0), 90.0) == Turn(h, 270.0)
    ensures Turn(Turn(h, 270.0), 90.0) == h
    ensures h != Turn(h, 90.0) && h != Turn(h, 180.0) && h != Turn(h, 270.0)
    ensures Turn(h, 90.0) != Turn(h, 180.0) && Turn(h, 90.0) != Turn(h, 270.0) && Turn(h, 180.0) != Turn(h, 270.0)
  {
    TurnTwice(h, 120.0, 120.0);
    TurnTwice(Turn(h, 120.0), 120.0, 120.0);
    TurnTwice(h, 240.0, 120.0);
    TurnOnWheel(h, 360.0);
    TurnOnWheel(h, 120.0);
    TurnOnWheel(h, 240.0);
    TurnTwice(h, 90.0, 90.0);
    TurnTwice(h, 180.0, 90.0);
    TurnTwice(h, 270.0, 90.0);
    TurnOnWheel(h, 90.0);
    TurnOnWheel(h, 180.0);
    TurnOnWheel(h, 270.0);
  }

  /** The two hues `splitcomplement` adds flank the complement: 108 degrees
      short of it and 36 degrees past it. */
  lemma SplitFlanksComplement(h: real)
    requires 0.0 <= h < 360.0
    ensures Turn(Turn(h, 72.0), 108.0) == Turn(h, 180.0)
    ensures Turn(Turn(h, 180.0), 36.0) == Turn(h, 216.0)
  {
    TurnTwice(h, 72.0, 108.0);
    TurnTwice(h, 180.0, 36.0);
  }

  // ---------------------------------------------------------------------
  // Stepping round a wheel (`analogous` and `monochromatic`)

  /** The two wheels the palettes step round: hues, in degrees, and HSV
      values, in [0, 1). */
  datatype Wheel = Hues | Values

  /** A full turn of the wheel. */
  function Span(w: Wheel): (m: real)
    ensures m > 0.0
  {
    match w
    case Hues => 360.0
    case Values => 1.0
  }

  /** One step: `(x + step) % 360` on the hue wheel, `(x + step) % 1` on
      the value wheel. */
  function StepOn(x: real, step: real, w: Wheel): real
  {
    Rem(x + step, Span(w))
  }

  /** `k` steps of `step` from `x0`. */
  function Stepped(x0: real, step: real, w: Wheel, k: nat): real
  {
    if k == 0 then x0 else StepOn(Stepped(x0, step, w, k - 1), step, w)
  }

  /** `Stepped` unrolled by one step. */
  lemma SteppedNext(x0: real, step: real, w: Wheel, k: nat)
    ensures Stepped(x0, step, w, 0) == x0
    ensures Stepped(x0, step, w, k + 1) == StepOn(Stepped(x0, step, w, k), step, w)
  {
  }

  /** How many whole turns the first `k` steps have wrapped past. */
  function Wraps(x0: real, step: real, w: Wheel, k: nat): int
  {
    if k == 0 then 0 else Wraps(x0, step, w, k - 1) + Trunc((Stepped(x0, step, w, k - 1) + step) / Span(w))
  }

  /** `k` steps of `step` are `k * step`, less the turns wrapped past. */
  lemma {:induction false} SteppedWraps(x0: real, step: real, w: Wheel, k: nat)
    ensures Stepped(x0, step, w, k) == x0 + k as real * step - Span(w) * Wraps(x0, step, w, k) as real
  {
    hide Rem, Trunc;
    if k > 0 {
      SteppedWraps(x0, step, w, k - 1);
      WrapStep(x0, step, w, k);
    }
  }

  /** One step of `SteppedWraps`. */
  lemma WrapStep(x0: real, step: real, w: Wheel, k: nat)
    requires k > 0
    requires Stepped(x0, step, w, k - 1) == x0 + (k - 1) as real * step - Span(w) * Wraps(x0, step, w, k - 1) as real
    ensures Stepped(x0, step, w, k) == x0 + k as real * step - Span(w) * Wraps(x0, step, w, k) as real
  {
    hide Rem, Trunc;
    var m := Span(w);
    var prev := Stepped(x0, step, w, k - 1);
    var q := Wraps(x0, step, w, k - 1);
    var t := Trunc((prev + step) / m);
    RemDef(prev + step, m);
    assert Wraps(x0, step, w, k) == q + t;
    MulSucc(k, step);
    MulAdd(m, q, t);
  }

  lemma MulSucc(k: nat, b: real)
    requires k > 0
    ensures k as real * b == (k - 1) as real * b + b
  {
  }

  lemma MulAdd(m: real, a: int, b: int)
    ensures m * (a + b) as real == m * a as real + m * b as real
  {
  }

  /** Starting on the wheel (or at its end) with a step of at most a full
      turn, every step lands on the wheel. */
  lemma {:induction false} SteppedOnWheel(x0: real, step: real, w: Wheel, k: nat)
    requires 0.0 <= x0 <= Span(w) && 0.0 <= step <= Span(w) && k >= 1
    ensures 0.0 <= Stepped(x0, step, w, k) < Span(w)
  {
    var m := Span(w);
    var prev := Stepped(x0, step, w, k - 1);
    if k > 1 {
      SteppedOnWheel(x0, step, w, k - 1);
    }
    if prev + step < m {
      RemBelow(prev + step, m);
    } else if prev + step < 2.0 * m {
      RemOnce(prev + step, m);
    } else {
      RemTwice(prev + step, m);
    }
  }

  /** Two points of the wheel a whole number of turns apart are the same
      point. */
  lemma SamePlace(a: real, b: real, m: real, q: int)
    requires m > 0.0 && 0.0 <= a < m && 0.0 <= b < m && a == b + m * q as real
    ensures a == b
  {
    if q >= 1 {
      assert m * q as real >= m;
    } else if q <= -1 {
      assert m * q as real <= -m;
    }
  }

  /** `n` steps of a full turn over `n` from a point of the wheel come
      back to it. */
  lemma FullCircle(x0: real, w: Wheel, n: nat)
    requires 0.0 <= x0 < Span(w) && n >= 1
    ensures Stepped(x0, Span(w) / n as real, w, n) == x0
  {
    hide Rem, Trunc;
    var m := Span(w);
    var step := m / n as real;
    assert n as real * step == m;
    SteppedWraps(x0, step, w, n);
    SteppedOnWheel(x0, step, w, n);
    var q := Wraps(x0, step, w, n);
    assert m * q as real - m == m * (q - 1) as real;
    SamePlace(Stepped(x0, step, w, n), x0, m, 1 - q);
  }

  // ---------------------------------------------------------------------
  // analogous

  /** JavaScript's `ToInt32`: an integer wrapped into 32-bit two's
      complement. */
  function Int32(n: int): (w: int)
    ensures -0x8000_0000 <= w < 0x8000_0000
    ensures -0x8000_0000 <= n < 0x8000_0000 ==> w == n
  {
    (n + 0x8000_0000) % 0x1_0000_0000 - 0x8000_0000
  }

  /** `part * results >> 1`: the product truncated to a 32-bit integer and
      shifted right by one (a floor division by 2). */
  function HalfSpan(part: real, results: nat): int
  {
    Int32(Trunc(part * results as real)) / 2
  }

  /** The hue `analogous` starts from: `((h - (part * results >> 1)) + 720) % 360`. */
  function AnalogousStart(h: real, part: real, results: nat): real
  {
    Rem(h - HalfSpan(part, results) as real + 720.0, 360.0)
  }

  /** `results || 6`. */
  function OrDefault(n: nat, d: nat): (m: nat)
    requires d > 0
    ensures m > 0 && (n > 0 ==> m == n) && (n == 0 ==> m == d)
  {
    if n == 0 then d else n
  }

  /** `slices || 30`: any number but 0 is kept (0 also stands for a missing
      argument), so the slice is never a division by zero. */
  function SlicesOrDefault(slices: real): (s: real)
    ensures s != 0.0
    ensures slices != 0.0 ==> s == slices
    ensures slices == 0.0 ==> s == 30.0
  {
    if slices == 0.0 then 30.0 else slices
  }

  /** After a record has gone through `tinycolor` and been rewritten in
      place, setting its hue again gives the rewrite of the original
      record with that hue. */
  lemma RewriteWithHue(rec: Record, h: real, h': real)
    requires rec.fields.Keys == {"h", "s", "l", "a"}
    ensures WithHue(Rewrite(WithHue(rec, h)), h') == Rewrite(WithHue(rec, h'))
  {
  }

  /** Rewriting twice is rewriting once. */
  lemma RewriteTwice(rec: Record)
    requires rec.fields.Keys == {"h", "s", "l", "a"}
    ensures Rewrite(Rewrite(rec)) == Rewrite(rec)
  {
    var f := rec.fields;
    ConvertToPercentageIdempotent(f["s"]);
    ConvertToPercentageIdempotent(f["l"]);
    assert Rewrite(rec).fields == f["s" := ConvertToPercentage(f["s"])]["l" := ConvertToPercentage(f["l"])];
  }

  /** `tinycolor.analogous(color, results, slices)`: the colour itself,
      then `results - 1` colours whose hues step by `360 / slices` round
      the wheel from the start hue; alpha, saturation and lightness are
      those of the colour. */
  method Analogous(x: Input, results: nat, slices: real) returns (ret: seq<Color>)
    requires Usable(x)
    ensures var n := OrDefault(results, 6);
      var part := 360.0 / SlicesOrDefault(slices);
      var hsl := HslRecord(x);
      var start := AnalogousStart(ParseFloat(hsl.fields["h"]), part, n);
      && |ret| == n && ret[0] == Make(x, None)
      && forall k :: 1 <= k < n ==> ret[k] == FromRecord(WithHue(hsl, Stepped(start, part, Hues, k)))
  {
    hide HslRecord, Make, FromRecord, AnalogousStart, Rem, Trunc, StringInputToObject;
    var n := OrDefault(results, 6);
    var part := 360.0 / SlicesOrDefault(slices);
    var hsl := HslRecord(x);
    var start := AnalogousStart(ParseFloat(hsl.fields["h"]), part, n);
    var added := AnalogousSteps(hsl, start, part, n - 1);
    ret := [Make(x, None)] + added;
  }

  /** The `for (hsl.h = start; --results; )` loop of `analogous`. The one
      HSL record is reused for every added colour, and `tinycolor`
      rewrites its `s` and `l` in place each time; the colours are still
      those of the original record with the stepped hue. */
  method AnalogousSteps(orig: Record, start: real, part: real, count: nat) returns (added: seq<Color>)
    requires orig.fields.Keys == {"h", "s", "l", "a"}
    ensures |added| == count
    ensures forall k :: 1 <= k <= count ==> added[k - 1] == FromRecord(WithHue(orig, Stepped(start, part, Hues, k)))
  {
    hide *;
    SteppedNext(start, part, Hues, 0);
    var hsl := WithHue(orig, start);
    var h := start;  // the number in `hsl.h`
    added := [];
    var left := count;
    while left > 0
      invariant 0 <= left <= count && |added| == count - left
      invariant h == Stepped(start, part, Hues, |added|)
      invariant hsl == WithHue(orig, h) || hsl == Rewrite(WithHue(orig, h))
      invariant forall k :: 1 <= k <= |added| ==> added[k - 1] == FromRecord(WithHue(orig, Stepped(start, part, Hues, k)))
    {
      var h' := StepOn(h, part, Hues);
      SteppedNext(start, part, Hues, |added|);
      RewriteWithHue(orig, h, h');
      var next := WithHue(hsl, h');
      assert next == WithHue(orig, h') || next == Rewrite(WithHue(orig, h'));
      RewrittenSameColour(WithHue(orig, h'));
      assert FromRecord(next) == FromRecord(WithHue(orig, h'));
      assert h' == Stepped(start, part, Hues, |added| + 1);
      added := added + [FromRecord(next)];
      RewriteTwice(WithHue(orig, h'));
      hsl := Rewrite(next);
      h := h';
      left := left - 1;
    }
  }

  /** `tinycolor` of a record it has already rewritten is the same colour. */
  lemma RewrittenSameColour(rec: Record)
    ensures FromRecord(Rewrite(rec)) == FromRecord(rec)
  {
    RewriteKeepsColour(rec);
    assert InputToRgb(ObjArg(Rewrite(rec))) == InputToRgb(ObjArg(rec));
  }

  /** The start hue is on the wheel as long as the half span it steps back
      is at most two turns (the `+ 720`); the defaults (6 colours, 30
      slices) step back 36 degrees. */
  lemma AnalogousStartOnWheel(h: real, part: real, results: nat)
    requires 0.0 <= h < 360.0 && 0 <= HalfSpan(part, results) <= 720
    ensures 0.0 <= AnalogousStart(h, part, results) < 360.0
  {
    var w := h - HalfSpan(part, results) as real + 720.0;
    if w < 360.0 {
      RemBelow(w, 360.0);
    } else if w < 720.0 {
      RemOnce(w, 360.0);
    } else {
      RemTwice(w, 360.0);
    }
  }

  /** The defaults (6 colours, 30 slices of 12 degrees) step back 36
      degrees. */
  lemma DefaultHalfSpan()
    ensures 360.0 / 30.0 == 12.0 && HalfSpan(12.0, 6) == 36
  {
    assert 12.0 * 6 as real == 72.0;
    assert Trunc(72.0) == 72;
  }

  /** With the defaults the palette is centred on the colour: the start
      is three slices back, so the third added colour has the colour's own
      hue, and every added hue is on the wheel. */
  lemma DefaultAnalogousCentred(h: real)
    requires 0.0 <= h < 360.0
    ensures Stepped(AnalogousStart(h, 12.0, 6), 12.0, Hues, 3) == h
    ensures forall k :: 1 <= k <= 5 ==> 0.0 <= Stepped(AnalogousStart(h, 12.0, 6), 12.0, Hues, k) < 360.0
  {
    hide Rem, Trunc, HalfSpan, Stepped, Wraps;
    DefaultHalfSpan();
    var start := AnalogousStart(h, 12.0, 6);
    AnalogousStartOnWheel(h, 12.0, 6);
    forall k | 1 <= k <= 5
      ensures 0.0 <= Stepped(start, 12.0, Hues, k) < 360.0
    {
      SteppedOnWheel(start, 12.0, Hues, k);
    }
    SteppedWraps(start, 12.0, Hues, 3);
    RemDef(h - 36.0 + 720.0, 360.0);
    var t := Trunc((h - 36.0 + 720.0) / 360.0);
    var w := Wraps(start, 12.0, Hues, 3);
    assert Stepped(start, 12.0, Hues, 3) == h + 720.0 - 360.0 * t as real - 360.0 * w as real;
    assert 720.0 - 360.0 * t as real - 360.0 * w as real == 360.0 * (2 - t - w) as real;
    SamePlace(Stepped(start, 12.0, Hues, 3), h, 360.0, 2 - t - w);
  }

  // ---------------------------------------------------------------------
  // monochromatic

  /** The record `tinycolor({ h: h, s: s, v: v })` reads (no alpha). */
  function HsvRecordOf(h: real, s: real, v: real): (rec: Record)
    ensures rec.fields.Keys == {"h", "s", "v"} && rec.format.None?
  {
    Record(map["h" := Num(h), "s" := Num(s), "v" := Num(v)], None)
  }

  /** `tinycolor.monochromatic(color, results)`: `results` fully opaque
      colours of the same hue and saturation, whose value steps by
      `1 / results`, wrapping past 1 back towards 0. */
  method Monochromatic(x: Input, results: nat) returns (ret: seq<Color>)
    requires Usable(x)
    ensures var n := OrDefault(results, 6);
      var f := ToHsv(Make(x, None)).fields;
      var h, s, v := ParseFloat(f["h"]), ParseFloat(f["s"]), ParseFloat(f["v"]);
      && |ret| == n
      && forall k :: 0 <= k < n ==> ret[k] == FromRecord(HsvRecordOf(h, s, Stepped(v, 1.0 / n as real, Values, k)))
  {
    hide StringInputToObject, FromRecord;
    var n := OrDefault(results, 6);
    var f := ToHsv(Make(x, None)).fields;
    var h, s, v := ParseFloat(f["h"]), ParseFloat(f["s"]), ParseFloat(f["v"]);
    ret := MonochromaticSteps(h, s, v, 1.0 / n as real, n);
  }

  /** The `while (results--)` loop of `monochromatic`. */
  method MonochromaticSteps(h: real, s: real, v0: real, modification: real, count: nat) returns (ret: seq<Color>)
    ensures |ret| == count
    ensures forall k :: 0 <= k < count ==> ret[k] == FromRecord(HsvRecordOf(h, s, Stepped(v0, modification, Values, k)))
  {
    hide *;
    SteppedNext(v0, modification, Values, 0);
    var v := v0;
    ret := [];
    var left := count;
    while left > 0
      invariant 0 <= left <= count && |ret| == count - left
      invariant v == Stepped(v0, modification, Values, |ret|)
      invariant forall k :: 0 <= k < |ret| ==> ret[k] == FromRecord(HsvRecordOf(h, s, Stepped(v0, modification, Values, k)))
    {
      ret := ret + [FromRecord(HsvRecordOf(h, s, v))];
      SteppedNext(v0, modification, Values, |ret| - 1);
      v := StepOn(v, modification, Values);
      left := left - 1;
    }
  }

  /** The values `monochromatic` gives after the first lie in [0, 1), and
      one more step would come back to the first value when it is below 1
      (a value of exactly 1 comes back as 0). */
  lemma MonochromaticCycle(v: real, step: real, n: nat)
    requires 0.0 <= v <= 1.0 && n >= 1 && step == 1.0 / n as real
    ensures forall k :: 1 <= k <= n ==> 0.0 <= Stepped(v, step, Values, k) < 1.0
    ensures v < 1.0 ==> Stepped(v, step, Values, n) == v
  {
    forall k | 1 <= k <= n
      ensures 0.0 <= Stepped(v, step, Values, k) < 1.0
    {
      SteppedOnWheel(v, step, Values, k);
    }
    if v < 1.0 {
      FullCircle(v, Values, n);
    }
  }
}
