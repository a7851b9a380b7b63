/** The colour object `tinycolor` builds: what it captures from
    `inputToRGB`, the one method that changes it (`setAlpha`), and the value
    methods that read it (`toRgb`, `toRgbString`, `toHex`, `toHsl`, `toName`,
    `toString`, ...), with `tinycolor.equals` and `tinycolor.fromRatio`. */
module TinyColor {
  import opened JsValues
  import opened Bounds
  import opened Conversions
  import opened ConversionLaws
  import opened Hex
  import opened Names
  import opened Parser
  import opened ColorText

  // ---------------------------------------------------------------------
  // The captured state

  /** `Math.round(100 * a)` for an alpha in [0,1]: `roundA` in hundredths. */
  function AlphaHundredths(a: real): (k: nat)
    requires 0.0 <= a <= 1.0
    ensures k <= 100 && k == Round(100.0 * a)
  {
    Round(100.0 * a)
  }

  /** What a colour object holds: its `ok`, `format` and `alpha` properties,
      and the `r`, `g`, `b`, `a` and `roundA` its methods close over. */
  datatype Color = Color(ok: bool, format: Option<string>, alpha: real,
                         r: real, g: real, b: real, a: real, roundA: real)

  /** A channel after the constructor's snap: in [0,255], and a whole 0 or
      at least 1. */
  predicate Snapped(x: real)
  {
    0.0 <= x <= 255.0 && (x < 1.0 ==> x == 0.0)
  }

  /** The invariant of every colour object. */
  predicate WellFormed(c: Color)
  {
    && Snapped(c.r) && Snapped(c.g) && Snapped(c.b)
    && 0.0 <= c.a <= 1.0 && 0.0 <= c.alpha <= 1.0
    && c.roundA == AlphaHundredths(c.a) as real / 100.0
  }

  /** The constructor's `if (r < 1) { r = mathRound(r); }`: a channel below
      1 is rounded (to 0 or 1), anything else is kept. */
  function Snap(x: real): (y: real)
    requires 0.0 <= x <= 255.0
    ensures Snapped(y) && Abs(y - x) <= 0.5
    ensures Snapped(x) ==> y == x
  {
    if x < 1.0 then Round(x) as real else x
  }

  /** The argument of `tinycolor`: a string or plain object, or a colour
      object made before (whose current state is given). */
  datatype Input = Arg(arg: ColorArg) | Tiny(color: Color)

  /** The state the constructor captures from `inputToRGB`'s result;
      `opts.format` wins over the detected format when it is truthy. */
  function FromParsed(p: Parsed, fmt: Option<string>): (c: Color)
    requires 0.0 <= p.r <= 255.0 && 0.0 <= p.g <= 255.0 && 0.0 <= p.b <= 255.0
    requires 0.0 <= p.a <= 1.0
    ensures WellFormed(c)
    ensures c.ok == p.ok && c.a == p.a && c.alpha == p.a
    ensures Truthy(fmt) ==> c.format == fmt
    ensures !Truthy(fmt) ==> c.format == p.format
    ensures Abs(c.r - p.r) <= 0.5 && Abs(c.g - p.g) <= 0.5 && Abs(c.b - p.b) <= 0.5
    ensures Snapped(p.r) ==> c.r == p.r
    ensures Snapped(p.g) ==> c.g == p.g
    ensures Snapped(p.b) ==> c.b == p.b
  {
    Color(p.ok, OrElse(fmt, p.format), p.a, Snap(p.r), Snap(p.g), Snap(p.b), p.a,
          AlphaHundredths(p.a) as real / 100.0)
  }

  /** `tinycolor(color, opts)` as a value: a colour object passed in is
      returned as it is; anything else goes through `inputToRGB`. */
  function Make(input: Input, fmt: Option<string>): (c: Color)
    requires input.Tiny? ==> WellFormed(input.color)
    ensures WellFormed(c)
    ensures input.Tiny? ==> c == input.color
    ensures input.Arg? ==> c == FromParsed(InputToRgb(input.arg), fmt)
  {
    match input
    case Tiny(t) => t
    case Arg(arg) => FromParsed(InputToRgb(arg), fmt)
  }

  /** The state after `setAlpha` stored `x`. */
  function WithAlpha(c: Color, x: real): (d: Color)
    requires WellFormed(c) && 0.0 <= x <= 1.0
    ensures WellFormed(d)
    ensures d.a == x && d.alpha == c.alpha
    ensures d.(a := c.a, roundA := c.roundA) == c
  {
    c.(a := x, roundA := AlphaHundredths(x) as real / 100.0)
  }

  /** A colour object: the properties and captured variables as fields.
      Only `setAlpha` changes it, and only `a` and `roundA`; the `alpha`
      property keeps the value it had when the object was made. */
  class TinyColorObject {
    const ok: bool
    const format: Option<string>
    const alpha: real
    const r: real
    const g: real
    const b: real
    var a: real
    var roundA: real

    function Value(): Color
      reads this
    {
      Color(ok, format, alpha, r, g, b, a, roundA)
    }

    ghost predicate Valid()
      reads this
    {
      WellFormed(Value())
    }

    constructor (arg: ColorArg, fmt: Option<string>)
      ensures Valid() && Value() == Make(Arg(arg), fmt)
    {
      var c := Make(Arg(arg), fmt);
      ok, format, alpha := c.ok, c.format, c.alpha;
      r, g, b := c.r, c.g, c.b;
      a, roundA := c.a, c.roundA;
    }

    /** `getAlpha`. */
    function GetAlpha(): (x: real)
      reads this
      requires Valid()
      ensures 0.0 <= x <= 1.0 && x == Value().a
    {
      a
    }

    /** `setAlpha(value)`; the argument is `parseFloat(value)`, `None` for
      NaN. */
    method SetAlpha(value: Option<real>)
      requires Valid()
      modifies this
      ensures Valid()
      ensures Value() == WithAlpha(old(Value()), BoundAlpha(value))
    {
      a := BoundAlpha(value);
      roundA := AlphaHundredths(a) as real / 100.0;
    }
  }

  /** What `tinycolor` is given: a new argument, or an object it made. */
  datatype ObjectInput = Fresh(arg: ColorArg) | Existing(obj: TinyColorObject)

  /** `tinycolor(color, opts)`: an object it made before comes back as the
      very same object; anything else gives a new object. */
  method NewColor(input: ObjectInput, fmt: Option<string>) returns (t: TinyColorObject)
    requires input.Existing? ==> input.obj.Valid()
    ensures t.Valid()
    ensures input.Existing? ==> t == input.obj
    ensures input.Fresh? ==> fresh(t) && t.Value() == Make(Arg(input.arg), fmt)
  {
    match input
    case Existing(obj) =>
      t := obj;
    case Fresh(arg) =>
      t := new TinyColorObject(arg, fmt);
  }

  // ---------------------------------------------------------------------
  // toRgb and toRgbString

  /** `mathRound` of a snapped channel, as a number. */
  function Rounded(x: real): (y: real)
    requires 0.0 <= x <= 255.0
    ensures 0.0 <= y <= 255.0 && IsInteger(y) && Abs(y - x) <= 0.5
  {
    RoundByte(x) as real
  }

  /** `toRgb`: the rounded channels and the alpha. */
  function ToRgb(c: Color): (rec: Record)
    requires WellFormed(c)
    ensures rec.fields.Keys == {"r", "g", "b", "a"} && rec.format.None?
    ensures rec.fields["a"] == Num(c.a)
  {
    Record(map["r" := Num(Rounded(c.r)), "g" := Num(Rounded(c.g)), "b" := Num(Rounded(c.b)), "a" := Num(c.a)], None)
  }

  /** The numbers `toRgbString` writes for the channels. */
  function RgbNumbers(c: Color): (ws: seq<Written>)
    requires WellFormed(c)
    ensures |ws| == 3 && AllWritable(ws)
  {
    [Whole(RoundByte(c.r), false), Whole(RoundByte(c.g), false), Whole(RoundByte(c.b), false)]
  }

  /** `roundA` as `toRgbString` and its siblings write it. */
  function AlphaNumber(c: Color): (w: Written)
    requires WellFormed(c)
    ensures Writable(w)
  {
    Hundredths(AlphaHundredths(c.a))
  }

  /** `toRgbString`: `rgb(r, g, b)` when fully opaque, otherwise
      `rgba(r, g, b, roundA)`. */
  function ToRgbString(c: Color): string
    requires WellFormed(c)
  {
    if c.a == 1.0 then FunctionText("rgb", RgbNumbers(c))
    else FunctionText("rgba", RgbNumbers(c) + [AlphaNumber(c)])
  }

  /** The alpha a written colour text carries: 1 when the object was fully
      opaque, otherwise `roundA`. */
  function WrittenAlpha(c: Color): (x: real)
    requires WellFormed(c)
    ensures 0.0 <= x <= 1.0
    ensures c.a == 1.0 ==> x == 1.0
    ensures c.a != 1.0 ==> x == c.roundA
  {
    if c.a == 1.0 then 1.0 else AlphaHundredths(c.a) as real / 100.0
  }

  /** An object made from `toRgb`'s record has the rounded channels and
      the same alpha, in the `rgb` format. */
  lemma ToRgbRebuilds(c: Color)
    requires WellFormed(c)
    ensures Make(Arg(ObjArg(ToRgb(c))), None)
      == Color(true, Some("rgb"), c.a, Rounded(c.r), Rounded(c.g), Rounded(c.b), c.a, c.roundA)
  {
    var rec := ToRgb(c);
    KeptRound(c.r);
    KeptRound(c.g);
    KeptRound(c.b);
    RecordFormatDetected(rec, Rounded(c.r), Rounded(c.g), Rounded(c.b), c.a);
    RoundedSnapped(c.r);
    RoundedSnapped(c.g);
    RoundedSnapped(c.b);
  }

  lemma RoundedSnapped(x: real)
    requires 0.0 <= x <= 255.0
    ensures Snapped(Rounded(x))
  {
  }

  /** A record without a format of three kept numbers and an alpha reads as
      the `rgb` format. */
  lemma RecordFormatDetected(rec: Record, r: real, g: real, b: real, a: real)
    requires rec.fields == map["r" := Num(r), "g" := Num(g), "b" := Num(b), "a" := Num(a)]
    requires KeptByte(Num(r)) && KeptByte(Num(g)) && KeptByte(Num(b)) && 0.0 <= a <= 1.0
    requires rec.format.None?
    ensures RecordToRgb(rec) == Parsed(true, Some("rgb"), r, g, b, a)
  {
    var f := rec.fields;
    assert Has3(f, "r", "g", "b") && "a" in f;
    assert RecordColour(f) == RgbToRgb(f["r"], f["g"], f["b"]) == Rgb(r, g, b);
  }

  /** The channels `toRgbString` writes, as the matchers capture them. */
  lemma ReadWholeNumbers(ws: seq<Written>, x: nat, y: nat, z: nat)
    requires ws == [Whole(x, false), Whole(y, false), Whole(z, false)]
    ensures AllWritable(ws)
    ensures ReadBackAll(ws) == [Text(x as real, false, false), Text(y as real, false, false), Text(z as real, false, false)]
  {
  }

  /** A record of three whole channel texts reads as those channels, in the
      `rgb` format, fully opaque. */
  lemma RgbRecordRead(m: seq<Field>, x: nat, y: nat, z: nat)
    requires x <= 255 && y <= 255 && z <= 255
    requires |m| == 3 && m == [Text(x as real, false, false), Text(y as real, false, false), Text(z as real, false, false)]
    ensures RecordToRgb(Record(Fields3("r", "g", "b", m), None))
      == Parsed(true, Some("rgb"), x as real, y as real, z as real, 1.0)
  {
    var f := Fields3("r", "g", "b", m);
    assert f["r"] == m[0] && f["g"] == m[1] && f["b"] == m[2];
    assert x <= 254 || x == 255;
    assert y <= 254 || y == 255;
    assert z <= 254 || z == 255;
    assert RecordColour(f) == Rgb(x as real, y as real, z as real);
    assert "a" !in f;
  }

  /** A record of three whole channel texts and an alpha text in hundredths
      reads as those numbers, in the `rgb` format. */
  lemma RgbaRecordRead(m: seq<Field>, x: nat, y: nat, z: nat, k: nat)
    requires x <= 255 && y <= 255 && z <= 255 && k <= 100
    requires |m| == 4 && m[..3] == [Text(x as real, false, false), Text(y as real, false, false), Text(z as real, false, false)]
    requires m[3] == Text(k as real / 100.0, 0 < k < 100, false)
    ensures RecordToRgb(Record(Fields4("r", "g", "b", m), None))
      == Parsed(true, Some("rgb"), x as real, y as real, z as real, k as real / 100.0)
  {
    hide RecordColour;
    var f := Fields4("r", "g", "b", m);
    assert m[0] == m[..3][0] && m[1] == m[..3][1] && m[2] == m[..3][2];
    assert f["r"] == m[0] && f["g"] == m[1] && f["b"] == m[2] && f["a"] == m[3];
    RgbFieldsRead(f, x, y, z);
    assert RecordAlpha(f) == k as real / 100.0;
  }

  /** Three whole channel texts under `r`, `g`, `b` are read as those
      numbers. */
  lemma RgbFieldsRead(f: map<string, Field>, x: nat, y: nat, z: nat)
    requires x <= 255 && y <= 255 && z <= 255
    requires "r" in f && f["r"] == Text(x as real, false, false)
    requires "g" in f && f["g"] == Text(y as real, false, false)
    requires "b" in f && f["b"] == Text(z as real, false, false)
    ensures RecordColour(f) == Rgb(x as real, y as real, z as real)
  {
    assert x <= 254 || x == 255;
    assert y <= 254 || y == 255;
    assert z <= 254 || z == 255;
  }

  /** A whole number of hundredths is its own `roundA`. */
  lemma HundredthsKept(k: nat)
    requires k <= 100
    ensures AlphaHundredths(k as real / 100.0) == k
  {
    assert 100.0 * (k as real / 100.0) == k as real;
  }

  /** What a text parses to is what `inputToRGB` reads from its record. */
  lemma TextParsedAs(s: string, rec: Record, p: Parsed)
    requires StringInputToObject(s) == Some(rec) && RecordToRgb(rec) == p
    ensures InputToRgb(StrArg(s)) == p
  {
  }

  /** A colour captured from whole channels and an alpha in hundredths
      holds exactly those numbers. */
  lemma CapturedExactly(p: Parsed, fmt: string, x: nat, y: nat, z: nat, k: nat)
    requires x <= 255 && y <= 255 && z <= 255 && k <= 100
    requires p == Parsed(true, Some(fmt), x as real, y as real, z as real, k as real / 100.0)
    ensures var w := k as real / 100.0;
      FromParsed(p, None) == Color(true, Some(fmt), w, x as real, y as real, z as real, w, w)
  {
    HundredthsKept(k);
  }

  /** `toRgbString` of a fully opaque colour reads as its rounded channels. */
  lemma OpaqueRgbText(c: Color)
    requires WellFormed(c) && c.a == 1.0
    ensures InputToRgb(StrArg(ToRgbString(c)))
      == Parsed(true, Some("rgb"), Rounded(c.r), Rounded(c.g), Rounded(c.b), 1.0)
  {
    hide RecordToRgb, StringInputToObject, InputToRgb;
    var ws := RgbNumbers(c);
    var x, y, z := RoundByte(c.r), RoundByte(c.g), RoundByte(c.b);
    ReadWholeNumbers(ws, x, y, z);
    RgbTextObject(ws);
    RgbRecordRead(ReadBackAll(ws), x, y, z);
    TextParsedAs(ToRgbString(c), Record(Fields3("r", "g", "b", ReadBackAll(ws)), None),
      Parsed(true, Some("rgb"), x as real, y as real, z as real, 1.0));
  }

  /** `toRgbString` of a translucent colour reads as its rounded channels
      and `roundA`. */
  lemma TranslucentRgbText(c: Color)
    requires WellFormed(c) && c.a != 1.0
    ensures InputToRgb(StrArg(ToRgbString(c)))
      == Parsed(true, Some("rgb"), Rounded(c.r), Rounded(c.g), Rounded(c.b), c.roundA)
  {
    hide RecordToRgb, StringInputToObject, InputToRgb;
    var ws := RgbNumbers(c);
    var x, y, z := RoundByte(c.r), RoundByte(c.g), RoundByte(c.b);
    var k := AlphaHundredths(c.a);
    var ws4 := ws + [AlphaNumber(c)];
    ReadWholeNumbers(ws, x, y, z);
    RgbaPrefix(ws, ws4);
    RgbaTextObject(ws4);
    RgbaRecordRead(ReadBackAll(ws4), x, y, z, k);
    TextParsedAs(ToRgbString(c), Record(Fields4("r", "g", "b", ReadBackAll(ws4)), None),
      Parsed(true, Some("rgb"), x as real, y as real, z as real, k as real / 100.0));
  }

  lemma RgbaPrefix(ws: seq<Written>, ws4: seq<Written>)
    requires |ws| == 3 && AllWritable(ws) && |ws4| == 4 && ws4[..3] == ws && Writable(ws4[3])
    ensures AllWritable(ws4)
    ensures ReadBackAll(ws4)[..3] == ReadBackAll(ws)
    ensures ReadBackAll(ws4)[3] == ReadBack(ws4[3])
  {
    assert forall i :: 0 <= i < 3 ==> ws4[i] == ws[i];
  }

  /** Parsing `toRgbString`'s text gives the rounded channels, in the `rgb`
      format, with the alpha the text carries: 1 for a fully opaque colour,
      `roundA` otherwise. */
  lemma RgbStringRoundTrip(c: Color)
    requires WellFormed(c)
    ensures var x := WrittenAlpha(c);
      Make(Arg(StrArg(ToRgbString(c))), None)
        == Color(true, Some("rgb"), x, Rounded(c.r), Rounded(c.g), Rounded(c.b), x, x)
  {
    var k := if c.a == 1.0 then 100 else AlphaHundredths(c.a);
    if c.a == 1.0 {
      OpaqueRgbText(c);
    } else {
      TranslucentRgbText(c);
    }
    CapturedExactly(InputToRgb(StrArg(ToRgbString(c))), "rgb", RoundByte(c.r), RoundByte(c.g), RoundByte(c.b), k);
  }

  // ---------------------------------------------------------------------
  // toHex, toHexString and toName

  /** `toHex(allow3Char)`. */
  function HexText(c: Color, allow3Char: bool): (h: string)
    requires WellFormed(c)
    ensures IsHexShape(h) && IsLowerHex(h)
  {
    RgbToHexRoundTrip(c.r, c.g, c.b, allow3Char);
    RgbToHex(c.r, c.g, c.b, allow3Char)
  }

  /** `toHexString(allow3Char)`. */
  function HexString(c: Color, allow3Char: bool): string
    requires WellFormed(c)
  {
    "#" + HexText(c, allow3Char)
  }

  /** Parsing `toHexString`'s text gives the rounded channels, fully
      opaque, in the `hex` format, whether or not the short form was
      allowed. */
  lemma HexStringRoundTrip(c: Color, allow3Char: bool)
    requires WellFormed(c)
    ensures Make(Arg(StrArg(HexString(c, allow3Char))), None)
      == Color(true, Some("hex"), 1.0, Rounded(c.r), Rounded(c.g), Rounded(c.b), 1.0, 1.0)
  {
    HexColourRoundTrip(c.r, c.g, c.b, allow3Char);
    CapturedExactly(InputToRgb(StrArg(HexString(c, allow3Char))), "hex", RoundByte(c.r), RoundByte(c.g), RoundByte(c.b), 100);
  }

  /** `toName`: `transparent` for a zero alpha, otherwise the keyword
      `hexNames` holds for the short hex text; `None` is its `false`. */
  function ToName(c: Color): (n: Option<string>)
    requires WellFormed(c)
    ensures c.a == 0.0 ==> n == Some("transparent")
    ensures c.a != 0.0 ==> (n.Some? <==> HexText(c, true) in HexNames)
  {
    if c.a == 0.0 then Some("transparent")
    else
      var key := RgbToHex(c.r, c.g, c.b, true);
      if key in HexNames then Some(HexNames[key]) else None
  }

  /** A word of lower-case letters is already in normal form. */
  lemma LetterWordNormal(n: string)
    requires forall i :: 0 <= i < |n| ==> 'a' <= n[i] <= 'z'
    ensures Normalize(n) == n
  {
    assert TrimLeft(n) == n;
    assert TrimRight(n) == n;
    forall i | 0 <= i < |n| ensures LowerChar(n[i]) == n[i] {
    }
    assert ToLower(n) == n;
  }

  /** A record of the channels `rgbToHex` wrote, read back by the hex
      matchers, holds the rounded channels. */
  lemma HexRecordChannels(c: Color, fmt: string)
    requires WellFormed(c)
    ensures HexRecord(HexText(c, true), fmt).fields
      == map["r" := Num(Rounded(c.r)), "g" := Num(Rounded(c.g)), "b" := Num(Rounded(c.b))]
  {
    RgbToHexRoundTrip(c.r, c.g, c.b, true);
  }

  /** The keyword `toName` gives a colour that is not fully transparent
      reads back as its rounded channels, fully opaque, in the `name` format
      (a fully transparent colour is named `transparent`, which
      `TransparentIsClear` reads as clear black). */
  lemma NameRoundTrip(c: Color, n: string)
    requires WellFormed(c) && c.a != 0.0 && ToName(c) == Some(n)
    ensures InputToRgb(StrArg(n)) == Parsed(true, Some("name"), Rounded(c.r), Rounded(c.g), Rounded(c.b), 1.0)
  {
    HexNameLooksUp(HexText(c, true));
    KeywordReads(c, n);
  }

  /** The keyword naming a colour's own hex text reads as its rounded
      channels, fully opaque. */
  lemma KeywordReads(c: Color, n: string)
    requires WellFormed(c) && NameToHex(n) == Some(HexText(c, true))
    ensures InputToRgb(StrArg(n)) == Parsed(true, Some("name"), Rounded(c.r), Rounded(c.g), Rounded(c.b), 1.0)
  {
    var key := HexText(c, true);
    KeywordObject(n, key);
    NamedRecordRead(c);
    TextParsedAs(n, HexRecord(key, "name"), Parsed(true, Some("name"), Rounded(c.r), Rounded(c.g), Rounded(c.b), 1.0));
  }

  /** A colour keyword is matched as the hex text it names. */
  lemma KeywordObject(n: string, key: string)
    requires NameToHex(n) == Some(key)
    ensures IsHexShape(key) && StringInputToObject(n) == Some(HexRecord(key, "name"))
  {
    NameGivesHex(n);
    LetterWordNormal(n);
    NamedColour(n, key);
  }

  /** The record of a colour's own hex text, in the `name` format, reads
      as the rounded channels, fully opaque. */
  lemma NamedRecordRead(c: Color)
    requires WellFormed(c)
    ensures RecordToRgb(HexRecord(HexText(c, true), "name"))
      == Parsed(true, Some("name"), Rounded(c.r), Rounded(c.g), Rounded(c.b), 1.0)
  {
    HexRecordChannels(c, "name");
    KeptRound(c.r);
    KeptRound(c.g);
    KeptRound(c.b);
    ByteRecordKept(HexRecord(HexText(c, true), "name"), Rounded(c.r), Rounded(c.g), Rounded(c.b));
  }

  // ---------------------------------------------------------------------
  // toHsl, toHsv and their strings

  /** `mathRound` of a non-negative number. */
  function RoundNat(x: real): (n: nat)
    requires 0.0 <= x
    ensures n == Round(x)
  {
    Round(x)
  }

  /** The channels as `rgbToHsl` and `rgbToHsv` are handed them. */
  function Channels(c: Color): (u: Rgb)
    requires WellFormed(c)
    ensures UnitRgb(u) && Scale255(u) == RgbToRgb(Num(c.r), Num(c.g), Num(c.b))
  {
    Rgb(Bound01(Num(c.r), 255.0), Bound01(Num(c.g), 255.0), Bound01(Num(c.b), 255.0))
  }

  /** `toHsl`: the hue in degrees, saturation and lightness in [0,1], and
      the alpha. */
  function ToHsl(c: Color): (rec: Record)
    requires WellFormed(c)
    ensures rec.fields.Keys == {"h", "s", "l", "a"} && rec.format.None?
    ensures rec.fields["h"].Num? && rec.fields["s"].Num? && rec.fields["l"].Num?
    ensures 0.0 <= ParseFloat(rec.fields["h"]) < 360.0
    ensures InUnit(ParseFloat(rec.fields["s"])) && InUnit(ParseFloat(rec.fields["l"]))
    ensures rec.fields["a"] == Num(c.a)
  {
    var x := HslOf(Channels(c));
    Record(map["h" := Num(x.h * 360.0), "s" := Num(x.s), "l" := Num(x.l), "a" := Num(c.a)], None)
  }

  /** The numbers of `toHsl` describe the colour: turning them back into
      channels with `hslToRgb`'s unit core gives the channels `rgbToRgb`
      reads from the colour. */
  lemma ToHslDescribes(c: Color)
    requires WellFormed(c)
    ensures var f := ToHsl(c).fields;
      Scale255(RgbOfHsl(Hsl(ParseFloat(f["h"]) / 360.0, ParseFloat(f["s"]), ParseFloat(f["l"]))))
        == RgbToRgb(Num(c.r), Num(c.g), Num(c.b))
  {
    HslBack(Channels(c), ToHsl(c).fields);
  }

  /** Degrees, saturation and lightness that are the HSL coordinates of a
      colour with unit channels lead back to it. */
  lemma HslBack(u: Rgb, f: map<string, Field>)
    requires UnitRgb(u) && {"h", "s", "l"} <= f.Keys
    requires var x := HslOf(u); f["h"] == Num(x.h * 360.0) && f["s"] == Num(x.s) && f["l"] == Num(x.l)
    ensures var x := Hsl(ParseFloat(f["h"]) / 360.0, ParseFloat(f["s"]), ParseFloat(f["l"]));
      InUnit(x.h) && InUnit(x.s) && InUnit(x.l) && Scale255(RgbOfHsl(x)) == Scale255(u)
  {
    var x := HslOf(u);
    assert x.h * 360.0 / 360.0 == x.h;
    HslRoundTrip(u);
  }

  /** `toHsv`: the hue in degrees, saturation and value in [0,1], and the
      alpha. */
  function ToHsv(c: Color): (rec: Record)
    requires WellFormed(c)
    ensures rec.fields.Keys == {"h", "s", "v", "a"} && rec.format.None?
    ensures rec.fields["h"].Num? && rec.fields["s"].Num? && rec.fields["v"].Num?
    ensures 0.0 <= ParseFloat(rec.fields["h"]) < 360.0
    ensures InUnit(ParseFloat(rec.fields["s"])) && InUnit(ParseFloat(rec.fields["v"]))
    ensures rec.fields["a"] == Num(c.a)
  {
    var x := HsvOf(Channels(c));
    Record(map["h" := Num(x.h * 360.0), "s" := Num(x.s), "v" := Num(x.v), "a" := Num(c.a)], None)
  }

  /** The numbers of `toHsv` describe the colour, as for `toHsl`. */
  lemma ToHsvDescribes(c: Color)
    requires WellFormed(c)
    ensures var f := ToHsv(c).fields;
      Scale255(RgbOfHsv(Hsv(ParseFloat(f["h"]) / 360.0, ParseFloat(f["s"]), ParseFloat(f["v"]))))
        == RgbToRgb(Num(c.r), Num(c.g), Num(c.b))
  {
    var u := Channels(c);
    var x := HsvOf(u);
    HsvRoundTrip(u);
    assert x.h * 360.0 / 360.0 == x.h;
  }

  /** A hue in whole degrees and two whole percentages, as the HSL and HSV
      strings write them. */
  function WheelNumbers(h: nat, s: nat, x: nat): (ws: seq<Written>)
    ensures |ws| == 3 && AllWritable(ws)
  {
    [Whole(h, false), Whole(s, true), Whole(x, true)]
  }

  /** The three numbers `toHslString` writes: rounded degrees, and rounded
      percentages of saturation and lightness. */
  function HslNumbers(c: Color): (ws: seq<Written>)
    requires WellFormed(c)
    ensures |ws| == 3 && AllWritable(ws)
  {
    var x := HslOf(Channels(c));
    WheelNumbers(RoundNat(x.h * 360.0), RoundNat(x.s * 100.0), RoundNat(x.l * 100.0))
  }

  /** `toHslString`: `hsl(h, s%, l%)` when fully opaque, otherwise
      `hsla(h, s%, l%, roundA)`. */
  function HslString(c: Color): string
    requires WellFormed(c)
  {
    if c.a == 1.0 then FunctionText("hsl", HslNumbers(c))
    else FunctionText("hsla", HslNumbers(c) + [AlphaNumber(c)])
  }

  /** The three numbers `toHsvString` writes. */
  function HsvNumbers(c: Color): (ws: seq<Written>)
    requires WellFormed(c)
    ensures |ws| == 3 && AllWritable(ws)
  {
    var x := HsvOf(Channels(c));
    WheelNumbers(RoundNat(x.h * 360.0), RoundNat(x.s * 100.0), RoundNat(x.v * 100.0))
  }

  /** `toHsvString`: `hsv(h, s%, v%)` when fully opaque, otherwise
      `hsva(h, s%, v%, roundA)`. */
  function HsvString(c: Color): string
    requires WellFormed(c)
  {
    if c.a == 1.0 then FunctionText("hsv", HsvNumbers(c))
    else FunctionText("hsva", HsvNumbers(c) + [AlphaNumber(c)])
  }

  /** The written numbers `h`, `s%`, `x%` as the matchers capture them. */
  lemma ReadWheelNumbers(ws: seq<Written>, h: nat, s: nat, x: nat)
    requires ws == WheelNumbers(h, s, x)
    ensures AllWritable(ws)
    ensures ReadBackAll(ws) == [Text(h as real, false, false), Text(s as real, false, true), Text(x as real, false, true)]
  {
  }

  /** A record of a hue text and two percentage texts under `h`, `s` and
      `l` reads as `hslToRgb` of those texts, fully opaque, in the `hsl`
      format. */
  lemma HslRecordRead(m: seq<Field>)
    requires |m| == 3 && m[1].Text? && m[1].percent && m[2].Text? && m[2].percent
    ensures var q := HslToRgb(m[0], m[1], m[2]);
      RecordToRgb(Record(Fields3("h", "s", "l", m), None)) == Parsed(true, Some("hsl"), q.r, q.g, q.b, 1.0)
  {
    var f := Fields3("h", "s", "l", m);
    assert f["h"] == m[0] && f["s"] == m[1] && f["l"] == m[2] && "a" !in f;
    assert !Has3(f, "r", "g", "b") && !Has3(f, "h", "s", "v");
  }

  /** The same record with an alpha text in hundredths under `a`. */
  lemma HslaRecordRead(m: seq<Field>, k: nat)
    requires |m| == 4 && m[1].Text? && m[1].percent && m[2].Text? && m[2].percent
    requires k <= 100 && m[3] == Text(k as real / 100.0, 0 < k < 100, false)
    ensures var q := HslToRgb(m[0], m[1], m[2]);
      RecordToRgb(Record(Fields4("h", "s", "l", m), None)) == Parsed(true, Some("hsl"), q.r, q.g, q.b, k as real / 100.0)
  {
    var f := Fields4("h", "s", "l", m);
    assert f["h"] == m[0] && f["s"] == m[1] && f["l"] == m[2] && f["a"] == m[3];
    assert !Has3(f, "r", "g", "b") && !Has3(f, "h", "s", "v");
  }

  /** A record of a hue text and two percentage texts under `h`, `s` and
      `v` reads as `hsvToRgb` of those texts, fully opaque, in the `hsv`
      format. */
  lemma HsvRecordRead(m: seq<Field>)
    requires |m| == 3 && m[1].Text? && m[1].percent && m[2].Text? && m[2].percent
    ensures var q := HsvToRgb(m[0], m[1], m[2]);
      RecordToRgb(Record(Fields3("h", "s", "v", m), None)) == Parsed(true, Some("hsv"), q.r, q.g, q.b, 1.0)
  {
    var f := Fields3("h", "s", "v", m);
    assert f["h"] == m[0] && f["s"] == m[1] && f["v"] == m[2] && "a" !in f;
    assert !Has3(f, "r", "g", "b");
  }

  /** `hsl(h, s%, l%)` reads as `hslToRgb` of the three numbers. */
  lemma HslTextReads(ws: seq<Written>, h: nat, s: nat, l: nat)
    requires ws == WheelNumbers(h, s, l)
    ensures var q := HslToRgb(Text(h as real, false, false), Text(s as real, false, true), Text(l as real, false, true));
      InputToRgb(StrArg(FunctionText("hsl", ws))) == Parsed(true, Some("hsl"), q.r, q.g, q.b, 1.0)
  {
    ReadWheelNumbers(ws, h, s, l);
    var m := ReadBackAll(ws);
    var q := HslToRgb(m[0], m[1], m[2]);
    HslTextObject(ws);
    HslRecordRead(m);
    TextParsedAs(FunctionText("hsl", ws), Record(Fields3("h", "s", "l", m), None), Parsed(true, Some("hsl"), q.r, q.g, q.b, 1.0));
  }

  /** `hsla(h, s%, l%, alpha)` with the alpha in hundredths reads as
      `hslToRgb` of the three numbers and that alpha. */
  lemma HslaTextReads(ws: seq<Written>, ws4: seq<Written>, h: nat, s: nat, l: nat, k: nat)
    requires ws == WheelNumbers(h, s, l)
    requires k <= 100 && ws4 == ws + [Hundredths(k)]
    ensures var q := HslToRgb(Text(h as real, false, false), Text(s as real, false, true), Text(l as real, false, true));
      InputToRgb(StrArg(FunctionText("hsla", ws4))) == Parsed(true, Some("hsl"), q.r, q.g, q.b, k as real / 100.0)
  {
    ReadWheelNumbers(ws, h, s, l);
    var m := ReadBackAll(ws);
    var q := HslToRgb(m[0], m[1], m[2]);
    RgbaPrefix(ws, ws4);
    var m4 := ReadBackAll(ws4);
    assert m4[0] == m[0] && m4[1] == m[1] && m4[2] == m[2];
    HslaTextObject(ws4);
    HslaRecordRead(m4, k);
    TextParsedAs(FunctionText("hsla", ws4), Record(Fields4("h", "s", "l", m4), None),
      Parsed(true, Some("hsl"), q.r, q.g, q.b, k as real / 100.0));
  }

  /** `hsv(h, s%, v%)` reads as `hsvToRgb` of the three numbers. */
  lemma HsvTextReads(ws: seq<Written>, h: nat, s: nat, v: nat)
    requires ws == WheelNumbers(h, s, v)
    ensures var q := HsvToRgb(Text(h as real, false, false), Text(s as real, false, true), Text(v as real, false, true));
      InputToRgb(StrArg(FunctionText("hsv", ws))) == Parsed(true, Some("hsv"), q.r, q.g, q.b, 1.0)
  {
    ReadWheelNumbers(ws, h, s, v);
    var m := ReadBackAll(ws);
    var q := HsvToRgb(m[0], m[1], m[2]);
    HsvTextObject(ws);
    HsvRecordRead(m);
    TextParsedAs(FunctionText("hsv", ws), Record(Fields3("h", "s", "v", m), None), Parsed(true, Some("hsv"), q.r, q.g, q.b, 1.0));
  }

  /** Parsing `toHslString`'s text gives `hslToRgb` of the degrees and
      percentages it shows, in the `hsl` format, with the alpha the text
      carries. */
  lemma HslStringReads(c: Color, h: nat, s: nat, l: nat)
    requires WellFormed(c) && HslNumbers(c) == WheelNumbers(h, s, l)
    ensures var q := HslToRgb(Text(h as real, false, false), Text(s as real, false, true), Text(l as real, false, true));
      InputToRgb(StrArg(HslString(c))) == Parsed(true, Some("hsl"), q.r, q.g, q.b, WrittenAlpha(c))
  {
    if c.a == 1.0 {
      HslTextReads(HslNumbers(c), h, s, l);
    } else {
      HslaTextReads(HslNumbers(c), HslNumbers(c) + [AlphaNumber(c)], h, s, l, AlphaHundredths(c.a));
    }
  }

  /** Parsing `toHsvString`'s text of a fully opaque colour gives
      `hsvToRgb` of the degrees and percentages it shows, in the `hsv`
      format. */
  lemma HsvStringReads(c: Color, h: nat, s: nat, v: nat)
    requires WellFormed(c) && c.a == 1.0 && HsvNumbers(c) == WheelNumbers(h, s, v)
    ensures var q := HsvToRgb(Text(h as real, false, false), Text(s as real, false, true), Text(v as real, false, true));
      InputToRgb(StrArg(HsvString(c))) == Parsed(true, Some("hsv"), q.r, q.g, q.b, 1.0)
  {
    HsvTextReads(HsvNumbers(c), h, s, v);
  }

  /** `toHsvString` of a translucent colour writes `hsva(...)`, which the
      string matchers do not accept: it reads as an invalid colour. */
  lemma HsvaStringUnread(c: Color)
    requires WellFormed(c) && c.a != 1.0
    ensures !InputToRgb(StrArg(HsvString(c))).ok
  {
    var ws4 := HsvNumbers(c) + [AlphaNumber(c)];
    RgbaPrefix(HsvNumbers(c), ws4);
    HsvaTextUnread(ws4);
  }
}
