/** The rest of a colour object's value methods (`toPercentageRgb`,
    `toPercentageRgbString`, `toString`) and the two static helpers that
    build on them, `tinycolor.equals` and `tinycolor.fromRatio`. */
module ColorString {
  import opened JsValues
  import opened Bounds
  import opened Conversions
  import opened Hex
  import opened Names
  import opened Parser
  import opened ColorText
  import opened TinyColor

  // ---------------------------------------------------------------------
  // toPercentageRgb and toPercentageRgbString

  /** `mathRound(bound01(x, 255) * 100)`: a channel as a whole percentage
      of 255, within 1.3 of the channel once scaled back. */
  function PercentOf(x: real): (p: nat)
    requires 0.0 <= x <= 255.0
    ensures p <= 100
    ensures Abs(p as real * 2.55 - x) < 1.3
  {
    var u := Bound01(Num(x), 255.0);
    PercentScale(x, u);
    RoundNat(u * 100.0)
  }

  lemma PercentScale(x: real, u: real)
    requires 0.0 <= x <= 255.0 && u == Bound01(Num(x), 255.0)
    ensures Abs(u * 100.0 * 2.55 - x) < 0.001
  {
    if x <= 255.0 - Epsilon {
      assert u == x / 255.0;
    }
  }

  /** The three percentages both percentage methods write. */
  function PercentNumbers(c: Color): (ws: seq<Written>)
    requires WellFormed(c)
    ensures |ws| == 3 && AllWritable(ws)
  {
    [Whole(PercentOf(c.r), true), Whole(PercentOf(c.g), true), Whole(PercentOf(c.b), true)]
  }

  /** `toPercentageRgb`: the texts `"p%"` of the three percentages, and the
      alpha. */
  function ToPercentageRgb(c: Color): (rec: Record)
    requires WellFormed(c)
    ensures rec.fields.Keys == {"r", "g", "b", "a"} && rec.format.None?
    ensures IsPercentage(rec.fields["r"]) && IsPercentage(rec.fields["g"]) && IsPercentage(rec.fields["b"])
    ensures rec.fields["a"] == Num(c.a)
  {
    Record(map["r" := NumText(PercentOf(c.r) as real, true), "g" := NumText(PercentOf(c.g) as real, true),
               "b" := NumText(PercentOf(c.b) as real, true), "a" := Num(c.a)], None)
  }

  /** `toPercentageRgbString`: `rgb(r%, g%, b%)` when fully opaque,
      otherwise `rgba(r%, g%, b%, roundA)`. */
  function PercentageRgbString(c: Color): string
    requires WellFormed(c)
  {
    if c.a == 1.0 then FunctionText("rgb", PercentNumbers(c))
    else FunctionText("rgba", PercentNumbers(c) + [AlphaNumber(c)])
  }

  /** What `rgbToRgb` makes of the text `"p%"` for a channel. */
  function PercentChannel(p: nat): (x: real)
    requires p <= 100
    ensures 0.0 <= x <= 255.0
    ensures Abs(x - p as real * 2.55) < 0.01
  {
    var u := Bound01(Text(p as real, false, true), 255.0);
    assert WithinHundredth(u, p as real, 255.0);
    u * 255.0
  }

  /** A record of three percentage texts, with or without an alpha in
      hundredths, reads in the `prgb` format as the channels those
      percentages give. */
  lemma PercentRecordRead(f: map<string, Field>, x: nat, y: nat, z: nat, a: real)
    requires x <= 100 && y <= 100 && z <= 100 && 0.0 <= a <= 1.0
    requires "r" in f && "g" in f && "b" in f
    requires f["r"] == Text(x as real, false, true) && f["g"] == Text(y as real, false, true)
    requires f["b"] == Text(z as real, false, true)
    requires "a" in f ==> ParseFloat(f["a"]) == a
    requires "a" !in f ==> a == 1.0
    ensures RecordToRgb(Record(f, None))
      == Parsed(true, Some("prgb"), PercentChannel(x), PercentChannel(y), PercentChannel(z), a)
  {
    assert RecordColour(f) == Rgb(PercentChannel(x), PercentChannel(y), PercentChannel(z));
  }

  /** Parsing `toPercentageRgbString`'s text gives, in the `prgb` format,
      channels within 2 of the colour's own, with the alpha the text
      carries (1 when fully opaque, `roundA` otherwise). */
  lemma PercentageStringRoundTrip(c: Color)
    requires WellFormed(c)
    ensures var p := InputToRgb(StrArg(PercentageRgbString(c)));
      && p.ok && p.format == Some("prgb") && p.a == WrittenAlpha(c)
      && Abs(p.r - c.r) < 2.0 && Abs(p.g - c.g) < 2.0 && Abs(p.b - c.b) < 2.0
  {
    hide RecordToRgb, StringInputToObject, InputToRgb, PercentChannel, PercentOf, Bound01, PercentageRgbString;
    var x, y, z := PercentOf(c.r), PercentOf(c.g), PercentOf(c.b);
    var p := Parsed(true, Some("prgb"), PercentChannel(x), PercentChannel(y), PercentChannel(z), WrittenAlpha(c));
    if c.a == 1.0 {
      OpaquePercentText(c, p);
    } else {
      TranslucentPercentText(c, p);
    }
  }

  lemma OpaquePercentText(c: Color, p: Parsed)
    requires WellFormed(c) && c.a == 1.0
    requires p == Parsed(true, Some("prgb"), PercentChannel(PercentOf(c.r)), PercentChannel(PercentOf(c.g)),
                         PercentChannel(PercentOf(c.b)), 1.0)
    ensures InputToRgb(StrArg(PercentageRgbString(c))) == p
  {
    hide RecordToRgb, StringInputToObject, InputToRgb, PercentChannel, PercentOf, Bound01;
    var ws := PercentNumbers(c);
    var x, y, z := PercentOf(c.r), PercentOf(c.g), PercentOf(c.b);
    assert ReadBackAll(ws) == [Text(x as real, false, true), Text(y as real, false, true), Text(z as real, false, true)];
    RgbTextObject(ws);
    var rec := Record(Fields3("r", "g", "b", ReadBackAll(ws)), None);
    PercentRecordRead(rec.fields, x, y, z, 1.0);
    TextParsedAs(PercentageRgbString(c), rec, p);
  }

  lemma TranslucentPercentText(c: Color, p: Parsed)
    requires WellFormed(c) && c.a != 1.0
    requires p == Parsed(true, Some("prgb"), PercentChannel(PercentOf(c.r)), PercentChannel(PercentOf(c.g)),
                         PercentChannel(PercentOf(c.b)), c.roundA)
    ensures InputToRgb(StrArg(PercentageRgbString(c))) == p
  {
    hide RecordToRgb, StringInputToObject, InputToRgb, PercentChannel, PercentOf, Bound01;
    var ws := PercentNumbers(c);
    var x, y, z := PercentOf(c.r), PercentOf(c.g), PercentOf(c.b);
    var k := AlphaHundredths(c.a);
    var ws4 := ws + [AlphaNumber(c)];
    RgbaPrefix(ws, ws4);
    RgbaTextObject(ws4);
    var m := ReadBackAll(ws4);
    assert m[0] == ReadBackAll(ws)[0] && m[1] == ReadBackAll(ws)[1] && m[2] == ReadBackAll(ws)[2];
    assert m[0] == Text(x as real, false, true) && m[1] == Text(y as real, false, true) && m[2] == Text(z as real, false, true);
    var rec := Record(Fields4("r", "g", "b", m), None);
    PercentRecordRead(rec.fields, x, y, z, k as real / 100.0);
    TextParsedAs(PercentageRgbString(c), rec, p);
  }

  // ---------------------------------------------------------------------
  // toString

  /** The stored formats that cannot carry an alpha. */
  predicate Opaque(fmt: Option<string>)
  {
    fmt == Some("hex") || fmt == Some("hex6") || fmt == Some("hex3") || fmt == Some("name")
  }

  /** The text `toString` builds for a format before its fallback; `None`
      stands for `false` (an unknown format, or a colour `toName` cannot
      name). */
  function Formatted(c: Color, fmt: Option<string>): (s: Option<string>)
    requires WellFormed(c)
  {
    if fmt == Some("rgb") then Some(ToRgbString(c))
    else if fmt == Some("prgb") then Some(PercentageRgbString(c))
    else if fmt == Some("hex") || fmt == Some("hex6") then Some(HexString(c, false))
    else if fmt == Some("hex3") then Some(HexString(c, true))
    else if fmt == Some("name") then ToName(c)
    else if fmt == Some("hsl") then Some(HslString(c))
    else if fmt == Some("hsv") then Some(HsvString(c))
    else None
  }

  /** `toString(format)`: the format asked for, else the stored one. A
      translucent colour whose stored format cannot carry an alpha is written
      as `rgba(...)` unless a format was asked for; an unknown format or an
      unnamed colour falls back to the six-digit hex string. */
  function ToString(c: Color, format: Option<string>): (s: string)
    requires WellFormed(c)
    ensures !Truthy(format) && 0.0 < c.a < 1.0 && Opaque(c.format) ==> s == ToRgbString(c)
    ensures Truthy(format) && format.value == "rgb" ==> s == ToRgbString(c)
    ensures ((Truthy(format) || !(0.0 < c.a < 1.0) || !Opaque(c.format))
             && Formatted(c, OrElse(format, c.format)).None?) ==> s == HexString(c, false)
    ensures !Truthy(format) && !Truthy(c.format) ==> s == HexString(c, false)
  {
    var fmt := OrElse(format, c.format);
    if !Truthy(format) && 0.0 < c.a < 1.0 && Opaque(fmt) then ToRgbString(c)
    else
      match Formatted(c, fmt)
      case Some(t) => t
      case None => HexString(c, false)
  }

  /** What `inputToRGB` reads from a text is a valid colour with exactly
      the rounded channels of `c`. */
  predicate ReadsAsRounded(s: string, c: Color)
    requires WellFormed(c)
  {
    var p := InputToRgb(StrArg(s));
    p.ok && p.r == Rounded(c.r) && p.g == Rounded(c.g) && p.b == Rounded(c.b)
  }

  /** Whatever `toString` writes in the `rgb`, hex or (for a colour that
      is not fully transparent) `name` formats, or as its hex fallback,
      reads back as the colour's rounded channels; only the `prgb`, `hsl`
      and `hsv` texts go through a coarser scale. */
  lemma ToStringReadsBack(c: Color, format: Option<string>)
    requires WellFormed(c)
    requires var fmt := OrElse(format, c.format);
      fmt != Some("prgb") && fmt != Some("hsl") && fmt != Some("hsv")
    requires OrElse(format, c.format) == Some("name") ==> c.a != 0.0
    ensures ReadsAsRounded(ToString(c, format), c)
  {
    var fmt := OrElse(format, c.format);
    ToStringWrites(c, format);
    hide *;
    if !Truthy(format) && 0.0 < c.a < 1.0 && Opaque(fmt) {
      RgbTextRounded(c);
    } else if fmt == Some("rgb") {
      RgbTextRounded(c);
    } else if fmt == Some("hex3") {
      HexTextRounded(c, true);
    } else if fmt == Some("name") && ToName(c).Some? {
      NameTextRounded(c);
    } else {
      HexTextRounded(c, false);
    }
  }

  /** Which text `toString` writes outside the `prgb`, `hsl` and `hsv`
      formats. */
  lemma ToStringWrites(c: Color, format: Option<string>)
    requires WellFormed(c)
    requires var fmt := OrElse(format, c.format);
      fmt != Some("prgb") && fmt != Some("hsl") && fmt != Some("hsv")
    ensures var fmt := OrElse(format, c.format);
      ToString(c, format) ==
        if !Truthy(format) && 0.0 < c.a < 1.0 && Opaque(fmt) then ToRgbString(c)
        else if fmt == Some("rgb") then ToRgbString(c)
        else if fmt == Some("hex3") then HexString(c, true)
        else if fmt == Some("name") && ToName(c).Some? then ToName(c).value
        else HexString(c, false)
  {
    hide InputToRgb, StringInputToObject, HexString, ToRgbString, ToName,
      PercentageRgbString, HslString, HsvString;
  }

  lemma RgbTextRounded(c: Color)
    requires WellFormed(c)
    ensures ReadsAsRounded(ToRgbString(c), c)
  {
    if c.a == 1.0 { OpaqueRgbText(c); } else { TranslucentRgbText(c); }
  }

  lemma HexTextRounded(c: Color, allow3Char: bool)
    requires WellFormed(c)
    ensures ReadsAsRounded(HexString(c, allow3Char), c)
  {
    HexColourRoundTrip(c.r, c.g, c.b, allow3Char);
  }

  lemma NameTextRounded(c: Color)
    requires WellFormed(c) && c.a != 0.0 && ToName(c).Some?
    ensures ReadsAsRounded(ToName(c).value, c)
  {
    NameRoundTrip(c, ToName(c).value);
  }

  // ---------------------------------------------------------------------
  // tinycolor.equals and tinycolor.fromRatio

  /** A falsy argument of `tinycolor.equals` (the empty string; `null` and
      `undefined` have no counterpart here). */
  predicate Falsy(x: Input)
  {
    x == Arg(StrArg(""))
  }

  /** `tinycolor.equals`: two colours are equal when their `toRgbString`
      texts are; a falsy argument is never equal to anything. */
  function Equals(x: Input, y: Input): (r: bool)
    requires x.Tiny? ==> WellFormed(x.color)
    requires y.Tiny? ==> WellFormed(y.color)
    ensures r ==> !Falsy(x) && !Falsy(y)
  {
    if Falsy(x) || Falsy(y) then false
    else ToRgbString(Make(x, None)) == ToRgbString(Make(y, None))
  }

  /** Equal colours have the same rounded channels and write the same
      alpha. */
  lemma EqualsSameColour(x: Input, y: Input)
    requires x.Tiny? ==> WellFormed(x.color)
    requires y.Tiny? ==> WellFormed(y.color)
    requires Equals(x, y)
    ensures var c, d := Make(x, None), Make(y, None);
      && Rounded(c.r) == Rounded(d.r) && Rounded(c.g) == Rounded(d.g) && Rounded(c.b) == Rounded(d.b)
      && WrittenAlpha(c) == WrittenAlpha(d)
  {
    var c, d := Make(x, None), Make(y, None);
    RgbStringRoundTrip(c);
    RgbStringRoundTrip(d);
  }

  /** Two colours write the same `toRgbString` text exactly when their
      rounded channels agree, both or neither are fully opaque, and they
      write the same alpha. */
  lemma RgbStringSame(c: Color, d: Color)
    requires WellFormed(c) && WellFormed(d)
    ensures ToRgbString(c) == ToRgbString(d) <==>
      && Rounded(c.r) == Rounded(d.r) && Rounded(c.g) == Rounded(d.g) && Rounded(c.b) == Rounded(d.b)
      && (c.a == 1.0 <==> d.a == 1.0)
      && WrittenAlpha(c) == WrittenAlpha(d)
  {
    if ToRgbString(c) == ToRgbString(d) {
      SameRgbStringRead(c, d);
    }
    if && Rounded(c.r) == Rounded(d.r) && Rounded(c.g) == Rounded(d.g) && Rounded(c.b) == Rounded(d.b)
       && (c.a == 1.0 <==> d.a == 1.0) && WrittenAlpha(c) == WrittenAlpha(d)
    {
      SameRgbStringWritten(c, d);
    }
  }

  lemma SameRgbStringRead(c: Color, d: Color)
    requires WellFormed(c) && WellFormed(d) && ToRgbString(c) == ToRgbString(d)
    ensures && Rounded(c.r) == Rounded(d.r) && Rounded(c.g) == Rounded(d.g) && Rounded(c.b) == Rounded(d.b)
      && (c.a == 1.0 <==> d.a == 1.0)
      && WrittenAlpha(c) == WrittenAlpha(d)
  {
    hide *;
    RgbStringRoundTrip(c);
    RgbStringRoundTrip(d);
    RgbStringHead(c);
    RgbStringHead(d);
  }

  lemma SameRgbStringWritten(c: Color, d: Color)
    requires WellFormed(c) && WellFormed(d)
    requires && Rounded(c.r) == Rounded(d.r) && Rounded(c.g) == Rounded(d.g) && Rounded(c.b) == Rounded(d.b)
      && (c.a == 1.0 <==> d.a == 1.0)
      && WrittenAlpha(c) == WrittenAlpha(d)
    ensures ToRgbString(c) == ToRgbString(d)
  {
    hide FunctionText, Make;
    assert RgbNumbers(c) == RgbNumbers(d);
    if c.a != 1.0 {
      assert AlphaHundredths(c.a) as real == AlphaHundredths(d.a) as real;
      assert AlphaNumber(c) == AlphaNumber(d);
    }
  }

  /** `toRgbString` starts `rgba` exactly when the colour is not fully
      opaque. */
  lemma RgbStringHead(c: Color)
    requires WellFormed(c)
    ensures |ToRgbString(c)| >= 4
    ensures ToRgbString(c)[..4] == (if c.a == 1.0 then "rgb(" else "rgba")
  {
  }

  /** `equals` holds exactly when neither argument is falsy and the two
      colours agree in their rounded channels, their full opacity and the
      alpha they write. */
  lemma EqualsExactly(x: Input, y: Input)
    requires x.Tiny? ==> WellFormed(x.color)
    requires y.Tiny? ==> WellFormed(y.color)
    ensures var c, d := Make(x, None), Make(y, None);
      Equals(x, y) <==>
        && !Falsy(x) && !Falsy(y)
        && Rounded(c.r) == Rounded(d.r) && Rounded(c.g) == Rounded(d.g) && Rounded(c.b) == Rounded(d.b)
        && (c.a == 1.0 <==> d.a == 1.0)
        && WrittenAlpha(c) == WrittenAlpha(d)
  {
    hide Make, ToRgbString, Rounded, WrittenAlpha;
    RgbStringSame(Make(x, None), Make(y, None));
  }

  /** Two texts for the same colour that `equals` still tells apart: an
      alpha of 0.999 is written as `rgba(0, 0, 0, 1)`, not `rgb(0, 0, 0)`. */
  lemma EqualsSeesNearOpaque()
    ensures var c := Color(true, Some("rgb"), 0.999, 0.0, 0.0, 0.0, 0.999, 1.0);
      var d := Color(true, Some("rgb"), 1.0, 0.0, 0.0, 0.0, 1.0, 1.0);
      && WellFormed(c) && WellFormed(d) && WrittenAlpha(c) == WrittenAlpha(d)
      && !Equals(Tiny(c), Tiny(d))
  {
    var c := Color(true, Some("rgb"), 0.999, 0.0, 0.0, 0.0, 0.999, 1.0);
    var d := Color(true, Some("rgb"), 1.0, 0.0, 0.0, 0.0, 1.0, 1.0);
    assert AlphaHundredths(0.999) == 100;
    assert ToRgbString(c)[..4] == "rgba";
    assert ToRgbString(d)[..4] == "rgb(";
  }

  /** The object `fromRatio` builds: every property but `a` passed through
      `convertToPercentage`. */
  function RatioRecord(rec: Record): (r: Record)
    ensures r.format == rec.format && r.fields.Keys == rec.fields.Keys
    ensures "a" in rec.fields ==> r.fields["a"] == rec.fields["a"]
    ensures forall k :: k in rec.fields && k != "a" ==> r.fields[k] == ConvertToPercentage(rec.fields[k])
  {
    Record(map k | k in rec.fields :: if k == "a" then rec.fields[k] else ConvertToPercentage(rec.fields[k]), rec.format)
  }

  /** `tinycolor.fromRatio(color, opts)`: an object's numbers are read as
      fractions of their full range; a string is passed on as it is. */
  function FromRatio(arg: ColorArg, fmt: Option<string>): (c: Color)
    ensures WellFormed(c)
    ensures arg.StrArg? ==> c == Make(Arg(arg), fmt)
  {
    match arg
    case StrArg(_) => Make(Arg(arg), fmt)
    case ObjArg(rec) => Make(Arg(ObjArg(RatioRecord(rec))), fmt)
  }

  /** Fractions of the full range given to `fromRatio` come out as
      channels within 0.01 of that fraction of 255, in the `prgb` format
      (the fractions were rewritten as percentage texts). */
  lemma FromRatioScales(x: real, y: real, z: real)
    requires 0.0 <= x <= 1.0 && 0.0 <= y <= 1.0 && 0.0 <= z <= 1.0
    ensures var rec := Record(map["r" := Num(x), "g" := Num(y), "b" := Num(z)], None);
      var p := InputToRgb(ObjArg(RatioRecord(rec)));
      && p.ok && p.format == Some("prgb") && p.a == 1.0
      && Abs(p.r - 255.0 * x) < 0.01 && Abs(p.g - 255.0 * y) < 0.01 && Abs(p.b - 255.0 * z) < 0.01
  {
    hide InputToRgb, RecordToRgb, StringInputToObject;
    var rec := Record(map["r" := Num(x), "g" := Num(y), "b" := Num(z)], None);
    var r := RatioRecord(rec);
    assert r.fields["r"] == ConvertToPercentage(Num(x)) && r.fields["g"] == ConvertToPercentage(Num(y));
    assert r.fields["b"] == ConvertToPercentage(Num(z)) && "a" !in r.fields;
    RatioRead(r, x, y, z);
  }

  /** A record of three fractions rewritten as percentage texts, read. */
  lemma RatioRead(r: Record, x: real, y: real, z: real)
    requires 0.0 <= x <= 1.0 && 0.0 <= y <= 1.0 && 0.0 <= z <= 1.0
    requires r.format == None && "a" !in r.fields
    requires "r" in r.fields && r.fields["r"] == ConvertToPercentage(Num(x))
    requires "g" in r.fields && r.fields["g"] == ConvertToPercentage(Num(y))
    requires "b" in r.fields && r.fields["b"] == ConvertToPercentage(Num(z))
    ensures var p := RecordToRgb(r);
      && p.ok && p.format == Some("prgb") && p.a == 1.0
      && Abs(p.r - 255.0 * x) < 0.01 && Abs(p.g - 255.0 * y) < 0.01 && Abs(p.b - 255.0 * z) < 0.01
  {
    RatioChannel(x);
    RatioChannel(y);
    RatioChannel(z);
  }

  /** One fraction through `convertToPercentage` and `bound01`. */
  lemma RatioChannel(x: real)
    requires 0.0 <= x <= 1.0
    ensures IsPercentage(ConvertToPercentage(Num(x)))
    ensures Abs(Bound01(ConvertToPercentage(Num(x)), 255.0) * 255.0 - 255.0 * x) < 0.01
  {
    var f := ConvertToPercentage(Num(x));
    assert ParseFloat(f) == 100.0 * x && !IsOnePointZero(f);
    assert WithinHundredth(Bound01(f, 255.0), 100.0 * x, 255.0);
  }
}
