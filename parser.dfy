/** Colour input parsing: `stringInputToObject` with its matchers, and
    `inputToRGB`, which turns a colour record into bounded RGB.

    The matchers `rgb`, `rgba`, `hsl`, `hsla` and `hsv` are unanchored
    regular expressions; `exec` reports the match that starts leftmost.
    Here a match at one position is a greedy scan (`MatchAt`), and `Search`
    takes the leftmost position where it succeeds. Greedy scanning finds the
    same match as the backtracking regular expression: a number can only be
    followed by a separator, and no separator character can end or begin a
    number, so no shorter choice inside a number lets the rest succeed. */
module Parser {
  import opened JsValues
  import opened Bounds
  import opened Conversions
  import opened Hex
  import opened Names

  // ---------------------------------------------------------------------
  // Characters and trimming

  /** JavaScript's `\s`: white space and line terminators. */
  predicate IsSpace(c: char)
  {
    c == '\t' || c == '\n' || c == '\U{000B}' || c == '\U{000C}' || c == '\r' || c == ' '
      || c == '\U{00A0}' || c == '\U{1680}' || '\U{2000}' <= c <= '\U{200A}'
      || c == '\U{2028}' || c == '\U{2029}' || c == '\U{202F}' || c == '\U{205F}'
      || c == '\U{3000}' || c == '\U{FEFF}'
  }

  predicate IsDigit(c: char)
  {
    '0' <= c <= '9'
  }

  /** The characters `trimLeft` removes: `[\s,#]`. */
  predicate IsLeadJunk(c: char)
  {
    IsSpace(c) || c == ',' || c == '#'
  }

  /** `replace(trimLeft, '')`. */
  function TrimLeft(s: string): (t: string)
    ensures |t| <= |s|
    ensures |t| == 0 || !IsLeadJunk(t[0])
  {
    if |s| > 0 && IsLeadJunk(s[0]) then TrimLeft(s[1..]) else s
  }

  /** `replace(trimRight, '')`. */
  function TrimRight(s: string): (t: string)
    ensures |t| <= |s|
    ensures |t| == 0 || !IsSpace(t[|t| - 1])
  {
    if |s| > 0 && IsSpace(s[|s| - 1]) then TrimRight(s[..|s| - 1]) else s
  }

  function LowerChar(c: char): (d: char)
    ensures 'A' <= c <= 'Z' ==> d as int == c as int + 32
    ensures !('A' <= c <= 'Z') ==> d == c
  {
    if 'A' <= c <= 'Z' then (c as int + 32) as char else c
  }

  /** `toLowerCase` on the ASCII letters. */
  function ToLower(s: string): (t: string)
    ensures |t| == |s| && forall i :: 0 <= i < |s| ==> t[i] == LowerChar(s[i])
  {
    seq(|s|, i requires 0 <= i < |s| => LowerChar(s[i]))
  }

  /** What `stringInputToObject` matches against: trimmed, then lower case. */
  function Normalize(s: string): string
  {
    ToLower(TrimRight(TrimLeft(s)))
  }

  // ---------------------------------------------------------------------
  // Numbers

  /** The end of the run of decimal digits starting at `i`. */
  function DigitEnd(s: string, i: nat): (j: nat)
    requires i <= |s|
    ensures i <= j <= |s| && AllDigits(s[i..j])
    ensures j == |s| || !IsDigit(s[j])
    decreases |s| - i
  {
    if i < |s| && IsDigit(s[i]) then DigitEnd(s, i + 1) else i
  }

  predicate AllDigits(ds: string)
  {
    forall k :: 0 <= k < |ds| ==> IsDigit(ds[k])
  }

  /** The value of a run of decimal digits. */
  function DigitsValue(ds: string): nat
    requires AllDigits(ds)
  {
    if |ds| == 0 then 0 else DigitsValue(ds[..|ds| - 1]) * 10 + (ds[|ds| - 1] - '0') as nat
  }

  /** The value of the digits after a decimal point. */
  function FracValue(ds: string): (v: real)
    requires AllDigits(ds)
    ensures 0.0 <= v <= 1.0
  {
    if |ds| == 0 then 0.0 else ((ds[0] - '0') as real + FracValue(ds[1..])) / 10.0
  }

  /** A number the scanner read, and where it ended. */
  datatype Scanned = Scanned(end: nat, field: Field)

  /** One `CSS_UNIT` at `i`: first the `CSS_NUMBER` form
      `[-+]?\d*\.\d+%?`, then the `CSS_INTEGER` form `[-+]?\d+%?`. The
      captured text becomes a field holding its `parseFloat` value. */
  function ScanUnit(s: string, i: nat): (r: Option<Scanned>)
    requires i <= |s|
    ensures r.Some? ==> i < r.value.end <= |s| && r.value.field.Text?
  {
    var neg := i < |s| && s[i] == '-';
    var j := if i < |s| && (s[i] == '-' || s[i] == '+') then i + 1 else i;
    var d := DigitEnd(s, j);
    var whole := DigitsValue(s[j..d]) as real;
    if d + 1 < |s| && s[d] == '.' && IsDigit(s[d + 1]) then
      var e := DigitEnd(s, d + 1);
      var pct := e < |s| && s[e] == '%';
      var mag := whole + FracValue(s[d + 1..e]);
      Some(Scanned(if pct then e + 1 else e, Text(if neg then -mag else mag, true, pct)))
    else if d > j then
      var pct := d < |s| && s[d] == '%';
      Some(Scanned(if pct then d + 1 else d, Text(if neg then -whole else whole, false, pct)))
    else
      None
  }

  // ---------------------------------------------------------------------
  // The permissive matchers

  /** `[\s|(]`, allowed between the function name and the first number. */
  predicate IsOpenSep(c: char)
  {
    IsSpace(c) || c == '|' || c == '('
  }

  /** `[,|\s]`, allowed between two numbers. */
  predicate IsMidSep(c: char)
  {
    c == ',' || c == '|' || IsSpace(c)
  }

  function OpenEnd(s: string, i: nat): (j: nat)
    requires i <= |s|
    ensures i <= j <= |s| && (j == |s| || !IsOpenSep(s[j]))
    decreases |s| - i
  {
    if i < |s| && IsOpenSep(s[i]) then OpenEnd(s, i + 1) else i
  }

  function MidEnd(s: string, i: nat): (j: nat)
    requires i <= |s|
    ensures i <= j <= |s| && (j == |s| || !IsMidSep(s[j]))
    decreases |s| - i
  {
    if i < |s| && IsMidSep(s[i]) then MidEnd(s, i + 1) else i
  }

  /** `n` numbers from `i`, each pair separated by `[,|\s]+`. */
  function Units(s: string, i: nat, n: nat): (r: Option<seq<Field>>)
    requires i <= |s| && n >= 1
    ensures r.Some? ==> |r.value| == n
    decreases n
  {
    match ScanUnit(s, i)
    case None => None
    case Some(u) =>
      if n == 1 then Some([u.field])
      else
        var k := MidEnd(s, u.end);
        if k == u.end then None
        else
          match Units(s, k, n - 1)
          case None => None
          case Some(rest) => Some([u.field] + rest)
  }

  /** The matcher `name + PERMISSIVE_MATCHn` tried at position `p`; the
      trailing `\s*\)?` always matches, so it decides nothing. */
  function MatchAt(s: string, p: nat, name: string, n: nat): (r: Option<seq<Field>>)
    requires p <= |s| && n >= 1
    ensures r.Some? ==> |r.value| == n
  {
    if p + |name| <= |s| && s[p..p + |name|] == name then
      var i := p + |name|;
      var j := OpenEnd(s, i);
      if j == i then None else Units(s, j, n)
    else
      None
  }

  /** No match starts at a position in [p, q). */
  predicate NoMatchBetween(s: string, p: nat, q: nat, name: string, n: nat)
    requires n >= 1
  {
    forall k :: p <= k < q && k <= |s| ==> MatchAt(s, k, name, n).None?
  }

  /** Where the leftmost match at or after `p` starts, if any. */
  function FirstMatch(s: string, p: nat, name: string, n: nat): (r: Option<nat>)
    requires p <= |s| && n >= 1
    ensures r.Some? ==> p <= r.value <= |s| && MatchAt(s, r.value, name, n).Some? && NoMatchBetween(s, p, r.value, name, n)
    ensures r.None? ==> NoMatchBetween(s, p, |s| + 1, name, n)
    decreases |s| - p
  {
    if MatchAt(s, p, name, n).Some? then Some(p)
    else if p == |s| then None
    else FirstMatch(s, p + 1, name, n)
  }

  /** `exec` of an unanchored matcher: the captures of the leftmost match. */
  function Search(s: string, name: string, n: nat): (r: Option<seq<Field>>)
    requires n >= 1
    ensures r.Some? ==> |r.value| == n
    ensures r.None? <==> forall q :: 0 <= q <= |s| ==> MatchAt(s, q, name, n).None?
    ensures r.Some? ==> exists q :: 0 <= q <= |s| && MatchAt(s, q, name, n) == r && NoMatchBetween(s, 0, q, name, n)
  {
    match FirstMatch(s, 0, name, n)
    case Some(q) => MatchAt(s, q, name, n)
    case None => None
  }

  /** The anchored `hex6` matcher. */
  predicate IsHex6(s: string)
  {
    |s| == 6 && forall i :: 0 <= i < 6 ==> IsHexDigit(s[i])
  }

  /** The anchored `hex3` matcher. */
  predicate IsHex3(s: string)
  {
    |s| == 3 && forall i :: 0 <= i < 3 ==> IsHexDigit(s[i])
  }

  // ---------------------------------------------------------------------
  // Colour records

  /** A colour object as the engine reads it: its numeric properties, and
      its `format` property (`None` when absent). */
  datatype Record = Record(fields: map<string, Field>, format: Option<string>)

  /** The argument of `tinycolor`: a string, or a colour object. */
  datatype ColorArg = StrArg(s: string) | ObjArg(rec: Record)

  predicate Has3(f: map<string, Field>, x: string, y: string, z: string)
  {
    x in f && y in f && z in f
  }

  function Fields3(x: string, y: string, z: string, m: seq<Field>): (f: map<string, Field>)
    requires |m| >= 3
    ensures Has3(f, x, y, z) && f.Keys == {x, y, z}
    ensures x != y && y != z && x != z ==> f[x] == m[0] && f[y] == m[1] && f[z] == m[2]
  {
    map[x := m[0], y := m[1], z := m[2]]
  }

  function Fields4(x: string, y: string, z: string, m: seq<Field>): (f: map<string, Field>)
    requires |m| >= 4
    ensures Has3(f, x, y, z) && "a" in f && f.Keys == {x, y, z, "a"}
    ensures x != y && y != z && x != z && x != "a" && y != "a" && z != "a" ==>
      f[x] == m[0] && f[y] == m[1] && f[z] == m[2] && f["a"] == m[3]
  {
    map[x := m[0], y := m[1], z := m[2], "a" := m[3]]
  }

  /** `stringInputToObject`; `None` is its `false`. Every record it builds
      names a colour in one of the three models `inputToRGB` reads. */
  function StringInputToObject(color: string): (r: Option<Record>)
    ensures r.Some? ==> ColourRecord(r.value.fields)
  {
    var c0 := Normalize(color);
    TextToObject(c0, NameToHex(c0))
  }

  /** Whether a record holds `r,g,b`, `h,s,v` or `h,s,l`. */
  predicate ColourRecord(f: map<string, Field>)
  {
    Has3(f, "r", "g", "b") || Has3(f, "h", "s", "v") || Has3(f, "h", "s", "l")
  }

  /** `stringInputToObject` after trimming and lower-casing, given what
      the keyword table holds for the text: a keyword is replaced by its hex
      text, and `transparent` is a record of its own. */
  function TextToObject(c0: string, named: Option<string>): (r: Option<Record>)
    ensures r.Some? ==> ColourRecord(r.value.fields)
  {
    match named
    case Some(h) => MatchColor(h, "name")
    case None =>
      if c0 == "transparent" then Some(TransparentRecord)
      else
        MatchColor(c0, "hex")
  }

  /** The matchers, in the order `stringInputToObject` tries them. */
  function MatchColor(c: string, hexFormat: string): (r: Option<Record>)
    ensures r.Some? ==> ColourRecord(r.value.fields)
  {
    match Search(c, "rgb", 3)
    case Some(m) => Some(Record(Fields3("r", "g", "b", m), None))
    case None =>
    match Search(c, "rgba", 4)
    case Some(m) => Some(Record(Fields4("r", "g", "b", m), None))
    case None =>
    match Search(c, "hsl", 3)
    case Some(m) => Some(Record(Fields3("h", "s", "l", m), None))
    case None =>
    match Search(c, "hsla", 4)
    case Some(m) => Some(Record(Fields4("h", "s", "l", m), None))
    case None =>
    match Search(c, "hsv", 3)
    case Some(m) => Some(Record(Fields3("h", "s", "v", m), None))
    case None =>
    if IsHex6(c) || IsHex3(c) then Some(HexRecord(c, hexFormat))
    else None
  }

  /** The record the `hex6` or `hex3` matcher builds: each channel is
      `parseIntFromHex` of its two digits, or of its one digit doubled. */
  function HexRecord(c: string, format: string): (rec: Record)
    requires IsHex6(c) || IsHex3(c)
    ensures rec.format == Some(format) && rec.fields.Keys == {"r", "g", "b"}
  {
    if IsHex6(c) then
      Record(map["r" := Num(ParseHex(c[0..2]) as real), "g" := Num(ParseHex(c[2..4]) as real),
                 "b" := Num(ParseHex(c[4..6]) as real)], Some(format))
    else
      Record(map["r" := Num(ParseHex([c[0], c[0]]) as real), "g" := Num(ParseHex([c[1], c[1]]) as real),
                 "b" := Num(ParseHex([c[2], c[2]]) as real)], Some(format))
  }

  // ---------------------------------------------------------------------
  // inputToRGB

  /** What `inputToRGB` returns. */
  datatype Parsed = Parsed(ok: bool, format: Option<string>, r: real, g: real, b: real, a: real)

  /** The colour object `inputToRGB` reads, if any. */
  function ObjectOf(arg: ColorArg): Option<Record>
  {
    match arg
    case StrArg(s) => StringInputToObject(s)
    case ObjArg(rec) => Some(rec)
  }

  /** JavaScript's `x || y` on optional strings. */
  function OrElse(x: Option<string>, y: Option<string>): (r: Option<string>)
    ensures Truthy(x) ==> r == x
    ensures !Truthy(x) ==> r == y
  {
    if Truthy(x) then x else y
  }

  /** `inputToRGB`. */
  function InputToRgb(arg: ColorArg): (p: Parsed)
    ensures 0.0 <= p.r <= 255.0 && 0.0 <= p.g <= 255.0 && 0.0 <= p.b <= 255.0
    ensures 0.0 <= p.a <= 1.0
    ensures ObjectOf(arg).None? ==> p == Parsed(false, None, 0.0, 0.0, 0.0, 1.0)
    ensures ObjectOf(arg).Some? ==> p == RecordToRgb(ObjectOf(arg).value)
  {
    match ObjectOf(arg)
    case None => Parsed(false, None, 0.0, 0.0, 0.0, 1.0)
    case Some(rec) => RecordToRgb(rec)
  }

  /** The object branch of `inputToRGB`: `r,g,b` first, then `h,s,v`, then
      `h,s,l`; an `a` property is bounded as alpha; the record's own truthy
      `format` wins over the detected one. */
  function RecordToRgb(rec: Record): (p: Parsed)
    ensures 0.0 <= p.r <= 255.0 && 0.0 <= p.g <= 255.0 && 0.0 <= p.b <= 255.0
    ensures 0.0 <= p.a <= 1.0
    ensures p.ok <==> ColourRecord(rec.fields)
    ensures Truthy(rec.format) ==> p.format == rec.format
    ensures !Truthy(rec.format) ==> p.format == DetectedFormat(rec.fields)
    ensures !p.ok ==> p.r == 0.0 && p.g == 0.0 && p.b == 0.0
  {
    var f := rec.fields;
    var c := RecordColour(f);
    Parsed(ColourRecord(f), OrElse(rec.format, DetectedFormat(f)),
           Clamp(c.r, 0.0, 255.0), Clamp(c.g, 0.0, 255.0), Clamp(c.b, 0.0, 255.0), RecordAlpha(f))
  }

  /** The colour of a record, before clamping: read as RGB, HSV or HSL,
      whichever is complete first. */
  function RecordColour(f: map<string, Field>): (c: Rgb)
    ensures ByteRgb(c)
    ensures !ColourRecord(f) ==> c == Rgb(0.0, 0.0, 0.0)
  {
    if Has3(f, "r", "g", "b") then RgbToRgb(f["r"], f["g"], f["b"])
    else if Has3(f, "h", "s", "v") then HsvToRgb(f["h"], ConvertToPercentage(f["s"]), ConvertToPercentage(f["v"]))
    else if Has3(f, "h", "s", "l") then HslToRgb(f["h"], ConvertToPercentage(f["s"]), ConvertToPercentage(f["l"]))
    else Rgb(0.0, 0.0, 0.0)
  }

  /** The alpha of a record: its `a` property through `boundAlpha`, or fully
      opaque when it has none. */
  function RecordAlpha(f: map<string, Field>): (a: real)
    ensures 0.0 <= a <= 1.0
    ensures "a" in f && 0.0 <= ParseFloat(f["a"]) <= 1.0 ==> a == ParseFloat(f["a"])
    ensures "a" !in f || ParseFloat(f["a"]) < 0.0 || 1.0 < ParseFloat(f["a"]) ==> a == 1.0
  {
    if "a" in f then BoundAlpha(Some(ParseFloat(f["a"]))) else 1.0
  }

  /** The format `inputToRGB` detects from a record's properties: `prgb`
      when the red value is a percentage text. */
  function DetectedFormat(f: map<string, Field>): (r: Option<string>)
    ensures r.None? <==> !ColourRecord(f)
  {
    if Has3(f, "r", "g", "b") then Some(if IsPercentage(f["r"]) then "prgb" else "rgb")
    else if Has3(f, "h", "s", "v") then Some("hsv")
    else if Has3(f, "h", "s", "l") then Some("hsl")
    else None
  }

  /** The record as `inputToRGB` leaves it: it rewrites `s` and `v` (or `s`
      and `l`) of an HSV (or HSL) record in place with
      `convertToPercentage`. */
  function Rewrite(rec: Record): (r: Record)
    ensures r.format == rec.format && r.fields.Keys == rec.fields.Keys
  {
    var f := rec.fields;
    if Has3(f, "r", "g", "b") then rec
    else if Has3(f, "h", "s", "v") then
      Record(f["s" := ConvertToPercentage(f["s"])]["v" := ConvertToPercentage(f["v"])], rec.format)
    else if Has3(f, "h", "s", "l") then
      Record(f["s" := ConvertToPercentage(f["s"])]["l" := ConvertToPercentage(f["l"])], rec.format)
    else rec
  }

  // ---------------------------------------------------------------------
  // What the parser promises

  /** Lower-casing changes only letters, never a character the trims
      remove. */
  lemma LowerKeepsSpace(c: char)
    ensures IsSpace(LowerChar(c)) <==> IsSpace(c)
    ensures IsLeadJunk(LowerChar(c)) <==> IsLeadJunk(c)
  {
    if 'A' <= c <= 'Z' {
      assert 'a' <= LowerChar(c) <= 'z';
    }
  }

  lemma {:induction false} TrimLeftLower(s: string)
    ensures TrimLeft(ToLower(s)) == ToLower(TrimLeft(s))
  {
    if |s| > 0 {
      var l := ToLower(s);
      LowerKeepsSpace(s[0]);
      if IsLeadJunk(s[0]) {
        assert l[1..] == ToLower(s[1..]);
        TrimLeftLower(s[1..]);
        assert TrimLeft(l) == TrimLeft(l[1..]);
      } else {
        assert TrimLeft(l) == l;
      }
    }
  }

  lemma {:induction false} TrimRightLower(s: string)
    ensures TrimRight(ToLower(s)) == ToLower(TrimRight(s))
  {
    if |s| > 0 {
      var l := ToLower(s);
      LowerKeepsSpace(s[|s| - 1]);
      if IsSpace(s[|s| - 1]) {
        assert l[..|s| - 1] == ToLower(s[..|s| - 1]);
        TrimRightLower(s[..|s| - 1]);
        assert TrimRight(l) == TrimRight(l[..|s| - 1]);
      } else {
        assert TrimRight(l) == l;
      }
    }
  }

  /** Colour texts are case-insensitive: upper-case input reads as its
      lower-case form. */
  lemma NormalizeIgnoresCase(s: string)
    ensures Normalize(ToLower(s)) == Normalize(s)
  {
    TrimLeftLower(s);
    TrimRightLower(TrimLeft(s));
    LowerTwice(TrimRight(TrimLeft(s)));
  }

  lemma LowerTwice(t: string)
    ensures ToLower(ToLower(t)) == ToLower(t)
  {
    forall i | 0 <= i < |t| ensures LowerChar(LowerChar(t[i])) == LowerChar(t[i]) {
      if 'A' <= t[i] <= 'Z' {
        assert 'a' <= LowerChar(t[i]) <= 'z';
      }
    }
  }

  lemma StringInputIgnoresCase(s: string)
    ensures StringInputToObject(ToLower(s)) == StringInputToObject(s)
  {
    NormalizeIgnoresCase(s);
  }

  lemma {:induction false} TrimLeftJunk(j: string, s: string)
    requires forall i :: 0 <= i < |j| ==> IsLeadJunk(j[i])
    ensures TrimLeft(j + s) == TrimLeft(s)
  {
    if |j| > 0 {
      assert (j + s)[1..] == j[1..] + s;
      TrimLeftJunk(j[1..], s);
    } else {
      assert j + s == s;
    }
  }

  lemma {:induction false} TrimRightSpace(s: string, w: string)
    requires forall i :: 0 <= i < |w| ==> IsSpace(w[i])
    ensures TrimRight(s + w) == TrimRight(s)
  {
    if |w| > 0 {
      assert (s + w)[..|s + w| - 1] == s + w[..|w| - 1];
      TrimRightSpace(s, w[..|w| - 1]);
    } else {
      assert s + w == s;
    }
  }

  lemma TrimLeftAll(w: string)
    requires forall i :: 0 <= i < |w| ==> IsLeadJunk(w[i])
    ensures TrimLeft(w) == []
  {
  }

  /** Leading white space, commas and `#`, and trailing white space, do not
      change what a colour text reads as. */
  lemma NormalizeIgnoresPadding(j: string, s: string, w: string)
    requires forall i :: 0 <= i < |j| ==> IsLeadJunk(j[i])
    requires forall i :: 0 <= i < |w| ==> IsSpace(w[i])
    ensures Normalize(j + s + w) == Normalize(s)
  {
    assert j + s + w == j + (s + w);
    TrimLeftJunk(j, s + w);
    TrimTrailing(s, w);
  }

  /** Trailing white space is trimmed away whatever precedes it. */
  lemma TrimTrailing(s: string, w: string)
    requires forall i :: 0 <= i < |w| ==> IsSpace(w[i])
    ensures TrimRight(TrimLeft(s + w)) == TrimRight(TrimLeft(s))
  {
    TrimLeftAppend(s, w);
    TrimKept(TrimLeft(s), w);
  }

  /** What `trimLeft` removes from `s` it also removes from `s + w`. */
  lemma TrimLeftAppend(s: string, w: string)
    ensures TrimLeft(s + w) == TrimLeft(TrimLeft(s) + w)
  {
    var u := TrimLeft(s);
    TrimLeftSuffix(s);
    var p := s[..|s| - |u|];
    assert s == p + u;
    assert s + w == p + (u + w);
    forall i | 0 <= i < |p| ensures IsLeadJunk(p[i]) {
      assert p[i] == s[i];
    }
    TrimLeftJunk(p, u + w);
  }

  /** `trimLeft` removes a prefix of leading junk. */
  lemma {:induction false} TrimLeftSuffix(s: string)
    ensures var t := TrimLeft(s);
      && t == s[|s| - |t|..]
      && forall i :: 0 <= i < |s| - |t| ==> IsLeadJunk(s[i])
  {
    if |s| > 0 && IsLeadJunk(s[0]) {
      TrimLeftSuffix(s[1..]);
      var t := TrimLeft(s);
      assert t == TrimLeft(s[1..]);
      assert s[1..][|s| - 1 - |t|..] == s[|s| - |t|..];
      forall i | 1 <= i < |s| - |t| ensures IsLeadJunk(s[i]) {
        assert s[i] == s[1..][i - 1];
      }
    }
  }

  lemma TrimKept(u: string, w: string)
    requires forall i :: 0 <= i < |w| ==> IsSpace(w[i])
    requires |u| == 0 || !IsLeadJunk(u[0])
    ensures TrimRight(TrimLeft(u + w)) == TrimRight(u)
  {
    if |u| > 0 {
      assert (u + w)[0] == u[0];
      TrimRightSpace(u, w);
    } else {
      assert u + w == w;
      TrimLeftAll(w);
    }
  }

  lemma StringInputIgnoresPadding(j: string, s: string, w: string)
    requires forall i :: 0 <= i < |j| ==> IsLeadJunk(j[i])
    requires forall i :: 0 <= i < |w| ==> IsSpace(w[i])
    ensures StringInputToObject(j + s + w) == StringInputToObject(s)
  {
    NormalizeIgnoresPadding(j, s, w);
  }

  /** No matcher whose name starts with a letter that is not a hex digit
      finds anything in a text of hex digits. */
  lemma NoFunctionInHex(h: string, name: string, n: nat)
    requires forall i :: 0 <= i < |h| ==> IsHexDigit(h[i])
    requires n >= 1 && |name| > 0 && !IsHexDigit(name[0])
    ensures Search(h, name, n).None?
  {
    forall q | 0 <= q <= |h| ensures MatchAt(h, q, name, n).None? {
    }
  }

  /** A hex colour text (without its `#`) normalises to itself. */
  lemma NormalizeHexText(h: string)
    requires |h| > 0 && IsLowerHex(h)
    ensures Normalize("#" + h) == h
  {
    TrimHash(h);
    TrimRightKeeps(h);
    LowerHexKept(h);
  }

  lemma TrimHash(h: string)
    requires |h| > 0 && !IsLeadJunk(h[0])
    ensures TrimLeft("#" + h) == h
  {
    assert ("#" + h)[1..] == h;
  }

  lemma TrimRightKeeps(h: string)
    requires |h| > 0 && !IsSpace(h[|h| - 1])
    ensures TrimRight(h) == h
  {
  }

  lemma LowerHexKept(h: string)
    requires IsLowerHex(h)
    ensures ToLower(h) == h
  {
    forall i | 0 <= i < |h| ensures LowerChar(h[i]) == h[i] {
      assert IsLowerHexDigit(h[i]);
    }
  }

  /** Three or six hex digits pass every functional matcher and reach the
      hex matchers. */
  lemma MatchHex(h: string, format: string)
    requires IsHexShape(h)
    ensures IsHex6(h) || IsHex3(h)
    ensures MatchColor(h, format) == Some(HexRecord(h, format))
  {
    NoFunctionInHex(h, "rgb", 3);
    NoFunctionInHex(h, "rgba", 4);
    NoFunctionInHex(h, "hsl", 3);
    NoFunctionInHex(h, "hsla", 4);
    NoFunctionInHex(h, "hsv", 3);
  }

  /** A colour text of three or six hex digits reads back as the record of
      its channels. */
  lemma HexTextParses(h: string)
    requires IsHexShape(h) && IsLowerHex(h)
    ensures StringInputToObject("#" + h) == Some(HexRecord(h, "hex"))
  {
    NormalizeHexText(h);
    HexIsNeverAName(h);
    assert h != "transparent";
    MatchHex(h, "hex");
  }

  /** The text `rgbToHex` writes, after a `#`, parses back to the rounded
      channels with the `hex` format, in its six-digit and its three-digit
      form. */
  lemma {:induction false} HexTextRoundTrip(r: real, g: real, b: real, allow3Char: bool)
    requires IsByte(r) && IsByte(g) && IsByte(b)
    ensures StringInputToObject("#" + RgbToHex(r, g, b, allow3Char))
      == Some(Record(map["r" := Num(Round(r) as real), "g" := Num(Round(g) as real), "b" := Num(Round(b) as real)], Some("hex")))
  {
    var h := RgbToHex(r, g, b, allow3Char);
    RgbToHexRoundTrip(r, g, b, allow3Char);
    HexTextParses(h);
  }

  /** Parsing `#` followed by `rgbToHex`'s text and converting it gives the
      rounded channels, fully opaque, in the `hex` format. */
  lemma HexColourRoundTrip(r: real, g: real, b: real, allow3Char: bool)
    requires IsByte(r) && IsByte(g) && IsByte(b)
    ensures InputToRgb(StrArg("#" + RgbToHex(r, g, b, allow3Char)))
      == Parsed(true, Some("hex"), Round(r) as real, Round(g) as real, Round(b) as real, 1.0)
  {
    HexTextRoundTrip(r, g, b, allow3Char);
    var rec := Record(map["r" := Num(Round(r) as real), "g" := Num(Round(g) as real), "b" := Num(Round(b) as real)], Some("hex"));
    KeptRound(r);
    KeptRound(g);
    KeptRound(b);
    ByteRecordKept(rec, Round(r) as real, Round(g) as real, Round(b) as real);
  }

  /** A record of three kept byte numbers converts to exactly those
      numbers. */
  lemma ByteRecordKept(rec: Record, r: real, g: real, b: real)
    requires rec.fields == map["r" := Num(r), "g" := Num(g), "b" := Num(b)]
    requires KeptByte(Num(r)) && KeptByte(Num(g)) && KeptByte(Num(b))
    requires Truthy(rec.format)
    ensures RecordToRgb(rec) == Parsed(true, rec.format, r, g, b, 1.0)
  {
    var f := rec.fields;
    assert Has3(f, "r", "g", "b") && "a" !in f;
    assert RecordColour(f) == RgbToRgb(f["r"], f["g"], f["b"]) == Rgb(r, g, b);
  }

  lemma KeptRound(x: real)
    requires IsByte(x)
    ensures KeptByte(Num(Round(x) as real))
  {
    var n := RoundByte(x);
    assert n <= 254 || n == 255;
  }

  /** A colour keyword reads as the hex text it names, with the `name`
      format. */
  lemma NamedColour(s: string, h: string)
    requires NameToHex(Normalize(s)) == Some(h)
    ensures IsHexShape(h) && StringInputToObject(s) == Some(HexRecord(h, "name"))
  {
    var c0 := Normalize(s);
    assert StringInputToObject(s) == TextToObject(c0, Some(h));
    NameGivesHex(c0);
    NamedText(c0, h);
  }

  lemma NamedText(c0: string, h: string)
    requires IsHexShape(h)
    ensures TextToObject(c0, Some(h)) == Some(HexRecord(h, "name"))
  {
    MatchHex(h, "name");
  }

  /** The record `stringInputToObject` gives for `transparent`. */
  const TransparentRecord: Record :=
    Record(map["r" := Num(0.0), "g" := Num(0.0), "b" := Num(0.0), "a" := Num(0.0)], Some("name"))

  /** `transparent` is black with zero alpha, in the `name` format. */
  lemma TransparentIsClear(s: string)
    requires Normalize(s) == "transparent"
    ensures InputToRgb(StrArg(s)) == Parsed(true, Some("name"), 0.0, 0.0, 0.0, 0.0)
  {
    TransparentText(Normalize(s));
    TransparentConverts();
  }

  lemma TransparentText(c0: string)
    requires c0 == "transparent"
    ensures TextToObject(c0, NameToHex(c0)) == Some(TransparentRecord)
  {
    TransparentIsNoName();
  }

  lemma TransparentConverts()
    ensures RecordToRgb(TransparentRecord) == Parsed(true, Some("name"), 0.0, 0.0, 0.0, 0.0)
  {
    AlphaRecordKept(TransparentRecord, 0.0, 0.0, 0.0, 0.0);
  }

  /** A record of three kept byte numbers and an alpha in [0,1] converts to
      exactly those numbers. */
  lemma AlphaRecordKept(rec: Record, r: real, g: real, b: real, a: real)
    requires rec.fields == map["r" := Num(r), "g" := Num(g), "b" := Num(b), "a" := Num(a)]
    requires KeptByte(Num(r)) && KeptByte(Num(g)) && KeptByte(Num(b)) && 0.0 <= a <= 1.0
    requires Truthy(rec.format)
    ensures RecordToRgb(rec) == Parsed(true, rec.format, r, g, b, a)
  {
    var f := rec.fields;
    assert Has3(f, "r", "g", "b") && "a" in f;
    assert RecordColour(f) == RgbToRgb(f["r"], f["g"], f["b"]) == Rgb(r, g, b);
  }

  /** `inputToRGB` reads the record it rewrote in place the same way as the
      original, which is what lets the rewritten object be passed in again. */
  lemma RewriteKeepsColour(rec: Record)
    ensures RecordToRgb(Rewrite(rec)) == RecordToRgb(rec)
  {
    var f := rec.fields;
    if !Has3(f, "r", "g", "b") && Has3(f, "h", "s", "v") {
      ConvertToPercentageIdempotent(f["s"]);
      ConvertToPercentageIdempotent(f["v"]);
    } else if !Has3(f, "r", "g", "b") && Has3(f, "h", "s", "l") {
      ConvertToPercentageIdempotent(f["s"]);
      ConvertToPercentageIdempotent(f["l"]);
    }
  }
}
