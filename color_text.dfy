/** The texts the colour object writes: whole numbers and hundredths as
    JavaScript's `String` prints them, and the functional notations
    `name(x, y, z)` built from them; and how the colour-string parser reads
    such a text back. */
module ColorText {
  import opened JsValues
  import opened Names
  import opened Parser
  import opened Hex

  // ---------------------------------------------------------------------
  // Number texts

  function DecimalDigit(d: nat): (ch: char)
    requires d < 10
    ensures IsDigit(ch) && (ch - '0') as nat == d
  {
    ('0' as int + d) as char
  }

  /** `String(n)` for a whole number: its decimal digits, with no leading
      zero. */
  function NatText(n: nat): (s: string)
    ensures |s| > 0 && IsDigit(s[0])
  {
    if n < 10 then [DecimalDigit(n)] else NatText(n / 10) + [DecimalDigit(n % 10)]
  }

  /** The digits of `NatText(n)` are decimal digits, with no leading zero,
      and read back as `n`. */
  lemma {:induction false} NatTextReads(n: nat)
    ensures var s := NatText(n);
      AllDigits(s) && DigitsValue(s) == n && (|s| > 1 ==> s[0] != '0')
  {
    var s := NatText(n);
    if n < 10 {
      assert s[..0] == [];
    } else {
      var t := NatText(n / 10);
      NatTextReads(n / 10);
      assert s == t + [DecimalDigit(n % 10)];
      assert s[..|s| - 1] == t;
      assert |t| == 1 ==> DigitsValue(t) == (t[0] - '0') as nat by {
        if |t| == 1 { assert t[..0] == []; }
      }
    }
  }

  /** `String(k / 100)` for `k` in 0..100, which is how `roundA` is written:
      the shortest decimal, with no trailing zero. */
  function HundredthsText(k: nat): (s: string)
    requires k <= 100
  {
    if k == 0 then "0"
    else if k == 100 then "1"
    else if k % 10 == 0 then "0." + [DecimalDigit(k / 10)]
    else "0." + [DecimalDigit(k / 10), DecimalDigit(k % 10)]
  }

  /** One number as the string methods write it: a whole number, perhaps
      followed by `%`, or an alpha in hundredths. */
  datatype Written = Whole(n: nat, percent: bool) | Hundredths(k: nat)

  predicate Writable(w: Written)
  {
    w.Hundredths? ==> w.k <= 100
  }

  function WrittenText(w: Written): (s: string)
    requires Writable(w)
    ensures |s| > 0 && IsDigit(s[0])
  {
    match w
    case Whole(n, p) => NatText(n) + (if p then "%" else "")
    case Hundredths(k) => HundredthsText(k)
  }

  /** The field the colour matchers capture for a written number. */
  function ReadBack(w: Written): Field
    requires Writable(w)
  {
    match w
    case Whole(n, p) => Text(n as real, false, p)
    case Hundredths(k) => Text(k as real / 100.0, 0 < k < 100, false)
  }

  predicate AllWritable(ws: seq<Written>)
  {
    forall i :: 0 <= i < |ws| ==> Writable(ws[i])
  }

  /** The numbers separated by `", "`. */
  function Joined(ws: seq<Written>): (s: string)
    requires |ws| > 0 && AllWritable(ws)
    ensures |s| > 0 && IsDigit(s[0])
  {
    if |ws| == 1 then WrittenText(ws[0])
    else WrittenText(ws[0]) + ", " + Joined(ws[1..])
  }

  /** `name + "(" + x + ", " + y + … + ")"`. */
  function FunctionText(name: string, ws: seq<Written>): string
    requires |ws| > 0 && AllWritable(ws)
  {
    name + "(" + Joined(ws) + ")"
  }

  function ReadBackAll(ws: seq<Written>): (fs: seq<Field>)
    requires AllWritable(ws)
    ensures |fs| == |ws| && forall i :: 0 <= i < |ws| ==> fs[i] == ReadBack(ws[i])
  {
    if |ws| == 0 then [] else [ReadBack(ws[0])] + ReadBackAll(ws[1..])
  }

  // ---------------------------------------------------------------------
  // Reading a written number back

  /** `s` holds `t` at `i`. */
  predicate At(s: string, i: nat, t: string)
  {
    i + |t| <= |s| && s[i..i + |t|] == t
  }

  lemma {:induction false} DigitEndAt(s: string, i: nat, t: string)
    requires At(s, i, t) && AllDigits(t)
    requires i + |t| == |s| || !IsDigit(s[i + |t|])
    ensures DigitEnd(s, i) == i + |t|
    decreases |t|
  {
    if |t| > 0 {
      assert s[i] == t[0];
      assert s[i + 1..i + |t|] == t[1..];
      DigitEndAt(s, i + 1, t[1..]);
    }
  }

  /** The first `0.` then one or two digits of a hundredths text are worth
      `k / 100`. */
  lemma FractionDigits(k: nat)
    requires 0 < k < 100
    ensures var ds := HundredthsText(k)[2..];
      AllDigits(ds) && FracValue(ds) == k as real / 100.0
  {
    var ds := HundredthsText(k)[2..];
    if k % 10 == 0 {
      assert ds == [DecimalDigit(k / 10)];
      assert FracValue(ds[1..]) == 0.0;
    } else {
      assert ds == [DecimalDigit(k / 10), DecimalDigit(k % 10)];
      assert ds[1..][1..] == [];
      assert FracValue(ds[1..]) == (k % 10) as real / 10.0;
    }
  }

  /** The scanner reads a written number at `i`, followed by `,` or `)`,
      as the field `ReadBack` gives, ending right after it. */
  lemma ScanWritten(s: string, i: nat, w: Written)
    requires Writable(w) && At(s, i, WrittenText(w))
    requires var e := i + |WrittenText(w)|; e < |s| && (s[e] == ',' || s[e] == ')')
    ensures ScanUnit(s, i) == Some(Scanned(i + |WrittenText(w)|, ReadBack(w)))
  {
    match w
    case Whole(n, p) => ScanNat(s, i, n, p);
    case Hundredths(k) => ScanHundredths(s, i, k);
  }

  lemma ScanNat(s: string, i: nat, n: nat, p: bool)
    requires var t := WrittenText(Whole(n, p)); At(s, i, t) && i + |t| < |s| && (s[i + |t|] == ',' || s[i + |t|] == ')')
    ensures ScanUnit(s, i) == Some(Scanned(i + |WrittenText(Whole(n, p))|, ReadBack(Whole(n, p))))
  {
    var ds := NatText(n);
    NatTextReads(n);
    var t := WrittenText(Whole(n, p));
    assert t[..|ds|] == ds;
    assert s[i..i + |ds|] == s[i..i + |t|][..|ds|];
    if p {
      assert s[i + |ds|] == t[|ds|];
    }
    ScanWhole(s, i, ds, p);
  }

  lemma ScanHundredths(s: string, i: nat, k: nat)
    requires k <= 100
    requires var t := HundredthsText(k); At(s, i, t) && i + |t| < |s| && (s[i + |t|] == ',' || s[i + |t|] == ')')
    ensures ScanUnit(s, i) == Some(Scanned(i + |HundredthsText(k)|, Text(k as real / 100.0, 0 < k < 100, false)))
  {
    var t := HundredthsText(k);
    if k == 0 || k == 100 {
      ScanWhole(s, i, t, false);
    } else {
      var ds := t[2..];
      FractionDigits(k);
      assert s[i] == t[0] && s[i + 1] == t[1];
      assert s[i + 2..i + |t|] == t[2..];
      ScanFraction(s, i, ds);
    }
  }

  /** Digits at `i`, perhaps followed by `%`, and then a `,` or `)`. */
  lemma ScanWhole(s: string, i: nat, ds: string, p: bool)
    requires |ds| > 0 && AllDigits(ds) && At(s, i, ds)
    requires var e := i + |ds| + (if p then 1 else 0);
      e < |s| && (s[e] == ',' || s[e] == ')') && (p ==> s[i + |ds|] == '%')
    ensures ScanUnit(s, i) ==
      Some(Scanned(i + |ds| + (if p then 1 else 0), Text(DigitsValue(ds) as real, false, p)))
  {
    WholeAt(s, i, ds, p);
    ScanInteger(s, i, i + |ds|, ds, p);
  }

  /** Unsigned digits `ws` from `i` up to `d`, not followed by a decimal
      point, and then a `%` exactly when `p`. */
  predicate IntegerAt(s: string, i: nat, d: nat, ws: string, p: bool)
  {
    && i < d < |s| && s[i] != '-' && s[i] != '+' && DigitEnd(s, i) == d && s[d] != '.'
    && AllDigits(ws) && s[i..d] == ws && (s[d] == '%' <==> p)
  }

  lemma ScanInteger(s: string, i: nat, d: nat, ws: string, p: bool)
    requires IntegerAt(s, i, d, ws, p)
    ensures ScanUnit(s, i) == Some(Scanned(if p then d + 1 else d, Text(DigitsValue(ws) as real, false, p)))
  {
  }

  lemma WholeAt(s: string, i: nat, ds: string, p: bool)
    requires |ds| > 0 && AllDigits(ds) && At(s, i, ds)
    requires var e := i + |ds| + (if p then 1 else 0);
      e < |s| && (s[e] == ',' || s[e] == ')') && (p ==> s[i + |ds|] == '%')
    ensures IntegerAt(s, i, i + |ds|, ds, p)
  {
    assert s[i] == ds[0];
    DigitEndAt(s, i, ds);
  }

  /** `0.` and the digits `ds` at `i`, then a `,` or `)`. */
  lemma ScanFraction(s: string, i: nat, ds: string)
    requires |ds| > 0 && AllDigits(ds) && i + 2 + |ds| < |s|
    requires s[i] == '0' && s[i + 1] == '.' && s[i + 2..i + 2 + |ds|] == ds
    requires s[i + 2 + |ds|] == ',' || s[i + 2 + |ds|] == ')'
    ensures ScanUnit(s, i) == Some(Scanned(i + 2 + |ds|, Text(FracValue(ds), true, false)))
  {
    FractionAt(s, i, ds);
    ScanDecimal(s, i, i + 1, i + 2 + |ds|, "0", ds, FracValue(ds));
  }

  /** Unsigned digits `ws` from `i` up to `d`, a point, and digits `fs` up
      to `e`, with no `%` after them, worth `v` together. */
  predicate DecimalAt(s: string, i: nat, d: nat, e: nat, ws: string, fs: string, v: real)
  {
    && i < |s| && s[i] != '-' && s[i] != '+'
    && i <= d && d + 1 < |s| && DigitEnd(s, i) == d && s[d] == '.' && IsDigit(s[d + 1])
    && d + 1 <= e <= |s| && DigitEnd(s, d + 1) == e && (e == |s| || s[e] != '%')
    && AllDigits(ws) && AllDigits(fs) && s[i..d] == ws && s[d + 1..e] == fs
    && v == DigitsValue(ws) as real + FracValue(fs)
  }

  lemma ScanDecimal(s: string, i: nat, d: nat, e: nat, ws: string, fs: string, v: real)
    requires DecimalAt(s, i, d, e, ws, fs, v)
    ensures ScanUnit(s, i) == Some(Scanned(e, Text(v, true, false)))
  {
  }

  lemma FractionAt(s: string, i: nat, ds: string)
    requires |ds| > 0 && AllDigits(ds) && i + 2 + |ds| < |s|
    requires s[i] == '0' && s[i + 1] == '.' && s[i + 2..i + 2 + |ds|] == ds
    requires s[i + 2 + |ds|] == ',' || s[i + 2 + |ds|] == ')'
    ensures DecimalAt(s, i, i + 1, i + 2 + |ds|, "0", ds, FracValue(ds))
  {
    assert s[i + 2] == ds[0];
    assert s[i..i + 1] == "0";
    assert DigitsValue("0") == 0 by { assert "0"[..0] == []; }
    assert At(s, i, "0");
    DigitEndAt(s, i, "0");
    DigitEndAt(s, i + 2, ds);
  }

  /** The separator `", "` is skipped as a whole. */
  lemma MidEndAt(s: string, i: nat)
    requires i + 2 < |s| && s[i] == ',' && s[i + 1] == ' ' && IsDigit(s[i + 2])
    ensures MidEnd(s, i) == i + 2
  {
    assert MidEnd(s, i + 2) == i + 2;
  }

  /** `s` holds `t` at `i`, character by character. */
  predicate Spells(s: string, i: nat, t: string)
    decreases |t|
  {
    if |t| == 0 then i <= |s| else i < |s| && s[i] == t[0] && Spells(s, i + 1, t[1..])
  }

  lemma {:induction false} SpellsAt(s: string, i: nat, t: string)
    requires Spells(s, i, t)
    ensures At(s, i, t)
    decreases |t|
  {
    if |t| > 0 {
      SpellsAt(s, i + 1, t[1..]);
      assert s[i..i + |t|] == [s[i]] + s[i + 1..i + |t|];
      assert t == [t[0]] + t[1..];
    }
  }

  lemma {:induction false} AtSpells(s: string, i: nat, t: string)
    requires At(s, i, t)
    ensures Spells(s, i, t)
    decreases |t|
  {
    if |t| > 0 {
      assert s[i] == t[0];
      assert s[i + 1..i + |t|] == t[1..];
      AtSpells(s, i + 1, t[1..]);
    }
  }

  /** The numbers `ws` are laid out in `s` from `i` on: each one followed
      by `", "`, and the last one by `)`. */
  predicate Laid(s: string, i: nat, ws: seq<Written>)
    requires AllWritable(ws)
    decreases |ws|
  {
    && |ws| > 0
    && var e := i + |WrittenText(ws[0])|;
    && Spells(s, i, WrittenText(ws[0])) && e < |s|
    && if |ws| == 1 then s[e] == ')'
       else e + 2 < |s| && s[e] == ',' && s[e + 1] == ' ' && IsDigit(s[e + 2]) && Laid(s, e + 2, ws[1..])
  }

  /** Numbers laid out from `i` are read back one by one. */
  lemma {:induction false} UnitsLaid(s: string, i: nat, ws: seq<Written>)
    requires AllWritable(ws) && Laid(s, i, ws)
    ensures Units(s, i, |ws|) == Some(ReadBackAll(ws))
    decreases |ws|
  {
    if |ws| == 1 {
      UnitsLaidOne(s, i, ws);
    } else {
      UnitsLaid(s, i + |WrittenText(ws[0])| + 2, ws[1..]);
      UnitsLaidCons(s, i, ws);
    }
  }

  lemma UnitsLaidOne(s: string, i: nat, ws: seq<Written>)
    requires AllWritable(ws) && Laid(s, i, ws) && |ws| == 1
    ensures Units(s, i, 1) == Some(ReadBackAll(ws))
  {
    var w := ws[0];
    SpellsAt(s, i, WrittenText(w));
    ScanWritten(s, i, w);
    assert ReadBackAll(ws) == [ReadBack(w)];
  }

  lemma UnitsLaidCons(s: string, i: nat, ws: seq<Written>)
    requires AllWritable(ws) && Laid(s, i, ws) && |ws| > 1
    requires Units(s, i + |WrittenText(ws[0])| + 2, |ws[1..]|) == Some(ReadBackAll(ws[1..]))
    ensures Units(s, i, |ws|) == Some(ReadBackAll(ws))
  {
    var w := ws[0];
    var e := i + |WrittenText(w)|;
    SpellsAt(s, i, WrittenText(w));
    ScanWritten(s, i, w);
    MidEndAt(s, e);
    UnitsStep(s, i, |ws|, e, ReadBack(w), e + 2, ReadBackAll(ws[1..]));
  }

  /** The joined numbers, after a prefix `p` and followed by `)`, are laid
      out from the end of `p`. */
  lemma {:induction false} LaidJoined(s: string, p: string, ws: seq<Written>, q: string)
    requires |ws| > 0 && AllWritable(ws) && |q| > 0 && q[0] == ')'
    requires s == p + Joined(ws) + q
    ensures Laid(s, |p|, ws)
    decreases |ws|
  {
    if |ws| == 1 {
      LastFacts(s, p, ws[0], q);
    } else {
      var t := WrittenText(ws[0]);
      var p' := p + t + ", ";
      JoinedShift(p, ws, q);
      LaidJoined(s, p', ws[1..], q);
      LaidJoinedStep(s, p, ws, q);
    }
  }

  lemma LaidJoinedStep(s: string, p: string, ws: seq<Written>, q: string)
    requires |ws| > 1 && AllWritable(ws) && |q| > 0 && s == p + Joined(ws) + q
    requires Laid(s, |p| + |WrittenText(ws[0])| + 2, ws[1..])
    ensures Laid(s, |p|, ws)
  {
    HeadFacts(s, p, ws, q);
    LaidCons(s, |p|, ws);
  }

  lemma LaidCons(s: string, i: nat, ws: seq<Written>)
    requires |ws| > 1 && AllWritable(ws)
    requires var e := i + |WrittenText(ws[0])|;
      && Spells(s, i, WrittenText(ws[0])) && e + 2 < |s|
      && s[e] == ',' && s[e + 1] == ' ' && IsDigit(s[e + 2])
      && Laid(s, e + 2, ws[1..])
    ensures Laid(s, i, ws)
  {
  }

  /** Moving the first number and its separator into the prefix. */
  lemma JoinedShift(p: string, ws: seq<Written>, q: string)
    requires |ws| > 1 && AllWritable(ws)
    ensures p + Joined(ws) + q == (p + WrittenText(ws[0]) + ", ") + Joined(ws[1..]) + q
  {
    assert Joined(ws) == WrittenText(ws[0]) + ", " + Joined(ws[1..]);
    Shift(p, WrittenText(ws[0]), ", ", Joined(ws[1..]), q);
  }

  lemma Shift(p: string, a: string, b: string, c: string, q: string)
    ensures p + (a + b + c) + q == (p + a + b) + c + q
  {
  }

  /** `t` sits in `p + t + r` right after `p`. */
  lemma AtMiddle(p: string, t: string, r: string)
    ensures At(p + t + r, |p|, t)
  {
    assert (p + t + r)[|p|..|p| + |t|] == t;
  }

  /** The last number, followed by `)`. */
  lemma LastFacts(s: string, p: string, w: Written, q: string)
    requires Writable(w) && |q| > 0 && q[0] == ')' && s == p + Joined([w]) + q
    ensures Spells(s, |p|, WrittenText(w)) && |p| + |WrittenText(w)| < |s|
    ensures s[|p| + |WrittenText(w)|] == ')'
  {
    assert s == p + WrittenText(w) + q;
    AtMiddle(p, WrittenText(w), q);
    AtSpells(s, |p|, WrittenText(w));
    assert s[|p| + |WrittenText(w)|] == q[0];
  }

  /** The first of several numbers, followed by `", "` and a digit. */
  lemma HeadFacts(s: string, p: string, ws: seq<Written>, q: string)
    requires |ws| > 1 && AllWritable(ws) && |q| > 0 && s == p + Joined(ws) + q
    ensures var e := |p| + |WrittenText(ws[0])|;
      && Spells(s, |p|, WrittenText(ws[0])) && e + 2 < |s|
      && s[e] == ',' && s[e + 1] == ' ' && IsDigit(s[e + 2])
  {
    var t := WrittenText(ws[0]);
    var rest := Joined(ws[1..]);
    var r := ", " + rest + q;
    JoinedSplit(p, ws, q);
    AtMiddle(p, t, r);
    AtSpells(s, |p|, t);
    assert s[|p| + |t|] == r[0];
    assert s[|p| + |t| + 1] == r[1];
    assert s[|p| + |t| + 2] == r[2] == rest[0];
  }

  lemma JoinedSplit(p: string, ws: seq<Written>, q: string)
    requires |ws| > 1 && AllWritable(ws)
    ensures p + Joined(ws) + q == p + WrittenText(ws[0]) + (", " + Joined(ws[1..]) + q)
  {
    Regroup(p, WrittenText(ws[0]), ", ", Joined(ws[1..]), q);
  }

  lemma Regroup(p: string, a: string, b: string, c: string, q: string)
    ensures p + (a + b + c) + q == p + a + (b + c + q)
  {
  }

  lemma UnitsOne(s: string, i: nat, e: nat, f: Field)
    requires i <= |s| && ScanUnit(s, i) == Some(Scanned(e, f))
    ensures Units(s, i, 1) == Some([f])
  {
  }

  lemma UnitsStep(s: string, i: nat, n: nat, e: nat, f: Field, k: nat, rest: seq<Field>)
    requires i <= |s| && e <= |s| && n >= 2 && ScanUnit(s, i) == Some(Scanned(e, f))
    requires MidEnd(s, e) == k && k != e && Units(s, k, n - 1) == Some(rest)
    ensures Units(s, i, n) == Some([f] + rest)
  {
  }

  /** The matcher for `name` reads a functional text written with that
      name at its start. */
  lemma MatchFunction(name: string, ws: seq<Written>)
    requires |ws| > 0 && AllWritable(ws)
    ensures MatchAt(FunctionText(name, ws), 0, name, |ws|) == Some(ReadBackAll(ws))
  {
    var s := FunctionText(name, ws);
    var p := name + "(";
    OpenAfterName(name, ws);
    assert s == p + Joined(ws) + ")";
    LaidJoined(s, p, ws, ")");
    UnitsLaid(s, |p|, ws);
  }

  lemma OpenAfterName(name: string, ws: seq<Written>)
    requires |ws| > 0 && AllWritable(ws)
    ensures var s := FunctionText(name, ws);
      |name| < |s| && s[0..|name|] == name && OpenEnd(s, |name|) == |name| + 1
  {
    var s := FunctionText(name, ws);
    var i := |name| + 1;
    assert s[0..|name|] == name;
    assert s[|name|] == '(';
    assert s[i] == Joined(ws)[0];
    assert OpenEnd(s, i) == i;
  }

  /** A matcher whose name starts with a letter that does not occur in the
      written text after its first character, and that does not match at
      the start, matches nowhere. */
  lemma NoMatchElsewhere(name: string, ws: seq<Written>, other: string, n: nat)
    requires |ws| > 0 && AllWritable(ws) && n >= 1 && |other| > 0 && 'a' <= other[0] <= 'z'
    requires forall k :: 1 <= k < |name| ==> name[k] != other[0]
    requires MatchAt(FunctionText(name, ws), 0, other, n).None?
    ensures Search(FunctionText(name, ws), other, n).None?
  {
    var s := FunctionText(name, ws);
    JoinedHasNoLetter(ws);
    forall q | 0 < q <= |s|
      ensures MatchAt(s, q, other, n).None?
    {
      if q < |name| {
        assert s[q] == name[q];
      } else if q > |name| && q < |s| - 1 {
        assert s[q] == Joined(ws)[q - |name| - 1];
      }
      NoMatchAt(s, q, other, n);
    }
  }

  lemma NoMatchAt(s: string, q: nat, name: string, n: nat)
    requires q <= |s| && n >= 1 && |name| > 0
    requires q < |s| ==> s[q] != name[0]
    ensures MatchAt(s, q, name, n).None?
  {
    if q + |name| <= |s| {
      assert s[q..q + |name|][0] == s[q];
    }
  }

  /** A character of the joined numbers. */
  predicate NumeralChar(c: char)
  {
    '0' <= c <= '9' || c == '.' || c == '%' || c == ',' || c == ' '
  }

  /** A written number holds digits, `.` and `%` only. */
  lemma WrittenNumeral(w: Written)
    requires Writable(w)
    ensures forall k :: 0 <= k < |WrittenText(w)| ==> NumeralChar(WrittenText(w)[k])
  {
    var t := WrittenText(w);
    match w
    case Whole(n, p) =>
      var ds := NatText(n);
      NatTextReads(n);
      assert forall k :: 0 <= k < |ds| ==> t[k] == ds[k];
    case Hundredths(k) =>
  }

  /** The joined numbers hold digits, `.`, `%`, `,` and spaces only. */
  lemma {:induction false} JoinedHasNoLetter(ws: seq<Written>)
    requires |ws| > 0 && AllWritable(ws)
    ensures forall k :: 0 <= k < |Joined(ws)| ==> NumeralChar(Joined(ws)[k])
    decreases |ws|
  {
    var t := WrittenText(ws[0]);
    WrittenNumeral(ws[0]);
    if |ws| > 1 {
      JoinedHasNoLetter(ws[1..]);
      var rest := Joined(ws[1..]);
      var j := Joined(ws);
      assert j == t + ", " + rest;
      forall k | 0 <= k < |j| ensures NumeralChar(j[k]) {
        if k >= |t| + 2 { assert j[k] == rest[k - |t| - 2]; }
      }
    }
  }

  // ---------------------------------------------------------------------
  // The parser's view of a functional text

  /** A non-empty word of lower-case letters, as the function names are. */
  predicate LowerWord(name: string)
  {
    |name| > 0 && forall k :: 0 <= k < |name| ==> 'a' <= name[k] <= 'z'
  }

  lemma FunctionNamesLower()
    ensures LowerWord("rgb") && LowerWord("rgba") && LowerWord("hsl")
    ensures LowerWord("hsla") && LowerWord("hsv") && LowerWord("hsva")
  {
  }

  /** A functional text is already trimmed and in lower case, and is not a
      colour keyword. */
  lemma NormalFunctionText(name: string, ws: seq<Written>)
    requires |ws| > 0 && AllWritable(ws) && LowerWord(name)
    ensures Normalize(FunctionText(name, ws)) == FunctionText(name, ws)
    ensures NameToHex(FunctionText(name, ws)).None?
  {
    FunctionTextTrimmed(name, ws);
    FunctionTextLower(name, ws);
    FunctionTextUnnamed(name, ws);
  }

  lemma FunctionTextTrimmed(name: string, ws: seq<Written>)
    requires |ws| > 0 && AllWritable(ws) && LowerWord(name)
    ensures TrimRight(TrimLeft(FunctionText(name, ws))) == FunctionText(name, ws)
  {
    var s := FunctionText(name, ws);
    assert !IsLeadJunk(s[0]) by { assert s[0] == name[0]; }
    assert TrimLeft(s) == s;
  }

  lemma FunctionTextLower(name: string, ws: seq<Written>)
    requires |ws| > 0 && AllWritable(ws) && LowerWord(name)
    ensures ToLower(FunctionText(name, ws)) == FunctionText(name, ws)
  {
    var s := FunctionText(name, ws);
    var j := Joined(ws);
    assert s == name + "(" + j + ")";
    JoinedHasNoLetter(ws);
    forall k | 0 <= k < |s| ensures LowerChar(s[k]) == s[k] {
      if k < |name| {
        assert s[k] == name[k];
      } else if k > |name| && k < |s| - 1 {
        assert s[k] == j[k - |name| - 1];
      }
    }
  }

  lemma FunctionTextUnnamed(name: string, ws: seq<Written>)
    requires |ws| > 0 && AllWritable(ws) && LowerWord(name)
    ensures NameToHex(FunctionText(name, ws)).None?
  {
    var s := FunctionText(name, ws);
    assert s[|name|] == '(';
    if NameToHex(s).Some? {
      NameGivesHex(s);
      assert false;
    }
  }

  /** A text already in normal form that names no colour and is not
      `transparent` goes straight to the matchers. */
  lemma NormalTextObject(s: string)
    requires Normalize(s) == s && NameToHex(s).None? && s != "transparent"
    ensures StringInputToObject(s) == MatchColor(s, "hex")
  {
  }

  /** A functional text goes straight to the matchers. */
  lemma FunctionTextObject(name: string, ws: seq<Written>)
    requires |ws| > 0 && AllWritable(ws) && LowerWord(name)
    ensures StringInputToObject(FunctionText(name, ws)) == MatchColor(FunctionText(name, ws), "hex")
  {
    var s := FunctionText(name, ws);
    NormalFunctionText(name, ws);
    assert s[|name|] == '(';
    assert s != "transparent" by {
      if |s| == |"transparent"| {
        assert s[|name|] != "transparent"[|name|];
      }
    }
    NormalTextObject(s);
  }

  /** What the matchers make of a functional text is what the whole
      parser makes of it. */
  lemma FunctionTextReads(name: string, ws: seq<Written>, r: Option<Record>)
    requires |ws| > 0 && AllWritable(ws) && LowerWord(name)
    requires MatchColor(FunctionText(name, ws), "hex") == r
    ensures StringInputToObject(FunctionText(name, ws)) == r
  {
    FunctionTextObject(name, ws);
  }

  /** The leftmost match of a matcher that matches at the start is the one
      at the start. */
  lemma SearchAtStart(s: string, name: string, n: nat)
    requires n >= 1 && MatchAt(s, 0, name, n).Some?
    ensures Search(s, name, n) == MatchAt(s, 0, name, n)
  {
  }

  /** The matcher for `other`, a proper prefix of `name` followed in `name`
      by a character that cannot open the numbers, does not match at the
      start. */
  lemma CutShort(name: string, ws: seq<Written>, other: string, n: nat)
    requires |ws| > 0 && AllWritable(ws) && n >= 1
    requires 0 < |other| < |name| && name[..|other|] == other && !IsOpenSep(name[|other|])
    ensures MatchAt(FunctionText(name, ws), 0, other, n).None?
  {
    var s := FunctionText(name, ws);
    assert s[0..|other|] == other;
    assert s[|other|] == name[|other|];
    assert OpenEnd(s, |other|) == |other|;
  }

  /** The matcher for `other`, which differs from `name` at `k`, does not
      match at the start. */
  lemma Differs(name: string, ws: seq<Written>, other: string, n: nat, k: nat)
    requires |ws| > 0 && AllWritable(ws) && n >= 1
    requires k < |other| && k < |name| && name[k] != other[k]
    ensures MatchAt(FunctionText(name, ws), 0, other, n).None?
  {
    var s := FunctionText(name, ws);
    assert s[k] == name[k];
    if |other| <= |s| {
      assert s[0..|other|][k] == s[k];
    }
  }

  /** The matcher for `other` finds nothing in a functional text for
      `name`, when `other` is cut short in `name`. */
  lemma NotFoundShort(name: string, ws: seq<Written>, other: string, n: nat)
    requires |ws| > 0 && AllWritable(ws) && n >= 1
    requires 0 < |other| < |name| && name[..|other|] == other && !IsOpenSep(name[|other|])
    requires 'a' <= other[0] <= 'z' && forall k :: 1 <= k < |name| ==> name[k] != other[0]
    ensures Search(FunctionText(name, ws), other, n).None?
  {
    CutShort(name, ws, other, n);
    NoMatchElsewhere(name, ws, other, n);
  }

  /** The matcher for `other` finds nothing in a functional text for
      `name`, when the two differ at `k`. */
  lemma NotFoundDiffering(name: string, ws: seq<Written>, other: string, n: nat, k: nat)
    requires |ws| > 0 && AllWritable(ws) && n >= 1
    requires k < |other| && k < |name| && name[k] != other[k]
    requires 'a' <= other[0] <= 'z' && forall j :: 1 <= j < |name| ==> name[j] != other[0]
    ensures Search(FunctionText(name, ws), other, n).None?
  {
    Differs(name, ws, other, n, k);
    NoMatchElsewhere(name, ws, other, n);
  }

  /** The matcher for `name` finds the numbers of a functional text for
      `name`. */
  lemma Found(name: string, ws: seq<Written>)
    requires |ws| > 0 && AllWritable(ws)
    ensures Search(FunctionText(name, ws), name, |ws|) == Some(ReadBackAll(ws))
  {
    MatchFunction(name, ws);
    SearchAtStart(FunctionText(name, ws), name, |ws|);
  }

  // The matcher chain, on any text, given which matchers find something

  lemma ChainRgb(s: string, m: seq<Field>)
    requires Search(s, "rgb", 3) == Some(m)
    ensures MatchColor(s, "hex") == Some(Record(Fields3("r", "g", "b", m), None))
  {
  }

  lemma ChainRgba(s: string, m: seq<Field>)
    requires Search(s, "rgb", 3).None? && Search(s, "rgba", 4) == Some(m)
    ensures MatchColor(s, "hex") == Some(Record(Fields4("r", "g", "b", m), None))
  {
  }

  lemma ChainHsl(s: string, m: seq<Field>)
    requires Search(s, "rgb", 3).None? && Search(s, "rgba", 4).None?
    requires Search(s, "hsl", 3) == Some(m)
    ensures MatchColor(s, "hex") == Some(Record(Fields3("h", "s", "l", m), None))
  {
  }

  lemma ChainHsla(s: string, m: seq<Field>)
    requires Search(s, "rgb", 3).None? && Search(s, "rgba", 4).None?
    requires Search(s, "hsl", 3).None? && Search(s, "hsla", 4) == Some(m)
    ensures MatchColor(s, "hex") == Some(Record(Fields4("h", "s", "l", m), None))
  {
  }

  lemma ChainHsv(s: string, m: seq<Field>)
    requires Search(s, "rgb", 3).None? && Search(s, "rgba", 4).None?
    requires Search(s, "hsl", 3).None? && Search(s, "hsla", 4).None?
    requires Search(s, "hsv", 3) == Some(m)
    ensures MatchColor(s, "hex") == Some(Record(Fields3("h", "s", "v", m), None))
  {
  }

  lemma ChainNone(s: string)
    requires Search(s, "rgb", 3).None? && Search(s, "rgba", 4).None?
    requires Search(s, "hsl", 3).None? && Search(s, "hsla", 4).None?
    requires Search(s, "hsv", 3).None? && |s| > 0 && !IsHexDigit(s[0])
    ensures MatchColor(s, "hex").None?
  {
  }

  /** `rgb(r, g, b)` reads as the record of its three numbers. */
  lemma RgbTextParses(ws: seq<Written>)
    requires |ws| == 3 && AllWritable(ws)
    ensures MatchColor(FunctionText("rgb", ws), "hex")
      == Some(Record(Fields3("r", "g", "b", ReadBackAll(ws)), None))
  {
    var s := FunctionText("rgb", ws);
    Found("rgb", ws);
    ChainRgb(s, ReadBackAll(ws));
  }

  /** `rgba(r, g, b, a)` is not read by the `rgb` matcher, and reads as the
      record of its four numbers. */
  lemma RgbaTextParses(ws: seq<Written>)
    requires |ws| == 4 && AllWritable(ws)
    ensures MatchColor(FunctionText("rgba", ws), "hex")
      == Some(Record(Fields4("r", "g", "b", ReadBackAll(ws)), None))
  {
    var s := FunctionText("rgba", ws);
    NotFoundShort("rgba", ws, "rgb", 3);
    Found("rgba", ws);
    ChainRgba(s, ReadBackAll(ws));
  }

  /** `hsl(h, s, l)` reads as the record of its three numbers. */
  lemma HslTextParses(ws: seq<Written>)
    requires |ws| == 3 && AllWritable(ws)
    ensures MatchColor(FunctionText("hsl", ws), "hex")
      == Some(Record(Fields3("h", "s", "l", ReadBackAll(ws)), None))
  {
    var s := FunctionText("hsl", ws);
    NotFoundDiffering("hsl", ws, "rgb", 3, 0);
    NotFoundDiffering("hsl", ws, "rgba", 4, 0);
    Found("hsl", ws);
    ChainHsl(s, ReadBackAll(ws));
  }

  /** `hsla(h, s, l, a)` reads as the record of its four numbers. */
  lemma HslaTextParses(ws: seq<Written>)
    requires |ws| == 4 && AllWritable(ws)
    ensures MatchColor(FunctionText("hsla", ws), "hex")
      == Some(Record(Fields4("h", "s", "l", ReadBackAll(ws)), None))
  {
    var s := FunctionText("hsla", ws);
    NotFoundDiffering("hsla", ws, "rgb", 3, 0);
    NotFoundDiffering("hsla", ws, "rgba", 4, 0);
    NotFoundShort("hsla", ws, "hsl", 3);
    Found("hsla", ws);
    ChainHsla(s, ReadBackAll(ws));
  }

  /** `hsv(h, s, v)` reads as the record of its three numbers. */
  lemma HsvTextParses(ws: seq<Written>)
    requires |ws| == 3 && AllWritable(ws)
    ensures MatchColor(FunctionText("hsv", ws), "hex")
      == Some(Record(Fields3("h", "s", "v", ReadBackAll(ws)), None))
  {
    var s := FunctionText("hsv", ws);
    NotFoundDiffering("hsv", ws, "rgb", 3, 0);
    NotFoundDiffering("hsv", ws, "rgba", 4, 0);
    NotFoundDiffering("hsv", ws, "hsl", 3, 2);
    NotFoundDiffering("hsv", ws, "hsla", 4, 2);
    Found("hsv", ws);
    ChainHsv(s, ReadBackAll(ws));
  }

  /** There is no `hsva` matcher: the text `hsva(h, s, v, a)` that
      `toHsvString` writes for a translucent colour is not a colour text at
      all. */
  lemma HsvaTextUnread(ws: seq<Written>)
    requires |ws| == 4 && AllWritable(ws)
    ensures StringInputToObject(FunctionText("hsva", ws)).None?
  {
    var s := FunctionText("hsva", ws);
    NotFoundDiffering("hsva", ws, "rgb", 3, 0);
    NotFoundDiffering("hsva", ws, "rgba", 4, 0);
    NotFoundDiffering("hsva", ws, "hsl", 3, 2);
    NotFoundDiffering("hsva", ws, "hsla", 4, 2);
    NotFoundShort("hsva", ws, "hsv", 3);
    assert s[0] == 'h';
    ChainNone(s);
    FunctionNamesLower();
    FunctionTextObject("hsva", ws);
  }

  // The whole parser on the functional texts

  /** `rgb(...)` as a whole colour text reads as the record of its numbers. */
  lemma RgbTextObject(ws: seq<Written>)
    requires |ws| == 3 && AllWritable(ws)
    ensures StringInputToObject(FunctionText("rgb", ws)) == Some(Record(Fields3("r", "g", "b", ReadBackAll(ws)), None))
  {
    RgbTextParses(ws);
    FunctionNamesLower();
    FunctionTextReads("rgb", ws, Some(Record(Fields3("r", "g", "b", ReadBackAll(ws)), None)));
  }

  /** `rgba(...)` as a whole colour text reads as the record of its numbers. */
  lemma RgbaTextObject(ws: seq<Written>)
    requires |ws| == 4 && AllWritable(ws)
    ensures StringInputToObject(FunctionText("rgba", ws)) == Some(Record(Fields4("r", "g", "b", ReadBackAll(ws)), None))
  {
    RgbaTextParses(ws);
    FunctionNamesLower();
    FunctionTextReads("rgba", ws, Some(Record(Fields4("r", "g", "b", ReadBackAll(ws)), None)));
  }

  /** `hsl(...)` as a whole colour text reads as the record of its numbers. */
  lemma HslTextObject(ws: seq<Written>)
    requires |ws| == 3 && AllWritable(ws)
    ensures StringInputToObject(FunctionText("hsl", ws)) == Some(Record(Fields3("h", "s", "l", ReadBackAll(ws)), None))
  {
    HslTextParses(ws);
    FunctionNamesLower();
    FunctionTextReads("hsl", ws, Some(Record(Fields3("h", "s", "l", ReadBackAll(ws)), None)));
  }

  /** `hsla(...)` as a whole colour text reads as the record of its numbers. */
  lemma HslaTextObject(ws: seq<Written>)
    requires |ws| == 4 && AllWritable(ws)
    ensures StringInputToObject(FunctionText("hsla", ws)) == Some(Record(Fields4("h", "s", "l", ReadBackAll(ws)), None))
  {
    HslaTextParses(ws);
    FunctionNamesLower();
    FunctionTextReads("hsla", ws, Some(Record(Fields4("h", "s", "l", ReadBackAll(ws)), None)));
  }

  /** `hsv(...)` as a whole colour text reads as the record of its numbers. */
  lemma HsvTextObject(ws: seq<Written>)
    requires |ws| == 3 && AllWritable(ws)
    ensures StringInputToObject(FunctionText("hsv", ws)) == Some(Record(Fields3("h", "s", "v", ReadBackAll(ws)), None))
  {
    HsvTextParses(ws);
    FunctionNamesLower();
    FunctionTextReads("hsv", ws, Some(Record(Fields3("h", "s", "v", ReadBackAll(ws)), None)));
  }
}
