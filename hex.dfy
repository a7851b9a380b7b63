/** Hexadecimal colour text: `Number.prototype.toString(16)` on channel
    values, `pad2`, `rgbToHex` and `parseHex`. */
module Hex {
  import opened JsValues

  /** A digit `toString(16)` writes: `0`-`9` or a lower-case `a`-`f`. */
  predicate IsLowerHexDigit(ch: char)
  {
    '0' <= ch <= '9' || 'a' <= ch <= 'f'
  }

  predicate IsHexDigit(ch: char)
  {
    '0' <= ch <= '9' || 'a' <= ch <= 'f' || 'A' <= ch <= 'F'
  }

  predicate IsLowerHex(s: string)
  {
    forall i :: 0 <= i < |s| ==> IsLowerHexDigit(s[i])
  }

  /** The value of one hexadecimal digit, in either case. */
  function DigitValue(ch: char): (v: nat)
    requires IsHexDigit(ch)
    ensures v < 16
  {
    if '0' <= ch <= '9' then (ch - '0') as nat
    else if 'a' <= ch <= 'f' then (ch - 'a') as nat + 10
    else (ch - 'A') as nat + 10
  }

  /** The lower-case digit of a value below 16. */
  function DigitChar(v: nat): (ch: char)
    requires v < 16
    ensures IsLowerHexDigit(ch) && IsHexDigit(ch) && DigitValue(ch) == v
  {
    if v < 10 then ('0' as int + v) as char else ('a' as int + (v - 10)) as char
  }

  /** `parseInt(s, 16)` on a non-empty run of hexadecimal digits. */
  function ParseHex(s: string): nat
    requires forall i :: 0 <= i < |s| ==> IsHexDigit(s[i])
  {
    if |s| == 0 then 0 else ParseHex(s[..|s| - 1]) * 16 + DigitValue(s[|s| - 1])
  }

  /** `n.toString(16)` for a non-negative integer: lower-case digits, no
      leading zero. */
  function ToHex(n: nat): (s: string)
    ensures 1 <= |s| && IsLowerHex(s)
    ensures forall i :: 0 <= i < |s| ==> IsHexDigit(s[i])
    ensures n < 16 <==> |s| == 1
    ensures |s| == 1 || s[0] != '0'
  {
    if n < 16 then [DigitChar(n)] else ToHex(n / 16) + [DigitChar(n % 16)]
  }

  /** Reading back what `toString(16)` writes gives the number. */
  lemma {:induction false} ToHexRoundTrip(n: nat)
    ensures ParseHex(ToHex(n)) == n
  {
    if n >= 16 {
      var s := ToHex(n);
      assert s[..|s| - 1] == ToHex(n / 16);
      ToHexRoundTrip(n / 16);
    }
  }

  /** `pad2`: a one-character text gets a leading `0`. */
  function Pad2(c: string): (s: string)
    ensures |c| == 1 ==> s == ['0'] + c
    ensures |c| != 1 ==> s == c
  {
    if |c| == 1 then "0" + c else c
  }

  /** The two-digit text of a channel value below 256, as `rgbToHex` writes
      it. */
  function HexPair(n: nat): (s: string)
    requires n < 256
    ensures |s| == 2 && IsLowerHex(s)
    ensures s == [DigitChar(n / 16), DigitChar(n % 16)]
    ensures ParseHex(s) == n
  {
    var s := Pad2(ToHex(n));
    PairShape(n);
    ParseHexPair(s[0], s[1]);
    s
  }

  lemma PairShape(n: nat)
    requires n < 256
    ensures Pad2(ToHex(n)) == [DigitChar(n / 16), DigitChar(n % 16)]
  {
    if n >= 16 {
      assert ToHex(n / 16) == [DigitChar(n / 16)];
    }
  }

  lemma ParseHexPair(a: char, b: char)
    requires IsHexDigit(a) && IsHexDigit(b)
    ensures ParseHex([a, b]) == DigitValue(a) * 16 + DigitValue(b)
  {
    assert ParseHex([a]) == DigitValue(a) by {
      assert [a][..0] == [];
    }
    assert [a, b][..1] == [a];
  }

  predicate IsByte(x: real)
  {
    0.0 <= x <= 255.0
  }

  /** `Math.round` of a value in [0,255], as a byte. */
  function RoundByte(x: real): (n: nat)
    requires IsByte(x)
    ensures n < 256 && n == Round(x)
  {
    Round(x)
  }

  /** Whether a two-character text repeats one character. */
  predicate Doubled(s: string)
  {
    |s| == 2 && s[0] == s[1]
  }

  /** `rgbToHex`: the two-digit texts of the rounded channels, shortened to
      one digit each when `allow3Char` is set and every pair repeats one
      digit. */
  function RgbToHex(r: real, g: real, b: real, allow3Char: bool): (s: string)
    requires IsByte(r) && IsByte(g) && IsByte(b)
    ensures var hr := HexPair(RoundByte(r)); var hg := HexPair(RoundByte(g)); var hb := HexPair(RoundByte(b));
      && (|s| == 3 <==> allow3Char && Doubled(hr) && Doubled(hg) && Doubled(hb))
      && (|s| == 3 ==> [s[0], s[0]] == hr && [s[1], s[1]] == hg && [s[2], s[2]] == hb)
      && (|s| != 3 ==> |s| == 6 && s[0..2] == hr && s[2..4] == hg && s[4..6] == hb)
  {
    var hr := HexPair(RoundByte(r));
    var hg := HexPair(RoundByte(g));
    var hb := HexPair(RoundByte(b));
    if allow3Char && Doubled(hr) && Doubled(hg) && Doubled(hb) then
      [hr[0], hg[0], hb[0]]
    else
      var s := hr + hg + hb;
      assert s[0..2] == hr && s[2..4] == hg && s[4..6] == hb;
      s
  }

  /** Reading the channels back from `rgbToHex`'s text, expanding a short
      form digit by digit as the hex matchers do, gives the rounded
      channels. */
  lemma RgbToHexRoundTrip(r: real, g: real, b: real, allow3Char: bool)
    requires IsByte(r) && IsByte(g) && IsByte(b)
    ensures var s := RgbToHex(r, g, b, allow3Char);
      && (|s| == 6 || |s| == 3)
      && (forall i :: 0 <= i < |s| ==> IsHexDigit(s[i]))
      && IsLowerHex(s)
      && (|s| == 6 ==> ParseHex(s[0..2]) == Round(r) && ParseHex(s[2..4]) == Round(g) && ParseHex(s[4..6]) == Round(b))
      && (|s| == 3 ==> ParseHex([s[0], s[0]]) == Round(r) && ParseHex([s[1], s[1]]) == Round(g) && ParseHex([s[2], s[2]]) == Round(b))
  {
    var s := RgbToHex(r, g, b, allow3Char);
    var hr := HexPair(RoundByte(r));
    var hg := HexPair(RoundByte(g));
    var hb := HexPair(RoundByte(b));
    assert IsHexDigit(hr[0]) && IsHexDigit(hr[1]) && IsHexDigit(hg[0]) && IsHexDigit(hg[1]) && IsHexDigit(hb[0]) && IsHexDigit(hb[1]);
    if |s| == 3 {
      assert s == [hr[0], hg[0], hb[0]];
    } else {
      assert s == hr + hg + hb;
    }
  }
}
