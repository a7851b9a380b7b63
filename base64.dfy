// `base64encode`: the picker encodes the SVG it draws for a slider's
// background into a `data:` URL. The input is a JavaScript string, read
// one UTF-16 code unit at a time with `charCodeAt`.

module Base64 {

  /** A UTF-16 code unit, as `charCodeAt` returns it. */
  type Unit = bv16

  /** `n` consecutive characters starting at `first`. */
  function Run(first: char, n: nat): (s: string)
    requires first as int + n < 0xD800
    ensures |s| == n && forall k :: 0 <= k < n ==> s[k] as int == first as int + k
  {
    seq(n, k requires 0 <= k < n => (first as int + k) as char)
  }

  /** The lookup string of the encoder,
      `ABCDEFGHIJKLMNOPQRSTUVWXYZabcdefghijklmnopqrstuvwxyz0123456789+/=`:
      the alphabet of section 4 of RFC 4648 followed by the pad character. */
  const Alphabet: string := Run('A', 26) + Run('a', 26) + Run('0', 10) + "+/="

  /** One of the 64 digits of section 4 of RFC 4648. */
  predicate IsDigit(c: char)
  {
    c in Alphabet[..64]
  }

  /** The pad character is no digit. */
  lemma PadIsNoDigit()
    ensures !IsDigit('=')
  {
    assert forall k :: 0 <= k < 64 ==> Alphabet[..64][k] != '=';
  }

  /** The digit `b64.charAt(v)` for a 6-bit value. */
  function Digit(v: bv6): (c: char)
    ensures IsDigit(c)
  {
    assert Alphabet[v as int] == Alphabet[..64][v as int];
    Alphabet[v as int]
  }

  /** `bits >> at & 0x3f`: the six bits from position `at` up. */
  function Sextet(bits: bv32, at: nat): bv6
    requires at < 32
  {
    ((bits >> at) & 0x3f) as bv6
  }

  /** `data.charCodeAt(k)` in the 32-bit arithmetic of the shifts: past
      the end it is `NaN`, which `<<` and `|` treat as 0. */
  function CodeAt(data: seq<Unit>, k: nat): bv32
  {
    if k < |data| then data[k] as bv32 else 0
  }

  /** `o1 << 16 | o2 << 8 | o3`: three code units in one 32-bit integer
      (a unit above 255 overlaps its neighbour). */
  function Pack(o1: bv32, o2: bv32, o3: bv32): bv32
  {
    (o1 << 16) | (o2 << 8) | o3
  }

  /** The packed bits of the units at `data[i..i+3]`. */
  function Bits(data: seq<Unit>, i: nat): bv32
  {
    Pack(CodeAt(data, i), CodeAt(data, i + 1), CodeAt(data, i + 2))
  }

  /** The four characters one pass of the loop appends for the digits
      `h1` to `h4`. */
  function QuadOf(h1: bv6, h2: bv6, h3: bv6, h4: bv6): (q: string)
    ensures |q| == 4
  {
    [Digit(h1), Digit(h2), Digit(h3), Digit(h4)]
  }

  /** The quad for the units at `data[0..3]`: their 24 bits cut into four
      6-bit digits. */
  function Quad(data: seq<Unit>): (q: string)
    ensures |q| == 4
  {
    var bits := Bits(data, 0);
    QuadOf(Sextet(bits, 18), Sextet(bits, 12), Sextet(bits, 6), Sextet(bits, 0))
  }

  /** What the loop leaves in `tmp_arr`, joined: one quad per started
      group of three units. */
  function Quads(data: seq<Unit>): (enc: string)
    requires |data| > 0
    ensures |enc| == 4 * ((|data| + 2) / 3)
    decreases |data|
  {
    Quad(data) + if |data| > 3 then Quads(data[3..]) else []
  }

  /** The last line of the encoder: for `r = n % 3` other than 0 the last
      `3 - r` characters go, and `'==='.slice(r || 3)` is appended. */
  function Pad(enc: string, n: nat): string
    requires |enc| >= 4
  {
    var r := n % 3;
    (if r != 0 then enc[..|enc| + r - 3] else enc) + "==="[(if r != 0 then r else 3)..]
  }

  /** `base64encode(data)` as a value; the empty string comes back as it is. */
  function Encoding(data: seq<Unit>): string
  {
    if |data| == 0 then [] else Pad(Quads(data), |data|)
  }

  /** `tmp_arr.join('')`. */
  function Join(parts: seq<string>): string
  {
    if |parts| == 0 then [] else Join(parts[..|parts| - 1]) + parts[|parts| - 1]
  }

  /** `base64encode(data)`, with its do-while loop over groups of three
      units. */
  method Base64Encode(data: seq<Unit>) returns (enc: string)
    ensures enc == Encoding(data)
  {
    if |data| == 0 {
      return [];
    }
    var i := 0;
    var tmp: seq<string> := [];
    var going := true;
    assert Join(tmp) + Quads(data[i..]) == Quads(data) by {
      assert data[0..] == data;
    }
    hide Quad, Quads, Join;
    while going
      invariant going ==> 0 <= i < |data| && Join(tmp) + Quads(data[i..]) == Quads(data)
      invariant !going ==> Join(tmp) == Quads(data)
      decreases |data| - i
    {
      var quad := EncodeGroup(data, i);
      QuadsStep(data[i..]);
      ghost var tail: string := if i + 3 < |data| then Quads(data[i + 3..]) else [];
      if i + 3 < |data| {
        assert data[i..][3..] == data[i + 3..];
      }
      assert Quads(data[i..]) == quad + tail;
      JoinAppend(tmp, quad);
      ghost var before := Join(tmp);
      tmp := tmp + [quad];
      Assoc(before, quad, tail);
      i := i + 3;
      going := i < |data|;
    }
    enc := Join(tmp);
    var r := |data| % 3;
    enc := (if r != 0 then enc[..|enc| + r - 3] else enc) + "==="[(if r != 0 then r else 3)..];
  }

  /** One pass of the loop: the units at `i`, `i + 1` and `i + 2` (the
      `charCodeAt(i++)` calls), packed and cut into four digits. */
  method EncodeGroup(data: seq<Unit>, i: nat) returns (quad: string)
    requires i < |data|
    ensures quad == Quad(data[i..])
  {
    hide Digit, Sextet, CodeAt, Pack;
    var o1 := CodeAt(data, i);
    var o2 := CodeAt(data, i + 1);
    var o3 := CodeAt(data, i + 2);
    var bits := Pack(o1, o2, o3);
    var h1 := Sextet(bits, 18);
    var h2 := Sextet(bits, 12);
    var h3 := Sextet(bits, 6);
    var h4 := Sextet(bits, 0);
    quad := [Digit(h1), Digit(h2), Digit(h3), Digit(h4)];
    QuadAt(data, i);
  }

  lemma Assoc(a: string, b: string, c: string)
    ensures a + b + c == a + (b + c)
  {
  }

  lemma QuadAt(data: seq<Unit>, i: nat)
    requires i < |data|
    ensures var bits := Bits(data, i);
            Quad(data[i..]) == QuadOf(Sextet(bits, 18), Sextet(bits, 12), Sextet(bits, 6), Sextet(bits, 0))
  {
    CodesAfter(data, i);
    hide CodeAt, QuadOf, Sextet, Pack;
  }

  lemma CodesAfter(data: seq<Unit>, i: nat)
    requires i < |data|
    ensures CodeAt(data[i..], 0) == CodeAt(data, i)
    ensures CodeAt(data[i..], 1) == CodeAt(data, i + 1)
    ensures CodeAt(data[i..], 2) == CodeAt(data, i + 2)
  {
  }

  lemma QuadsStep(data: seq<Unit>)
    requires |data| > 0
    ensures Quads(data) == Quad(data) + if |data| > 3 then Quads(data[3..]) else []
  {
    hide Quad;
  }

  lemma JoinAppend(tmp: seq<string>, quad: string)
    ensures Join(tmp + [quad]) == Join(tmp) + quad
  {
    assert (tmp + [quad])[..|tmp|] == tmp;
  }

  // ---------------------------------------------------------------------
  // Shape of the output

  /** How many `=` close an encoding of `n` units. */
  function Padding(n: nat): nat
  {
    (3 - n % 3) % 3
  }

  /** Four characters for every started group of three units. */
  lemma EncodingLength(data: seq<Unit>)
    ensures |Encoding(data)| == 4 * ((|data| + 2) / 3)
  {
  }

  /** Every character of the quads is a digit. */
  lemma {:induction false} QuadsDigits(data: seq<Unit>)
    requires |data| > 0
    ensures forall k :: 0 <= k < |Quads(data)| ==> IsDigit(Quads(data)[k])
    decreases |data|
  {
    QuadDigits(data);
    if |data| > 3 {
      QuadsDigits(data[3..]);
    }
    hide Quad, IsDigit;
    QuadsStep(data);
  }

  lemma QuadDigits(data: seq<Unit>)
    ensures forall k :: 0 <= k < 4 ==> IsDigit(Quad(data)[k])
  {
    hide Sextet, Pack, CodeAt, IsDigit;
  }

  /** Digits up to the padding, then `==` after a lone last unit, `=`
      after a last pair, nothing after a full group. */
  lemma EncodingShape(data: seq<Unit>)
    ensures var e := Encoding(data);
            && Padding(|data|) <= |e|
            && (forall k :: 0 <= k < |e| - Padding(|data|) ==> IsDigit(e[k]))
            && (forall k :: |e| - Padding(|data|) <= k < |e| ==> e[k] == '=')
  {
    if |data| > 0 {
      var q := Quads(data);
      QuadsDigits(data);
      assert |q| >= 4;
      hide Quads, IsDigit;
      var e := Encoding(data);
      var r := |data| % 3;
      if r == 0 {
        assert e == q + [];
      } else if r == 1 {
        assert e == q[..|q| - 2] + "==";
      } else {
        assert e == q[..|q| - 1] + "=";
      }
    }
  }

  /** Exactly the characters past the padding point are `=`. */
  lemma PadsAtTheEnd(data: seq<Unit>, k: nat)
    requires k < |Encoding(data)|
    ensures Encoding(data)[k] == '=' <==> k >= |Encoding(data)| - Padding(|data|)
  {
    EncodingShape(data);
    PadIsNoDigit();
  }

  // ---------------------------------------------------------------------
  // Section 4 of RFC 4648

  /** The four digits of the 24-bit group of three octets, as section 4
      of RFC 4648 cuts it. */
  function GroupDigits(b0: bv8, b1: bv8, b2: bv8): (d: string)
    ensures |d| == 4
  {
    [Digit((b0 >> 2) as bv6), Digit((((b0 & 3) << 4) | (b1 >> 4)) as bv6),
     Digit((((b1 & 15) << 2) | (b2 >> 6)) as bv6), Digit((b2 & 63) as bv6)]
  }

  /** Base 64 encoding as section 4 of RFC 4648 defines it on octets: each
      group of three octets gives four digits; a short last group is
      completed with zero bits, gives two digits and `==` (one octet) or
      three digits and `=` (two octets). */
  function Rfc4648(bytes: seq<bv8>): string
    decreases |bytes|
  {
    if |bytes| == 0 then []
    else if |bytes| == 1 then GroupDigits(bytes[0], 0, 0)[..2] + "=="
    else if |bytes| == 2 then GroupDigits(bytes[0], bytes[1], 0)[..3] + "="
    else GroupDigits(bytes[0], bytes[1], bytes[2]) + Rfc4648(bytes[3..])
  }

  /** A string whose code units are all below 256, read as octets. */
  predicate ByteValued(data: seq<Unit>)
  {
    forall k :: 0 <= k < |data| ==> data[k] < 256
  }

  function Octets(data: seq<Unit>): (bytes: seq<bv8>)
    requires ByteValued(data)
    ensures |bytes| == |data|
    ensures forall k :: 0 <= k < |data| ==> bytes[k] as bv32 == data[k] as bv32
  {
    seq(|data|, k requires 0 <= k < |data| => Octet(data[k]))
  }

  function Octet(u: Unit): (b: bv8)
    requires u < 256
    ensures b as bv32 == u as bv32
  {
    u as bv8
  }

  /** The shifts and masks of one pass pick the same 6-bit digits as the
      RFC's cut of the group. */
  lemma SixBitDigits(b0: bv8, b1: bv8, b2: bv8)
    ensures var bits := Pack(b0 as bv32, b1 as bv32, b2 as bv32);
            QuadOf(Sextet(bits, 18), Sextet(bits, 12), Sextet(bits, 6), Sextet(bits, 0)) == GroupDigits(b0, b1, b2)
  {
    FirstDigit(b0, b1, b2);
    SecondDigit(b0, b1, b2);
    ThirdDigit(b0, b1, b2);
    FourthDigit(b0, b1, b2);
    hide Sextet, Pack;
  }

  lemma FirstDigit(b0: bv8, b1: bv8, b2: bv8)
    ensures Sextet(Pack(b0 as bv32, b1 as bv32, b2 as bv32), 18) == (b0 >> 2) as bv6
  {
  }

  lemma SecondDigit(b0: bv8, b1: bv8, b2: bv8)
    ensures Sextet(Pack(b0 as bv32, b1 as bv32, b2 as bv32), 12) == (((b0 & 3) << 4) | (b1 >> 4)) as bv6
  {
  }

  lemma ThirdDigit(b0: bv8, b1: bv8, b2: bv8)
    ensures Sextet(Pack(b0 as bv32, b1 as bv32, b2 as bv32), 6) == (((b1 & 15) << 2) | (b2 >> 6)) as bv6
  {
  }

  lemma FourthDigit(b0: bv8, b1: bv8, b2: bv8)
    ensures Sextet(Pack(b0 as bv32, b1 as bv32, b2 as bv32), 0) == (b2 & 63) as bv6
  {
  }

  /** The octet at `k`, or the zero bits that complete a short group. */
  function OctetAt(data: seq<Unit>, k: nat): bv8
    requires ByteValued(data)
  {
    if k < |data| then Octets(data)[k] else 0
  }

  /** For octets, the quad of the first group is the RFC's group. */
  lemma QuadIsGroup(data: seq<Unit>)
    requires ByteValued(data)
    ensures Quad(data) == GroupDigits(OctetAt(data, 0), OctetAt(data, 1), OctetAt(data, 2))
  {
    var b0, b1, b2 := OctetAt(data, 0), OctetAt(data, 1), OctetAt(data, 2);
    assert CodeAt(data, 0) == b0 as bv32 && CodeAt(data, 1) == b1 as bv32 && CodeAt(data, 2) == b2 as bv32;
    SixBitDigits(b0, b1, b2);
    hide Sextet, Pack, QuadOf, GroupDigits, CodeAt;
  }

  /** For a string of octets the encoder is RFC 4648 base 64. */
  lemma {:induction false} EncodingIsRfc4648(data: seq<Unit>)
    requires ByteValued(data)
    ensures Encoding(data) == Rfc4648(Octets(data))
    decreases |data|
  {
    if |data| == 0 {
    } else if |data| <= 3 {
      LastGroup(data);
    } else {
      GroupStep(data);
      EncodingIsRfc4648(data[3..]);
    }
  }

  /** A last group of one, two or three octets. */
  lemma LastGroup(data: seq<Unit>)
    requires ByteValued(data) && 1 <= |data| <= 3
    ensures Encoding(data) == Rfc4648(Octets(data))
  {
    var bytes := Octets(data);
    QuadIsGroup(data);
    QuadsStep(data);
    var q := Quad(data);
    hide Quad, Quads, GroupDigits, Octets, Digit;
    if |data| == 1 {
      assert q == GroupDigits(bytes[0], 0, 0);
      assert Encoding(data) == q[..2] + "==";
    } else if |data| == 2 {
      assert q == GroupDigits(bytes[0], bytes[1], 0);
      assert Encoding(data) == q[..3] + "=";
    } else {
      assert q == GroupDigits(bytes[0], bytes[1], bytes[2]);
      assert bytes[3..] == [];
      assert Encoding(data) == q;
    }
  }

  /** A full group followed by more units: both encodings emit the
      group's four digits and carry on with the rest. */
  lemma GroupStep(data: seq<Unit>)
    requires ByteValued(data) && |data| > 3
    ensures ByteValued(data[3..])
    ensures Encoding(data) == GroupDigits(Octets(data)[0], Octets(data)[1], Octets(data)[2]) + Encoding(data[3..])
    ensures Rfc4648(Octets(data)) == GroupDigits(Octets(data)[0], Octets(data)[1], Octets(data)[2]) + Rfc4648(Octets(data[3..]))
  {
    var bytes := Octets(data);
    var rest := data[3..];
    QuadIsGroup(data);
    QuadsStep(data);
    RestOctets(data);
    var q := Quad(data);
    hide Quad, GroupDigits, Octets, Digit;
    PadAfterQuad(q, Quads(rest), |data|);
  }

  lemma RestOctets(data: seq<Unit>)
    requires ByteValued(data) && |data| >= 3
    ensures ByteValued(data[3..]) && Octets(data[3..]) == Octets(data)[3..]
  {
  }

  lemma PadAfterQuad(q: string, tail: string, n: nat)
    requires |q| == 4 && |tail| >= 4 && n >= 3
    ensures Pad(q + tail, n) == q + Pad(tail, n - 3)
  {
    var r := n % 3;
    assert (n - 3) % 3 == r;
    if r != 0 {
      assert (q + tail)[..|q + tail| + r - 3] == q + tail[..|tail| + r - 3];
    }
  }
}
