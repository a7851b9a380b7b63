/** The colour keyword table `names`, its inversion `hexNames` by `flip`,
    and the lookups the engine makes in them. */
module Names {
  import opened JsValues
  import opened Hex

  // The 148 keywords of `names`, in the order the table lists them (kept in
  // chunks so that facts about the table can be proved chunk by chunk).
  const Names0: seq<(string, string)> := [
    ("aliceblue", "f0f8ff"),
    ("antiquewhite", "faebd7"),
    ("aqua", "0ff"),
    ("aquamarine", "7fffd4"),
    ("azure", "f0ffff"),
    ("beige", "f5f5dc"),
    ("bisque", "ffe4c4"),
    ("black", "000"),
    ("blanchedalmond", "ffebcd"),
    ("blue", "00f"),
    ("blueviolet", "8a2be2"),
    ("brown", "a52a2a"),
    ("burlywood", "deb887"),
    ("burntsienna", "ea7e5d"),
    ("cadetblue", "5f9ea0"),
    ("chartreuse", "7fff00"),
    ("chocolate", "d2691e"),
    ("coral", "ff7f50"),
    ("cornflowerblue", "6495ed"),
    ("cornsilk", "fff8dc"),
    ("crimson", "dc143c"),
    ("cyan", "0ff"),
    ("darkblue", "00008b"),
    ("darkcyan", "008b8b"),
    ("darkgoldenrod", "b8860b")
  ]

  const Names1: seq<(string, string)> := [
    ("darkgray", "a9a9a9"),
    ("darkgreen", "006400"),
    ("darkgrey", "a9a9a9"),
    ("darkkhaki", "bdb76b"),
    ("darkmagenta", "8b008b"),
    ("darkolivegreen", "556b2f"),
    ("darkorange", "ff8c00"),
    ("darkorchid", "9932cc"),
    ("darkred", "8b0000"),
    ("darksalmon", "e9967a"),
    ("darkseagreen", "8fbc8f"),
    ("darkslateblue", "483d8b"),
    ("darkslategray", "2f4f4f"),
    ("darkslategrey", "2f4f4f"),
    ("darkturquoise", "00ced1"),
    ("darkviolet", "9400d3"),
    ("deeppink", "ff1493"),
    ("deepskyblue", "00bfff"),
    ("dimgray", "696969"),
    ("dimgrey", "696969"),
    ("dodgerblue", "1e90ff"),
    ("firebrick", "b22222"),
    ("floralwhite", "fffaf0"),
    ("forestgreen", "228b22"),
    ("fuchsia", "f0f")
  ]

  const Names2: seq<(string, string)> := [
    ("gainsboro", "dcdcdc"),
    ("ghostwhite", "f8f8ff"),
    ("gold", "ffd700"),
    ("goldenrod", "daa520"),
    ("gray", "808080"),
    ("green", "008000"),
    ("greenyellow", "adff2f"),
    ("grey", "808080"),
    ("honeydew", "f0fff0"),
    ("hotpink", "ff69b4"),
    ("indianred", "cd5c5c"),
    ("indigo", "4b0082"),
    ("ivory", "fffff0"),
    ("khaki", "f0e68c"),
    ("lavender", "e6e6fa"),
    ("lavenderblush", "fff0f5"),
    ("lawngreen", "7cfc00"),
    ("lemonchiffon", "fffacd"),
    ("lightblue", "add8e6"),
    ("lightcoral", "f08080"),
    ("lightcyan", "e0ffff"),
    ("lightgoldenrodyellow", "fafad2"),
    ("lightgray", "d3d3d3"),
    ("lightgreen", "90ee90"),
    ("lightgrey", "d3d3d3")
  ]

  const Names3: seq<(string, string)> := [
    ("lightpink", "ffb6c1"),
    ("lightsalmon", "ffa07a"),
    ("lightseagreen", "20b2aa"),
    ("lightskyblue", "87cefa"),
    ("lightslategray", "789"),
    ("lightslategrey", "789"),
    ("lightsteelblue", "b0c4de"),
    ("lightyellow", "ffffe0"),
    ("lime", "0f0"),
    ("limegreen", "32cd32"),
    ("linen", "faf0e6"),
    ("magenta", "f0f"),
    ("maroon", "800000"),
    ("mediumaquamarine", "66cdaa"),
    ("mediumblue", "0000cd"),
    ("mediumorchid", "ba55d3"),
    ("mediumpurple", "9370db"),
    ("mediumseagreen", "3cb371"),
    ("mediumslateblue", "7b68ee"),
    ("mediumspringgreen", "00fa9a"),
    ("mediumturquoise", "48d1cc"),
    ("mediumvioletred", "c71585"),
    ("midnightblue", "191970"),
    ("mintcream", "f5fffa"),
    ("mistyrose", "ffe4e1")
  ]

  const Names4: seq<(string, string)> := [
    ("moccasin", "ffe4b5"),
    ("navajowhite", "ffdead"),
    ("navy", "000080"),
    ("oldlace", "fdf5e6"),
    ("olive", "808000"),
    ("olivedrab", "6b8e23"),
    ("orange", "ffa500"),
    ("orangered", "ff4500"),
    ("orchid", "da70d6"),
    ("palegoldenrod", "eee8aa"),
    ("palegreen", "98fb98"),
    ("paleturquoise", "afeeee"),
    ("palevioletred", "db7093"),
    ("papayawhip", "ffefd5"),
    ("peachpuff", "ffdab9"),
    ("peru", "cd853f"),
    ("pink", "ffc0cb"),
    ("plum", "dda0dd"),
    ("powderblue", "b0e0e6"),
    ("purple", "800080"),
    ("red", "f00"),
    ("rosybrown", "bc8f8f"),
    ("royalblue", "4169e1"),
    ("saddlebrown", "8b4513"),
    ("salmon", "fa8072")
  ]

  const Names5: seq<(string, string)> := [
    ("sandybrown", "f4a460"),
    ("seagreen", "2e8b57"),
    ("seashell", "fff5ee"),
    ("sienna", "a0522d"),
    ("silver", "c0c0c0"),
    ("skyblue", "87ceeb"),
    ("slateblue", "6a5acd"),
    ("slategray", "708090"),
    ("slategrey", "708090"),
    ("snow", "fffafa"),
    ("springgreen", "00ff7f"),
    ("steelblue", "4682b4"),
    ("tan", "d2b48c"),
    ("teal", "008080"),
    ("thistle", "d8bfd8"),
    ("tomato", "ff6347"),
    ("turquoise", "40e0d0"),
    ("violet", "ee82ee"),
    ("wheat", "f5deb3"),
    ("white", "fff"),
    ("whitesmoke", "f5f5f5"),
    ("yellow", "ff0"),
    ("yellowgreen", "9acd32")
  ]

  const Names: seq<(string, string)> := Names0 + (Names1 + (Names2 + (Names3 + (Names4 + Names5))))

  /** The value an object literal built from `entries` holds under `key`
      (`None` for `undefined`); as in JavaScript, the last entry with the key
      wins. */
  function Lookup(entries: seq<(string, string)>, key: string): Option<string>
  {
    if |entries| == 0 then None
    else if entries[|entries| - 1].0 == key then Some(entries[|entries| - 1].1)
    else Lookup(entries[..|entries| - 1], key)
  }

  /** The lookup finds nothing exactly when no entry has the key, and
      otherwise gives the value of the last entry with that key. */
  lemma {:induction false} LookupSpec(entries: seq<(string, string)>, key: string)
    ensures Lookup(entries, key).None? <==> forall i :: 0 <= i < |entries| ==> entries[i].0 != key
    ensures Lookup(entries, key).Some? ==>
      exists i :: 0 <= i < |entries| && entries[i] == (key, Lookup(entries, key).value) && LastKey(entries, i)
  {
    if |entries| > 0 {
      var n := |entries| - 1;
      if entries[n].0 == key {
        assert LastKey(entries, n);
      } else {
        var e := entries[..n];
        LookupSpec(e, key);
        var r := Lookup(e, key);
        assert forall i :: 0 <= i < n ==> e[i] == entries[i];
        if r.Some? {
          var i :| 0 <= i < n && e[i] == (key, r.value) && LastKey(e, i);
          assert entries[i] == (key, r.value) && LastKey(entries, i);
        }
      }
    }
  }

  /** No entry after the `i`th has the same key. */
  predicate LastKey(entries: seq<(string, string)>, i: nat)
    requires i < |entries|
  {
    forall j :: i < j < |entries| ==> entries[j].0 != entries[i].0
  }

  /** No entry after the `i`th has the same value. */
  predicate LastValue(entries: seq<(string, string)>, i: nat)
    requires i < |entries|
  {
    forall j :: i < j < |entries| ==> entries[j].1 != entries[i].1
  }

  /** `flip`: every value becomes a key for the name it was paired with; when
      several names share a value, the one listed last wins. */
  function FlipSpec(entries: seq<(string, string)>): (m: map<string, string>)
    ensures m.Keys == set i | 0 <= i < |entries| :: entries[i].1
    ensures forall v :: v in m ==>
      exists i :: 0 <= i < |entries| && entries[i] == (m[v], v) && LastValue(entries, i)
  {
    if |entries| == 0 then map[]
    else
      var n := |entries| - 1;
      var prev := FlipSpec(entries[..n]);
      FlipStep(entries, prev);
      prev[entries[n].1 := entries[n].0]
  }

  lemma FlipStep(entries: seq<(string, string)>, prev: map<string, string>)
    requires |entries| > 0
    requires var e := entries[..|entries| - 1];
      && prev.Keys == (set i | 0 <= i < |e| :: e[i].1)
      && forall v :: v in prev ==> exists i :: 0 <= i < |e| && e[i] == (prev[v], v) && LastValue(e, i)
    ensures var n := |entries| - 1; var m := prev[entries[n].1 := entries[n].0];
      && m.Keys == (set i | 0 <= i < |entries| :: entries[i].1)
      && forall v :: v in m ==> exists i :: 0 <= i < |entries| && entries[i] == (m[v], v) && LastValue(entries, i)
  {
    var n := |entries| - 1;
    var e := entries[..n];
    var m := prev[entries[n].1 := entries[n].0];
    assert forall i :: 0 <= i < n ==> e[i] == entries[i];
    assert m.Keys == (set i | 0 <= i < |entries| :: entries[i].1) by {
      forall v | v in m.Keys ensures v in (set i | 0 <= i < |entries| :: entries[i].1) {
        if v != entries[n].1 {
          var i :| 0 <= i < n && e[i].1 == v;
          assert entries[i].1 == v;
        }
      }
      forall v | v in (set i | 0 <= i < |entries| :: entries[i].1) ensures v in m.Keys {
        var i :| 0 <= i < |entries| && entries[i].1 == v;
        if i < n {
          assert e[i].1 == v;
        }
      }
    }
    forall v | v in m
      ensures exists i :: 0 <= i < |entries| && entries[i] == (m[v], v) && LastValue(entries, i)
    {
      if v == entries[n].1 {
        assert entries[n] == (m[v], v) && LastValue(entries, n);
      } else {
        var i :| 0 <= i < n && e[i] == (prev[v], v) && LastValue(e, i);
        assert entries[i] == (m[v], v) && LastValue(entries, i);
      }
    }
  }

  /** `flip` as the engine runs it: one pass over the table, writing each
      value's entry in turn. */
  method Flip(entries: seq<(string, string)>) returns (flipped: map<string, string>)
    ensures flipped == FlipSpec(entries)
  {
    flipped := map[];
    for i := 0 to |entries|
      invariant flipped == FlipSpec(entries[..i])
    {
      assert entries[..i + 1][..i] == entries[..i];
      flipped := flipped[entries[i].1 := entries[i].0];
    }
    assert entries[..|entries|] == entries;
  }

  /** With distinct keys, `flip` inverts the lookup: the name stored under a
      value looks that value up again. */
  lemma {:induction false} FlipInvertsLookup(entries: seq<(string, string)>)
    requires forall i, j :: 0 <= i < j < |entries| ==> entries[i].0 != entries[j].0
    ensures forall v :: v in FlipSpec(entries) ==> Lookup(entries, FlipSpec(entries)[v]) == Some(v)
  {
    forall v | v in FlipSpec(entries)
      ensures Lookup(entries, FlipSpec(entries)[v]) == Some(v)
    {
      var i :| 0 <= i < |entries| && entries[i] == (FlipSpec(entries)[v], v) && LastValue(entries, i);
      var r := Lookup(entries, entries[i].0);
      LookupSpec(entries, entries[i].0);
      var k :| 0 <= k < |entries| && entries[k] == (entries[i].0, r.value) && LastKey(entries, k);
      assert k == i;
    }
  }

  /** `hexNames`. */
  const HexNames: map<string, string> := FlipSpec(Names)

  /** `names[color]` for a lower-cased colour text. */
  function NameToHex(name: string): Option<string>
  {
    Lookup(Names, name)
  }

  /** Whether a text is three or six hexadecimal digits, the shapes the hex
      matchers accept. */
  predicate IsHexShape(k: string)
  {
    (|k| == 3 || |k| == 6) && forall i :: 0 <= i < |k| ==> IsHexDigit(k[i])
  }

  predicate NotHexKey(k: string)
  {
    (|k| != 3 && |k| != 6) || !IsHexDigit(k[0]) || !IsHexDigit(k[1]) || !IsHexDigit(k[2])
      || (|k| == 6 && (!IsHexDigit(k[3]) || !IsHexDigit(k[4]) || !IsHexDigit(k[5])))
  }

  lemma NotHexKeys0() ensures forall i :: 0 <= i < |Names0| ==> NotHexKey(Names0[i].0) {}
  lemma NotHexKeys1() ensures forall i :: 0 <= i < |Names1| ==> NotHexKey(Names1[i].0) {}
  lemma NotHexKeys2() ensures forall i :: 0 <= i < |Names2| ==> NotHexKey(Names2[i].0) {}
  lemma NotHexKeys3() ensures forall i :: 0 <= i < |Names3| ==> NotHexKey(Names3[i].0) {}
  lemma NotHexKeys4() ensures forall i :: 0 <= i < |Names4| ==> NotHexKey(Names4[i].0) {}
  lemma NotHexKeys5() ensures forall i :: 0 <= i < |Names5| ==> NotHexKey(Names5[i].0) {}

  /** No keyword is itself a hex colour, so a hex text is never taken for a
      name. */
  lemma HexIsNeverAName(s: string)
    requires IsHexShape(s)
    ensures NameToHex(s).None?
  {
    NotHexKeys0(); NotHexKeys1(); NotHexKeys2(); NotHexKeys3(); NotHexKeys4(); NotHexKeys5();
    LookupSpec(Names, s);
    forall i | 0 <= i < |Names|
      ensures Names[i].0 != s
    {
      assert NotHexKey(Names[i].0);
    }
  }

  /** What the table holds: keys of lower-case letters only, values of three
      or six lower-case hexadecimal digits. */
  predicate LetterKey(e: (string, string))
  {
    forall i :: 0 <= i < |e.0| ==> 'a' <= e.0[i] <= 'z'
  }

  predicate HexEntry(e: (string, string))
  {
    && (|e.1| == 3 || |e.1| == 6)
    && (forall i :: 0 <= i < |e.1| ==> '0' <= e.1[i] <= '9' || 'a' <= e.1[i] <= 'f')
  }

  lemma LetterKeys0() ensures forall i :: 0 <= i < |Names0| ==> LetterKey(Names0[i])
  {
    LetterKeys0A();
    LetterKeys0B();
    LetterKeys0C();
    LetterKeysIn(Names0, 8, 16);
  }

  lemma LetterKeys0A() ensures forall i :: 0 <= i < 8 ==> LetterKey(Names0[..8][i]) {}
  lemma LetterKeys0B() ensures forall i :: 0 <= i < 8 ==> LetterKey(Names0[8..16][i]) {}
  lemma LetterKeys0C() ensures forall i :: 0 <= i < |Names0| - 16 ==> LetterKey(Names0[16..][i]) {}

  lemma LetterKeys1() ensures forall i :: 0 <= i < |Names1| ==> LetterKey(Names1[i])
  {
    LetterKeys1A();
    LetterKeys1B();
    LetterKeys1C();
    LetterKeysIn(Names1, 8, 16);
  }

  lemma LetterKeys1A() ensures forall i :: 0 <= i < 8 ==> LetterKey(Names1[..8][i]) {}
  lemma LetterKeys1B() ensures forall i :: 0 <= i < 8 ==> LetterKey(Names1[8..16][i]) {}
  lemma LetterKeys1C() ensures forall i :: 0 <= i < |Names1| - 16 ==> LetterKey(Names1[16..][i]) {}

  lemma LetterKeys2() ensures forall i :: 0 <= i < |Names2| ==> LetterKey(Names2[i])
  {
    LetterKeys2A();
    LetterKeys2B();
    LetterKeys2C();
    LetterKeysIn(Names2, 8, 16);
  }

  lemma LetterKeys2A() ensures forall i :: 0 <= i < 8 ==> LetterKey(Names2[..8][i]) {}
  lemma LetterKeys2B() ensures forall i :: 0 <= i < 8 ==> LetterKey(Names2[8..16][i]) {}
  lemma LetterKeys2C() ensures forall i :: 0 <= i < |Names2| - 16 ==> LetterKey(Names2[16..][i]) {}

  lemma LetterKeys3() ensures forall i :: 0 <= i < |Names3| ==> LetterKey(Names3[i])
  {
    LetterKeys3A();
    LetterKeys3B();
    LetterKeys3C();
    LetterKeysIn(Names3, 8, 16);
  }

  lemma LetterKeys3A() ensures forall i :: 0 <= i < 8 ==> LetterKey(Names3[..8][i]) {}
  lemma LetterKeys3B() ensures forall i :: 0 <= i < 8 ==> LetterKey(Names3[8..16][i]) {}
  lemma LetterKeys3C() ensures forall i :: 0 <= i < |Names3| - 16 ==> LetterKey(Names3[16..][i]) {}

  lemma LetterKeys4() ensures forall i :: 0 <= i < |Names4| ==> LetterKey(Names4[i])
  {
    LetterKeys4A();
    LetterKeys4B();
    LetterKeys4C();
    LetterKeysIn(Names4, 8, 16);
  }

  lemma LetterKeys4A() ensures forall i :: 0 <= i < 8 ==> LetterKey(Names4[..8][i]) {}
  lemma LetterKeys4B() ensures forall i :: 0 <= i < 8 ==> LetterKey(Names4[8..16][i]) {}
  lemma LetterKeys4C() ensures forall i :: 0 <= i < |Names4| - 16 ==> LetterKey(Names4[16..][i]) {}

  lemma LetterKeys5() ensures forall i :: 0 <= i < |Names5| ==> LetterKey(Names5[i])
  {
    LetterKeys5A();
    LetterKeys5B();
    LetterKeys5C();
    LetterKeysIn(Names5, 8, 16);
  }

  lemma LetterKeys5A() ensures forall i :: 0 <= i < 8 ==> LetterKey(Names5[..8][i]) {}
  lemma LetterKeys5B() ensures forall i :: 0 <= i < 8 ==> LetterKey(Names5[8..16][i]) {}
  lemma LetterKeys5C() ensures forall i :: 0 <= i < |Names5| - 16 ==> LetterKey(Names5[16..][i]) {}

  /** Three slices of letter keys make a table of letter keys. */
  lemma LetterKeysIn(entries: seq<(string, string)>, j: nat, k: nat)
    requires j <= k <= |entries|
    requires forall i :: 0 <= i < j ==> LetterKey(entries[..j][i])
    requires forall i :: 0 <= i < k - j ==> LetterKey(entries[j..k][i])
    requires forall i :: 0 <= i < |entries| - k ==> LetterKey(entries[k..][i])
    ensures forall i :: 0 <= i < |entries| ==> LetterKey(entries[i])
  {
    forall i | 0 <= i < |entries| ensures LetterKey(entries[i]) {
      if i < j {
        assert entries[i] == entries[..j][i];
      } else if i < k {
        assert entries[i] == entries[j..k][i - j];
      } else {
        assert entries[i] == entries[k..][i - k];
      }
    }
  }

  lemma HexEntries0() ensures forall i :: 0 <= i < |Names0| ==> HexEntry(Names0[i]) {}
  lemma HexEntries1() ensures forall i :: 0 <= i < |Names1| ==> HexEntry(Names1[i]) {}
  lemma HexEntries2() ensures forall i :: 0 <= i < |Names2| ==> HexEntry(Names2[i]) {}
  lemma HexEntries3() ensures forall i :: 0 <= i < |Names3| ==> HexEntry(Names3[i]) {}
  lemma HexEntries4() ensures forall i :: 0 <= i < |Names4| ==> HexEntry(Names4[i]) {}
  lemma HexEntries5() ensures forall i :: 0 <= i < |Names5| ==> HexEntry(Names5[i]) {}

  lemma AllWellFormed()
    ensures forall i :: 0 <= i < |Names| ==> LetterKey(Names[i]) && HexEntry(Names[i])
  {
    LetterKeys0(); LetterKeys1(); LetterKeys2(); LetterKeys3(); LetterKeys4(); LetterKeys5();
    HexEntries0(); HexEntries1(); HexEntries2(); HexEntries3(); HexEntries4(); HexEntries5();
  }

  /** A keyword the lookup finds is made of letters, and what it names is a
      text the hex matchers accept. */
  lemma NameGivesHex(name: string)
    requires NameToHex(name).Some?
    ensures IsHexShape(NameToHex(name).value) && IsLowerHex(NameToHex(name).value)
    ensures forall i :: 0 <= i < |name| ==> 'a' <= name[i] <= 'z'
  {
    var v := NameToHex(name).value;
    LookupSpec(Names, name);
    var i :| 0 <= i < |Names| && Names[i] == (name, v);
    AllWellFormed();
    LowerHexEntry(Names[i]);
  }

  lemma LowerHexEntry(e: (string, string))
    requires HexEntry(e)
    ensures IsHexShape(e.1) && IsLowerHex(e.1)
  {
  }

  lemma NoTransparent0() ensures forall i :: 0 <= i < |Names0| ==> Names0[i].0 != "transparent" {}
  lemma NoTransparent1() ensures forall i :: 0 <= i < |Names1| ==> Names1[i].0 != "transparent" {}
  lemma NoTransparent2() ensures forall i :: 0 <= i < |Names2| ==> Names2[i].0 != "transparent" {}
  lemma NoTransparent3() ensures forall i :: 0 <= i < |Names3| ==> Names3[i].0 != "transparent" {}
  lemma NoTransparent4() ensures forall i :: 0 <= i < |Names4| ==> Names4[i].0 != "transparent" {}
  lemma NoTransparent5() ensures forall i :: 0 <= i < |Names5| ==> Names5[i].0 != "transparent" {}

  /** `transparent` is not a keyword of the table; the parser treats it on
      its own. */
  lemma TransparentIsNoName()
    ensures NameToHex("transparent").None?
  {
    NoTransparent0(); NoTransparent1(); NoTransparent2(); NoTransparent3(); NoTransparent4(); NoTransparent5();
    LookupSpec(Names, "transparent");
  }

  /** `aqua` and `cyan` share `0ff`; `cyan` is listed later, so it is the
      name `hexNames` gives back for that value. */
  lemma AquaNamedCyan()
    ensures "0ff" in HexNames && HexNames["0ff"] == "cyan"
  {
    NoLater0ff();
    assert Names[21] == ("cyan", "0ff");
    FlipPicksLast(Names, 21);
  }

  /** The name `flip` keeps for a value is that of the last entry holding
      it. */
  lemma FlipPicksLast(entries: seq<(string, string)>, k: nat)
    requires k < |entries|
    requires forall j :: k < j < |entries| ==> entries[j].1 != entries[k].1
    ensures entries[k].1 in FlipSpec(entries) && FlipSpec(entries)[entries[k].1] == entries[k].0
  {
    var m := FlipSpec(entries);
    var v := entries[k].1;
    assert v in m.Keys;
    var i :| 0 <= i < |entries| && entries[i] == (m[v], v) && LastValue(entries, i);
    assert i == k;
  }

  predicate Lacks(entries: seq<(string, string)>, v: string)
  {
    forall i :: 0 <= i < |entries| ==> entries[i].1 != v
  }

  lemma LacksConcat(a: seq<(string, string)>, b: seq<(string, string)>, v: string)
    requires Lacks(a, v) && Lacks(b, v)
    ensures Lacks(a + b, v)
  {
    forall i | 0 <= i < |a + b| ensures (a + b)[i].1 != v {
      if i >= |a| { assert (a + b)[i] == b[i - |a|]; }
    }
  }

  lemma Lacks0ff0() ensures Lacks(Names0[22..], "0ff") {}
  lemma Lacks0ff1() ensures Lacks(Names1, "0ff") {}
  lemma Lacks0ff2() ensures Lacks(Names2, "0ff") {}
  lemma Lacks0ff3() ensures Lacks(Names3, "0ff") {}
  lemma Lacks0ff4() ensures Lacks(Names4, "0ff") {}
  lemma Lacks0ff5() ensures Lacks(Names5, "0ff") {}

  lemma NoLater0ff()
    ensures forall i :: 22 <= i < |Names| ==> Names[i].1 != "0ff"
  {
    Lacks0ff0(); Lacks0ff1(); Lacks0ff2(); Lacks0ff3(); Lacks0ff4(); Lacks0ff5();
    LacksConcat(Names4, Names5, "0ff");
    LacksConcat(Names3, Names4 + Names5, "0ff");
    LacksConcat(Names2, Names3 + (Names4 + Names5), "0ff");
    LacksConcat(Names1, Names2 + (Names3 + (Names4 + Names5)), "0ff");
    LacksAfter(Names0, Names1 + (Names2 + (Names3 + (Names4 + Names5))), 22, "0ff");
  }

  lemma LacksAfter(a: seq<(string, string)>, b: seq<(string, string)>, k: nat, v: string)
    requires k <= |a| && Lacks(a[k..], v) && Lacks(b, v)
    ensures forall i :: k <= i < |a + b| ==> (a + b)[i].1 != v
  {
    forall i | k <= i < |a + b| ensures (a + b)[i].1 != v {
      if i < |a| {
        assert (a + b)[i] == a[k..][i - k];
      } else {
        assert (a + b)[i] == b[i - |a|];
      }
    }
  }

  // ---------------------------------------------------------------------
  // The keywords are listed in order, so no keyword appears twice.

  /** `a` agrees with `b` on its first `k` characters, and then either ends
      or has the smaller character code. */
  predicate PrecedesAt(a: string, b: string, k: nat)
  {
    k <= |a| && k < |b| && (forall j :: 0 <= j < k ==> a[j] == b[j]) && (k == |a| || a[k] < b[k])
  }

  /** `a` comes strictly before `b` in the order of character codes. */
  ghost predicate Precedes(a: string, b: string)
  {
    exists k: nat :: PrecedesAt(a, b, k)
  }

  lemma PrecedesTransitive(a: string, b: string, c: string)
    requires Precedes(a, b) && Precedes(b, c)
    ensures Precedes(a, c)
  {
    var k1: nat :| PrecedesAt(a, b, k1);
    var k2: nat :| PrecedesAt(b, c, k2);
    assert PrecedesAt(a, c, if k1 < k2 then k1 else k2);
  }

  /** Each key comes strictly before the next one. */
  ghost predicate SortedKeys(entries: seq<(string, string)>)
  {
    forall i :: 0 <= i < |entries| - 1 ==> Precedes(entries[i].0, entries[i + 1].0)
  }

  lemma SortedJoin(x: seq<(string, string)>, y: seq<(string, string)>)
    requires SortedKeys(x) && SortedKeys(y)
    requires |x| > 0 && |y| > 0 && Precedes(x[|x| - 1].0, y[0].0)
    ensures SortedKeys(x + y)
  {
    forall i | 0 <= i < |x + y| - 1 ensures Precedes((x + y)[i].0, (x + y)[i + 1].0) {
      if i + 1 < |x| {
        assert (x + y)[i] == x[i] && (x + y)[i + 1] == x[i + 1];
      } else if i + 1 == |x| {
        assert (x + y)[i] == x[|x| - 1] && (x + y)[i + 1] == y[0];
      } else {
        assert (x + y)[i] == y[i - |x|] && (x + y)[i + 1] == y[i - |x| + 1];
      }
    }
  }

  /** In a sorted table every key comes before all later ones. */
  lemma {:induction false} SortedOrdered(entries: seq<(string, string)>, i: nat, j: nat)
    requires SortedKeys(entries) && i < j < |entries|
    ensures Precedes(entries[i].0, entries[j].0)
    decreases j - i
  {
    if i + 1 < j {
      SortedOrdered(entries, i + 1, j);
      PrecedesTransitive(entries[i].0, entries[i + 1].0, entries[j].0);
    }
  }

  /** A table is sorted when three consecutive slices of it are and the
      keys on either side of each cut are in order. */
  lemma SortedThree(entries: seq<(string, string)>, j: nat, k: nat)
    requires 0 < j < k < |entries|
    requires SortedKeys(entries[..j]) && SortedKeys(entries[j..k]) && SortedKeys(entries[k..])
    requires Precedes(entries[j - 1].0, entries[j].0) && Precedes(entries[k - 1].0, entries[k].0)
    ensures SortedKeys(entries)
  {
    forall i | 0 <= i < |entries| - 1 ensures Precedes(entries[i].0, entries[i + 1].0) {
      if i + 1 < j {
        assert entries[i] == entries[..j][i] && entries[i + 1] == entries[..j][i + 1];
      } else if j <= i && i + 1 < k {
        assert entries[i] == entries[j..k][i - j] && entries[i + 1] == entries[j..k][i - j + 1];
      } else if k <= i {
        assert entries[i] == entries[k..][i - k] && entries[i + 1] == entries[k..][i - k + 1];
      }
    }
  }

  lemma Sorted0() ensures SortedKeys(Names0)
  {
    Sorted0A();
    Sorted0B();
    Sorted0C();
    assert PrecedesAt(Names0[7].0, Names0[8].0, 3);
    assert PrecedesAt(Names0[15].0, Names0[16].0, 2);
    SortedThree(Names0, 8, 16);
  }

  lemma Sorted0A() ensures SortedKeys(Names0[..8])
  {
    var at: seq<nat> := [1, 1, 4, 1, 0, 1, 1];
    forall i | 0 <= i < 7 ensures Precedes(Names0[..8][i].0, Names0[..8][i + 1].0) {
      assert PrecedesAt(Names0[..8][i].0, Names0[..8][i + 1].0, at[i]);
    }
  }

  lemma Sorted0B() ensures SortedKeys(Names0[8..16])
  {
    var at: seq<nat> := [2, 4, 1, 1, 3, 0, 1];
    forall i | 0 <= i < 7 ensures Precedes(Names0[8..16][i].0, Names0[8..16][i + 1].0) {
      assert PrecedesAt(Names0[8..16][i].0, Names0[8..16][i + 1].0, at[i]);
    }
  }

  lemma Sorted0C() ensures SortedKeys(Names0[16..])
  {
    var at: seq<nat> := [1, 3, 4, 1, 1, 0, 4, 4];
    forall i | 0 <= i < |Names0| - 17 ensures Precedes(Names0[16..][i].0, Names0[16..][i + 1].0) {
      assert PrecedesAt(Names0[16..][i].0, Names0[16..][i + 1].0, at[i]);
    }
  }

  lemma Sorted1() ensures SortedKeys(Names1)
  {
    Sorted1A();
    Sorted1B();
    Sorted1C();
    assert PrecedesAt(Names1[7].0, Names1[8].0, 4);
    assert PrecedesAt(Names1[15].0, Names1[16].0, 1);
    SortedThree(Names1, 8, 16);
  }

  lemma Sorted1A() ensures SortedKeys(Names1[..8])
  {
    var at: seq<nat> := [6, 7, 4, 4, 4, 5, 6];
    forall i | 0 <= i < 7 ensures Precedes(Names1[..8][i].0, Names1[..8][i + 1].0) {
      assert PrecedesAt(Names1[..8][i].0, Names1[..8][i + 1].0, at[i]);
    }
  }

  lemma Sorted1B() ensures SortedKeys(Names1[8..16])
  {
    var at: seq<nat> := [4, 5, 5, 9, 11, 4, 4];
    forall i | 0 <= i < 7 ensures Precedes(Names1[8..16][i].0, Names1[8..16][i + 1].0) {
      assert PrecedesAt(Names1[8..16][i].0, Names1[8..16][i + 1].0, at[i]);
    }
  }

  lemma Sorted1C() ensures SortedKeys(Names1[16..])
  {
    var at: seq<nat> := [4, 1, 5, 1, 0, 1, 1, 1];
    forall i | 0 <= i < |Names1| - 17 ensures Precedes(Names1[16..][i].0, Names1[16..][i + 1].0) {
      assert PrecedesAt(Names1[16..][i].0, Names1[16..][i + 1].0, at[i]);
    }
  }

  lemma Sorted2() ensures SortedKeys(Names2)
  {
    Sorted2A();
    Sorted2B();
    Sorted2C();
    assert PrecedesAt(Names2[7].0, Names2[8].0, 0);
    assert PrecedesAt(Names2[15].0, Names2[16].0, 2);
    SortedThree(Names2, 8, 16);
  }

  lemma Sorted2A() ensures SortedKeys(Names2[..8])
  {
    var at: seq<nat> := [1, 1, 4, 1, 2, 5, 3];
    forall i | 0 <= i < 7 ensures Precedes(Names2[..8][i].0, Names2[..8][i + 1].0) {
      assert PrecedesAt(Names2[..8][i].0, Names2[..8][i + 1].0, at[i]);
    }
  }

  lemma Sorted2B() ensures SortedKeys(Names2[8..16])
  {
    var at: seq<nat> := [2, 0, 4, 1, 0, 0, 8];
    forall i | 0 <= i < 7 ensures Precedes(Names2[8..16][i].0, Names2[8..16][i + 1].0) {
      assert PrecedesAt(Names2[8..16][i].0, Names2[8..16][i + 1].0, at[i]);
    }
  }

  lemma Sorted2C() ensures SortedKeys(Names2[16..])
  {
    var at: seq<nat> := [1, 1, 5, 6, 5, 6, 7, 8];
    forall i | 0 <= i < |Names2| - 17 ensures Precedes(Names2[16..][i].0, Names2[16..][i + 1].0) {
      assert PrecedesAt(Names2[16..][i].0, Names2[16..][i + 1].0, at[i]);
    }
  }

  lemma Sorted3() ensures SortedKeys(Names3)
  {
    Sorted3A();
    Sorted3B();
    Sorted3C();
    assert PrecedesAt(Names3[7].0, Names3[8].0, 2);
    assert PrecedesAt(Names3[15].0, Names3[16].0, 6);
    SortedThree(Names3, 8, 16);
  }

  lemma Sorted3A() ensures SortedKeys(Names3[..8])
  {
    var at: seq<nat> := [5, 6, 6, 6, 12, 6, 5];
    forall i | 0 <= i < 7 ensures Precedes(Names3[..8][i].0, Names3[..8][i + 1].0) {
      assert PrecedesAt(Names3[..8][i].0, Names3[..8][i + 1].0, at[i]);
    }
  }

  lemma Sorted3B() ensures SortedKeys(Names3[8..16])
  {
    var at: seq<nat> := [4, 2, 0, 2, 1, 6, 6];
    forall i | 0 <= i < 7 ensures Precedes(Names3[8..16][i].0, Names3[8..16][i + 1].0) {
      assert PrecedesAt(Names3[8..16][i].0, Names3[8..16][i + 1].0, at[i]);
    }
  }

  lemma Sorted3C() ensures SortedKeys(Names3[16..])
  {
    var at: seq<nat> := [6, 7, 7, 6, 6, 1, 2, 2];
    forall i | 0 <= i < |Names3| - 17 ensures Precedes(Names3[16..][i].0, Names3[16..][i + 1].0) {
      assert PrecedesAt(Names3[16..][i].0, Names3[16..][i + 1].0, at[i]);
    }
  }

  lemma Sorted4() ensures SortedKeys(Names4)
  {
    Sorted4A();
    Sorted4B();
    Sorted4C();
    assert PrecedesAt(Names4[7].0, Names4[8].0, 2);
    assert PrecedesAt(Names4[15].0, Names4[16].0, 1);
    SortedThree(Names4, 8, 16);
  }

  lemma Sorted4A() ensures SortedKeys(Names4[..8])
  {
    var at: seq<nat> := [0, 3, 0, 2, 5, 1, 6];
    forall i | 0 <= i < 7 ensures Precedes(Names4[..8][i].0, Names4[..8][i + 1].0) {
      assert PrecedesAt(Names4[..8][i].0, Names4[..8][i + 1].0, at[i]);
    }
  }

  lemma Sorted4B() ensures SortedKeys(Names4[8..16])
  {
    var at: seq<nat> := [0, 5, 4, 4, 2, 1, 2];
    forall i | 0 <= i < 7 ensures Precedes(Names4[8..16][i].0, Names4[8..16][i + 1].0) {
      assert PrecedesAt(Names4[8..16][i].0, Names4[8..16][i + 1].0, at[i]);
    }
  }

  lemma Sorted4C() ensures SortedKeys(Names4[16..])
  {
    var at: seq<nat> := [1, 1, 1, 0, 1, 2, 0, 2];
    forall i | 0 <= i < |Names4| - 17 ensures Precedes(Names4[16..][i].0, Names4[16..][i + 1].0) {
      assert PrecedesAt(Names4[16..][i].0, Names4[16..][i + 1].0, at[i]);
    }
  }

  lemma Sorted5() ensures SortedKeys(Names5)
  {
    Sorted5A();
    Sorted5B();
    Sorted5C();
    assert PrecedesAt(Names5[7].0, Names5[8].0, 7);
    assert PrecedesAt(Names5[15].0, Names5[16].0, 1);
    SortedThree(Names5, 8, 16);
  }

  lemma Sorted5A() ensures SortedKeys(Names5[..8])
  {
    var at: seq<nat> := [1, 3, 1, 2, 1, 1, 5];
    forall i | 0 <= i < 7 ensures Precedes(Names5[..8][i].0, Names5[..8][i + 1].0) {
      assert PrecedesAt(Names5[..8][i].0, Names5[..8][i + 1].0, at[i]);
    }
  }

  lemma Sorted5B() ensures SortedKeys(Names5[8..16])
  {
    var at: seq<nat> := [1, 1, 1, 0, 1, 1, 1];
    forall i | 0 <= i < 7 ensures Precedes(Names5[8..16][i].0, Names5[8..16][i + 1].0) {
      assert PrecedesAt(Names5[8..16][i].0, Names5[8..16][i + 1].0, at[i]);
    }
  }

  lemma Sorted5C() ensures SortedKeys(Names5[16..])
  {
    var at: seq<nat> := [0, 0, 2, 5, 0, 6];
    forall i | 0 <= i < |Names5| - 17 ensures Precedes(Names5[16..][i].0, Names5[16..][i + 1].0) {
      assert PrecedesAt(Names5[16..][i].0, Names5[16..][i + 1].0, at[i]);
    }
  }

  lemma NamesSorted()
    ensures SortedKeys(Names)
  {
    Sorted0(); Sorted1(); Sorted2(); Sorted3(); Sorted4(); Sorted5();
    assert PrecedesAt(Names4[24].0, Names5[0].0, 2);
    SortedJoin(Names4, Names5);
    assert PrecedesAt(Names3[24].0, Names4[0].0, 1);
    SortedJoin(Names3, Names4 + Names5);
    assert PrecedesAt(Names2[24].0, Names3[0].0, 5);
    SortedJoin(Names2, Names3 + (Names4 + Names5));
    assert PrecedesAt(Names1[24].0, Names2[0].0, 0);
    SortedJoin(Names1, Names2 + (Names3 + (Names4 + Names5)));
    assert PrecedesAt(Names0[24].0, Names1[0].0, 5);
    SortedJoin(Names0, Names1 + (Names2 + (Names3 + (Names4 + Names5))));
  }

  /** No keyword appears twice in the table. */
  lemma DistinctNames()
    ensures forall i, j :: 0 <= i < j < |Names| ==> Names[i].0 != Names[j].0
  {
    NamesSorted();
    forall i, j | 0 <= i < j < |Names|
      ensures Names[i].0 != Names[j].0
    {
      SortedOrdered(Names, i, j);
    }
  }

  /** The name `hexNames` gives for a hex text is a keyword the table maps
      back to that text. */
  lemma HexNameLooksUp(h: string)
    requires h in HexNames
    ensures NameToHex(HexNames[h]) == Some(h)
  {
    DistinctNames();
    FlipInvertsLookup(Names);
  }
}
