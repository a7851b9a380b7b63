// The contrast measures of the colour engine: `readability`, `readable`
// and `mostReadable`, after the brightness and colour-difference formulas
// of the W3C "Techniques for Accessibility Evaluation and Repair Tools".

module Readability {
  import opened JsValues
  import opened TinyColor
  import opened Palette

  /** What `readability` returns: the difference in brightness and the
      summed per-channel difference of two colours. */
  datatype Contrast = Contrast(brightness: real, color: real)

  /** The channels `toRgb` reports: each one rounded to a whole number. */
  datatype Channels = Channels(r: real, g: real, b: real)

  /** A triple of channels within [0,255]. */
  predicate InRange(ch: Channels)
  {
    0.0 <= ch.r <= 255.0 && 0.0 <= ch.g <= 255.0 && 0.0 <= ch.b <= 255.0
  }

  function ChannelsOf(c: Color): (ch: Channels)
    requires WellFormed(c)
    ensures InRange(ch)
    ensures IsInteger(ch.r) && IsInteger(ch.g) && IsInteger(ch.b)
    ensures Abs(ch.r - c.r) <= 0.5 && Abs(ch.g - c.g) <= 0.5 && Abs(ch.b - c.b) <= 0.5
  {
    Channels(Rounded(c.r), Rounded(c.g), Rounded(c.b))
  }

  /** The perceived brightness `(299 r + 587 g + 114 b) / 1000`: a weighted
      mean of the channels. */
  function Brightness(ch: Channels): (y: real)
    requires InRange(ch)
    ensures 0.0 <= y <= 255.0
  {
    (ch.r * 299.0 + ch.g * 587.0 + ch.b * 114.0) / 1000.0
  }

  /** `Math.max(x, y) - Math.min(x, y)`: the distance between two channels. */
  function Gap(x: real, y: real): (d: real)
    ensures d == Abs(x - y)
  {
    Max(x, y) - Min(x, y)
  }

  /** `readability` on the channels `toRgb` reports for the two colours. */
  function ContrastBetween(a: Channels, b: Channels): (k: Contrast)
    requires InRange(a) && InRange(b)
    ensures 0.0 <= k.brightness <= 255.0 && 0.0 <= k.color <= 765.0
    ensures k.color == 0.0 <==> a == b
  {
    Contrast(Abs(Brightness(a) - Brightness(b)), Gap(a.r, b.r) + Gap(a.g, b.g) + Gap(a.b, b.b))
  }

  /** `tinycolor(x)` with no options. */
  function ColourOf(x: Input): (c: Color)
    requires Usable(x)
    ensures WellFormed(c)
  {
    Make(x, None)
  }

  /** `tinycolor.readability(color1, color2)`. */
  function Readability(x: Input, y: Input): (k: Contrast)
    requires Usable(x) && Usable(y)
    ensures 0.0 <= k.brightness <= 255.0 && 0.0 <= k.color <= 765.0
    ensures k.color == 0.0 <==> ChannelsOf(ColourOf(x)) == ChannelsOf(ColourOf(y))
    ensures k.color == 0.0 ==> k == Contrast(0.0, 0.0)
  {
    ContrastBetween(ChannelsOf(ColourOf(x)), ChannelsOf(ColourOf(y)))
  }

  /** The threshold `readable` and `mostReadable` apply. */
  predicate IsReadable(k: Contrast)
  {
    k.brightness > 125.0 && k.color > 500.0
  }

  /** `tinycolor.readable(color1, color2)`. */
  predicate Readable(x: Input, y: Input)
    requires Usable(x) && Usable(y)
  {
    IsReadable(Readability(x, y))
  }

  /** The measure is symmetric: swapping the colours changes nothing. */
  lemma ReadabilitySymmetric(x: Input, y: Input)
    requires Usable(x) && Usable(y)
    ensures Readability(x, y) == Readability(y, x)
    ensures Readable(x, y) == Readable(y, x)
  {
    hide ColourOf, ChannelsOf, ContrastBetween;
    ContrastSymmetric(ChannelsOf(ColourOf(x)), ChannelsOf(ColourOf(y)));
  }

  lemma ContrastSymmetric(a: Channels, b: Channels)
    requires InRange(a) && InRange(b)
    ensures ContrastBetween(a, b) == ContrastBetween(b, a)
  {
    assert Gap(a.r, b.r) == Gap(b.r, a.r);
    assert Gap(a.g, b.g) == Gap(b.g, a.g);
    assert Gap(a.b, b.b) == Gap(b.b, a.b);
  }

  /** A colour never reads against itself: both measures are zero. */
  lemma SelfUnreadable(x: Input)
    requires Usable(x)
    ensures Readability(x, x) == Contrast(0.0, 0.0)
    ensures !Readable(x, x)
  {
    hide ColourOf, ChannelsOf, Readability;
  }

  /** Black on white is the largest contrast there is: brightness 255 and
      colour difference 765, which is readable. */
  lemma BlackOnWhite(black: Channels, white: Channels)
    requires black == Channels(0.0, 0.0, 0.0) && white == Channels(255.0, 255.0, 255.0)
    ensures ContrastBetween(black, white) == Contrast(255.0, 765.0)
    ensures IsReadable(ContrastBetween(black, white))
  {
    hide Brightness;
    GreyBrightness(0.0);
    GreyBrightness(255.0);
    assert Abs(Brightness(black) - Brightness(white)) == 255.0;
    assert Gap(0.0, 255.0) == 255.0;
    hide Abs, Gap;
  }

  /** The weights sum to 1000: a grey's brightness is its level. */
  lemma GreyBrightness(v: real)
    requires 0.0 <= v <= 255.0
    ensures Brightness(Channels(v, v, v)) == v
  {
  }

  // ---------------------------------------------------------------------
  // mostReadable

  /** How a candidate ranks: whether it passes the threshold, and its score. */
  datatype Rank = Rank(readable: bool, score: real)

  /** `3 * (brightness / 125) + color / 500`: brightness weighs more than hue. */
  function Score(k: Contrast): (s: real)
    requires k.brightness >= 0.0 && k.color >= 0.0
    ensures s >= 0.0
    ensures s == 0.0 <==> k == Contrast(0.0, 0.0)
  {
    3.0 * (k.brightness / 125.0) + k.color / 500.0
  }

  function RankOf(base: Input, x: Input): (q: Rank)
    requires Usable(base) && Usable(x)
    ensures q.readable == Readable(base, x)
    ensures q.score >= 0.0
    ensures q.score == 0.0 <==> ChannelsOf(ColourOf(base)) == ChannelsOf(ColourOf(x))
  {
    var k := Readability(base, x);
    Rank(IsReadable(k), Score(k))
  }

  /** The standing before any candidate: `bestIsReadable = false`,
      `bestScore = 0`. */
  const Start := Rank(false, 0.0)

  /** The loop's test for replacing the best candidate so far. */
  predicate Beats(q: Rank, best: Rank)
  {
    || (q.readable && !best.readable)
    || (q.readable && best.readable && q.score > best.score)
    || (!q.readable && !best.readable && q.score > best.score)
  }

  /** The test is a strict total order: readability first, then score. */
  lemma BeatsIsLexicographic(p: Rank, q: Rank)
    ensures Beats(p, q) <==> (p.readable && !q.readable) || (p.readable == q.readable && p.score > q.score)
    ensures !Beats(p, p)
    ensures Beats(p, q) ==> !Beats(q, p)
    ensures !Beats(p, q) && !Beats(q, p) ==> p == q
  {
  }

  lemma BeatsTransitive(p: Rank, q: Rank, s: Rank)
    ensures Beats(p, q) && !Beats(s, q) ==> Beats(p, s)
  {
  }

  /** The index the loop has settled on after the first `n` candidates. */
  function Leader(rs: seq<Rank>, n: nat): (j: Option<nat>)
    requires n <= |rs|
    ensures j.Some? ==> j.value < n
  {
    if n == 0 then None
    else
      var prev := Leader(rs, n - 1);
      if Beats(rs[n - 1], Standing(rs, prev)) then Some(n - 1) else prev
  }

  lemma LeaderStep(rs: seq<Rank>, n: nat)
    requires n <= |rs|
    ensures n == 0 ==> Leader(rs, n) == None
    ensures n < |rs| ==>
              Leader(rs, n + 1) == if Beats(rs[n], Standing(rs, Leader(rs, n))) then Some(n) else Leader(rs, n)
  {
  }

  /** The rank of the candidate held, or the starting rank when none is. */
  function Standing(rs: seq<Rank>, j: Option<nat>): (q: Rank)
    requires j.Some? ==> j.value < |rs|
    ensures j.Some? ==> q == rs[j.value]
    ensures j.None? ==> q == Start
  {
    match j
    case None => Start
    case Some(i) => rs[i]
  }

  /** What the loop keeps: no candidate seen beats the standing, and the
      candidate held beats every one before it and the start. */
  lemma {:induction false} LeaderIsFirstBest(rs: seq<Rank>, n: nat)
    requires n <= |rs|
    ensures forall i :: 0 <= i < n ==> !Beats(rs[i], Standing(rs, Leader(rs, n)))
    ensures Leader(rs, n).Some? ==> Beats(rs[Leader(rs, n).value], Start)
    ensures Leader(rs, n).Some? ==>
              forall i :: 0 <= i < Leader(rs, n).value ==> Beats(rs[Leader(rs, n).value], rs[i])
  {
    if n > 0 {
      LeaderIsFirstBest(rs, n - 1);
      var prev := Leader(rs, n - 1);
      var held := Standing(rs, prev);
      if Beats(rs[n - 1], held) {
        forall i | 0 <= i < n - 1
          ensures Beats(rs[n - 1], rs[i])
        {
          BeatsTransitive(rs[n - 1], held, rs[i]);
        }
        if prev.Some? {
          BeatsTransitive(rs[n - 1], held, Start);
        }
        forall i | 0 <= i < n
          ensures !Beats(rs[i], rs[n - 1])
        {
          BeatsIsLexicographic(rs[i], rs[n - 1]);
        }
      }
    }
  }

  /** No candidate is held exactly when none beats the start: none is
      readable and each scores zero. */
  lemma NoLeaderWhenNoneBeatsStart(rs: seq<Rank>, n: nat)
    requires n <= |rs|
    ensures Leader(rs, n).None? <==> forall i :: 0 <= i < n ==> !Beats(rs[i], Start)
  {
    LeaderIsFirstBest(rs, n);
  }

  /** When any candidate is readable, the one held is readable. */
  lemma ReadableLeader(rs: seq<Rank>, n: nat, i: nat)
    requires i < n <= |rs| && rs[i].readable
    ensures Leader(rs, n).Some? && rs[Leader(rs, n).value].readable
  {
    LeaderIsFirstBest(rs, n);
  }

  /** The ranks of the candidates against the base colour. */
  function Ranks(base: Input, list: seq<Input>): (rs: seq<Rank>)
    requires Usable(base) && forall i :: 0 <= i < |list| ==> Usable(list[i])
    ensures |rs| == |list|
    ensures forall i :: 0 <= i < |list| ==> rs[i] == RankOf(base, list[i])
  {
    seq(|list|, i requires 0 <= i < |list| => RankOf(base, list[i]))
  }

  /** What `mostReadable` returns, given which candidate leads. */
  function Chosen(list: seq<Input>, j: Option<nat>): (best: Option<Color>)
    requires forall i :: 0 <= i < |list| ==> Usable(list[i])
    requires j.Some? ==> j.value < |list|
    ensures best.None? <==> j.None?
  {
    match j
    case None => None
    case Some(i) => assert Usable(list[i]); Some(ColourOf(list[i]))
  }

  /** `tinycolor.mostReadable(baseColor, colorList)`: the first candidate
      of the highest rank (`null` when no candidate beats the start). */
  method MostReadable(base: Input, list: seq<Input>) returns (best: Option<Color>)
    requires Usable(base) && forall i :: 0 <= i < |list| ==> Usable(list[i])
    ensures best == Chosen(list, Leader(Ranks(base, list), |list|))
  {
    hide ColourOf, Readability, Leader;
    ghost var rs := Ranks(base, list);
    LeaderStep(rs, 0);
    best := None;
    var bestScore := 0.0;
    var bestIsReadable := false;
    var i := 0;
    while i < |list|
      invariant 0 <= i <= |list|
      invariant Rank(bestIsReadable, bestScore) == Standing(rs, Leader(rs, i))
      invariant best == Chosen(list, Leader(rs, i))
    {
      var readability := Readability(base, list[i]);
      var readable := readability.brightness > 125.0 && readability.color > 500.0;
      var score := 3.0 * (readability.brightness / 125.0) + readability.color / 500.0;
      assert Rank(readable, score) == rs[i];
      ghost var held := Leader(rs, i);
      LeaderStep(rs, i);
      if (readable && !bestIsReadable)
         || (readable && bestIsReadable && score > bestScore)
         || (!readable && !bestIsReadable && score > bestScore)
      {
        bestIsReadable := readable;
        bestScore := score;
        best := Some(ColourOf(list[i]));
        assert Leader(rs, i + 1) == Some(i);
        assert best == Chosen(list, Some(i));
      } else {
        assert Leader(rs, i + 1) == held;
      }
      i := i + 1;
    }
  }

  /** `mostReadable` returns `null` only when every candidate has the base
      colour's channels. */
  lemma MostReadableNull(base: Input, list: seq<Input>)
    requires Usable(base) && forall i :: 0 <= i < |list| ==> Usable(list[i])
    ensures Leader(Ranks(base, list), |list|).None? <==>
              forall i :: 0 <= i < |list| ==> ChannelsOf(ColourOf(list[i])) == ChannelsOf(ColourOf(base))
  {
    hide ColourOf, ChannelsOf, Readability, RankOf, Ranks, Leader;
    var rs := Ranks(base, list);
    NoLeaderWhenNoneBeatsStart(rs, |list|);
  }

  /** When some candidate is readable against the base, `mostReadable`
      returns a readable one. */
  lemma MostReadableIsReadable(base: Input, list: seq<Input>, i: nat)
    requires Usable(base) && forall k :: 0 <= k < |list| ==> Usable(list[k])
    requires i < |list| && Readable(base, list[i])
    ensures Leader(Ranks(base, list), |list|).Some?
    ensures Readable(base, list[Leader(Ranks(base, list), |list|).value])
  {
    hide ColourOf, Readability;
    ReadableLeader(Ranks(base, list), |list|, i);
  }
}
