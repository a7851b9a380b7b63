// The CIE stage functions of the picker: sRGB to XYZ, XYZ to CIE L*a*b*,
// L*a*b* to LCh and back. The transcendental functions they call
// (`Math.pow`, `Math.sqrt`, `Math.atan2`, `Math.sin`, `Math.cos` and
// `Math.PI`) are parameters of the model, so only facts that do not depend
// on their values are proved, or facts that assume a stated value of one
// of them.

module Cie {
  import opened JsValues
  import opened Conversions

  /** The `Math` functions the CIE chain calls. */
  datatype Transcendental = Transcendental(
    pow: (real, real) -> real,
    sqrt: real -> real,
    atan2: (real, real) -> real,
    sin: real -> real,
    cos: real -> real,
    pi: real)

  /** The parameters the model admits: `Math.PI` is positive. */
  type Maths = m: Transcendental | m.pi > 0.0
    witness Transcendental((x, e) => 0.0, x => 0.0, (y, x) => 0.0, x => 0.0, x => 0.0, 3.14159)

  datatype Xyz = Xyz(x: real, y: real, z: real)

  datatype Lab = Lab(l: real, a: real, b: real)

  /** An LCh colour; `alpha` is the `a` property `rgb2lch` copies over. */
  datatype Lch = Lch(l: real, c: real, h: real, alpha: Option<real>)

  // ---------------------------------------------------------------------
  // rgb2XYZ

  /** One channel of `rgb2XYZ` before the scaling by 100: the sRGB transfer
      curve undone, linear below 0.04045. */
  function Linear(m: Maths, v: real): real
  {
    var t := v / 255.0;
    if t > 0.04045 then m.pow((t + 0.055) / 1.055, 2.4) else t / 12.92
  }

  /** `rgb2XYZ`: the linear channels times 100 through the D65 matrix. */
  function RgbToXyz(m: Maths, rgb: Rgb): Xyz
  {
    var r := Linear(m, rgb.r) * 100.0;
    var g := Linear(m, rgb.g) * 100.0;
    var b := Linear(m, rgb.b) * 100.0;
    Xyz(r * 0.4124 + g * 0.3576 + b * 0.1805,
        r * 0.2126 + g * 0.7152 + b * 0.0722,
        r * 0.0193 + g * 0.1192 + b * 0.9505)
  }

  /** Black is the origin of XYZ, whatever `Math.pow` is. */
  lemma BlackIsOrigin(m: Maths)
    ensures RgbToXyz(m, Rgb(0.0, 0.0, 0.0)) == Xyz(0.0, 0.0, 0.0)
  {
    assert Linear(m, 0.0) == 0.0;
  }

  // ---------------------------------------------------------------------
  // XYZ2CIELab

  /** The lightness curve of `XYZ2CIELab`: a cube root above 0.008856 and a
      straight line below it. */
  function Compress(m: Maths, t: real): real
  {
    if t > 0.008856 then m.pow(t, 0.333333333) else 7.787 * t + 0.137931034
  }

  /** `XYZ2CIELab`, relative to the D65 white point (95.047, 100, 108.883). */
  function XyzToLab(m: Maths, xyz: Xyz): Lab
  {
    var x := Compress(m, xyz.x / 95.047);
    var y := Compress(m, xyz.y / 100.0);
    var z := Compress(m, xyz.z / 108.883);
    Lab(116.0 * y - 16.0, 500.0 * (x - y), 200.0 * (y - z))
  }

  /** A colour in the proportions of the white point has no hue: a* and b*
      are zero. */
  lemma NeutralHasNoHue(m: Maths, xyz: Xyz)
    requires xyz.x / 95.047 == xyz.y / 100.0 == xyz.z / 108.883
    ensures XyzToLab(m, xyz).a == 0.0 && XyzToLab(m, xyz).b == 0.0
  {
  }

  /** The white point itself has lightness 100, when the cube root of 1 is 1. */
  lemma WhitePoint(m: Maths)
    requires m.pow(1.0, 0.333333333) == 1.0
    ensures XyzToLab(m, Xyz(95.047, 100.0, 108.883)) == Lab(100.0, 0.0, 0.0)
  {
    assert 95.047 / 95.047 == 1.0 && 108.883 / 108.883 == 1.0;
  }

  // ---------------------------------------------------------------------
  // CIELab2CIELCH and CIELCH2CIELab

  /** `CIELab2CIELCH`: chroma is the length of (a*, b*), hue the angle in
      degrees; an angle of 0 or below is turned into 360 minus its size. */
  function LabToLch(m: Maths, lab: Lab): (lch: Lch)
    ensures lch.l == lab.l && lch.alpha.None?
  {
    var h := m.atan2(lab.b, lab.a);
    Lch(lab.l, m.sqrt(m.pow(lab.a, 2.0) + m.pow(lab.b, 2.0)),
        if h > 0.0 then (h / m.pi) * 180.0 else 360.0 - (Abs(h) / m.pi) * 180.0,
        None)
  }

  /** With `atan2` in [-pi, pi] the hue lies in (0, 360]: an angle of 0
      becomes 360, never 0. */
  lemma HueOnCircle(m: Maths, lab: Lab)
    requires -m.pi <= m.atan2(lab.b, lab.a) <= m.pi
    ensures 0.0 < LabToLch(m, lab).h <= 360.0
    ensures m.atan2(lab.b, lab.a) == 0.0 ==> LabToLch(m, lab).h == 360.0
    ensures m.atan2(lab.b, lab.a) > 0.0 ==> LabToLch(m, lab).h <= 180.0
    ensures m.atan2(lab.b, lab.a) <= 0.0 ==> LabToLch(m, lab).h >= 180.0
  {
    var h := m.atan2(lab.b, lab.a);
    FractionOfPi(Abs(h), m.pi);
  }

  lemma FractionOfPi(t: real, p: real)
    requires 0.0 < p && 0.0 <= t <= p
    ensures 0.0 <= (t / p) * 180.0 <= 180.0
    ensures t > 0.0 ==> (t / p) * 180.0 > 0.0
  {
    var q := t / p;
    assert q * p == t;
    GrowBy(q, p);
  }

  lemma GrowBy(q: real, p: real)
    requires p > 0.0
    ensures q > 1.0 ==> q * p > p
  {
  }

  /** `CIELCH2CIELab`: back from polar form; the constant is pi / 180. */
  function LchToLab(m: Maths, lch: Lch): (lab: Lab)
    ensures lab.l == lch.l
  {
    Lab(lch.l, m.cos(lch.h * 0.01745329251) * lch.c, m.sin(lch.h * 0.01745329251) * lch.c)
  }

  /** Zero chroma is grey: a* and b* vanish whatever the hue. */
  lemma ZeroChromaIsGrey(m: Maths, lch: Lch)
    requires lch.c == 0.0
    ensures LchToLab(m, lch) == Lab(lch.l, 0.0, 0.0)
  {
  }

  // ---------------------------------------------------------------------
  // CIELab2XYZ

  /** The inverse of `Compress` as `CIELab2XYZ` writes it: the cube when the
      cube is above 0.008856, otherwise the straight line undone. */
  function Expand(m: Maths, t: real): real
  {
    if m.pow(t, 3.0) > 0.008856 then m.pow(t, 3.0) else (t - 0.137931034) / 7.787
  }

  /** `CIELab2XYZ`. */
  function LabToXyz(m: Maths, lab: Lab): Xyz
  {
    var y := (lab.l + 16.0) / 116.0;
    var x := lab.a / 500.0 + y;
    var z := y - lab.b / 200.0;
    Xyz(95.047 * Expand(m, x), 100.0 * Expand(m, y), 108.883 * Expand(m, z))
  }

  /** Whether a channel, relative to the white point, is on the straight
      part of both curves: below 0.008856 going to L*a*b*, and with a cube
      of at most 0.008856 coming back. */
  predicate DarkChannel(m: Maths, t: real)
  {
    t <= 0.008856 && !(m.pow(Compress(m, t), 3.0) > 0.008856)
  }

  /** On the straight parts of the curves `CIELab2XYZ` undoes
      `XYZ2CIELab` exactly. */
  lemma DarkLabRoundTrip(m: Maths, xyz: Xyz)
    requires DarkChannel(m, xyz.x / 95.047)
    requires DarkChannel(m, xyz.y / 100.0)
    requires DarkChannel(m, xyz.z / 108.883)
    ensures LabToXyz(m, XyzToLab(m, xyz)) == xyz
  {
    var fx := Compress(m, xyz.x / 95.047);
    var fy := Compress(m, xyz.y / 100.0);
    var fz := Compress(m, xyz.z / 108.883);
    var lab := XyzToLab(m, xyz);
    assert (lab.l + 16.0) / 116.0 == fy;
    assert lab.a / 500.0 + fy == fx;
    assert fy - lab.b / 200.0 == fz;
    LineUndone(m, xyz.x, 95.047);
    LineUndone(m, xyz.y, 100.0);
    LineUndone(m, xyz.z, 108.883);
  }

  lemma LineUndone(m: Maths, v: real, white: real)
    requires white > 0.0 && DarkChannel(m, v / white)
    ensures white * Expand(m, Compress(m, v / white)) == v
  {
    var t := v / white;
    assert Compress(m, t) == 7.787 * t + 0.137931034;
    assert Expand(m, Compress(m, t)) == t;
    assert white * t == v;
  }

  // ---------------------------------------------------------------------
  // XYZ2rgb

  /** The sRGB transfer curve of `XYZ2rgb`: a power above 0.0031308 and a
      straight line below it. */
  function Gamma(m: Maths, u: real): real
  {
    if u > 0.0031308 then 1.055 * m.pow(u, 0.41666667) - 0.055 else 12.92 * u
  }

  /** The three channels `XYZ2rgb` computes from an XYZ triple already
      divided by 100. */
  function XyzToRgbScaled(m: Maths, s: Xyz): (rgb: Rgb)
    ensures IsInteger(rgb.r) && IsInteger(rgb.g) && IsInteger(rgb.b)
  {
    var r := s.x * 3.2406 + s.y * -1.5372 + s.z * -0.4986;
    var g := s.x * -0.9689 + s.y * 1.8758 + s.z * 0.0415;
    var b := s.x * 0.0557 + s.y * -0.2040 + s.z * 1.0570;
    Rgb(Round(Gamma(m, r) * 255.0) as real, Round(Gamma(m, g) * 255.0) as real,
        Round(Gamma(m, b) * 255.0) as real)
  }

  /** What `XYZ2rgb` leaves in its argument: every coordinate divided by 100. */
  function Hundredth(xyz: Xyz): (s: Xyz)
    ensures s.x * 100.0 == xyz.x && s.y * 100.0 == xyz.y && s.z * 100.0 == xyz.z
  {
    Xyz(xyz.x / 100.0, xyz.y / 100.0, xyz.z / 100.0)
  }

  /** `XYZ2rgb` as a value: integer channels (they are `Math.round`ed),
      not clamped. */
  function XyzToRgb(m: Maths, xyz: Xyz): (rgb: Rgb)
    ensures IsInteger(rgb.r) && IsInteger(rgb.g) && IsInteger(rgb.b)
  {
    XyzToRgbScaled(m, Hundredth(xyz))
  }

  /** Dark channels survive the two transfer curves exactly: a whole
      channel value up to 10 is on the straight part of both. */
  lemma DarkChannelRoundTrip(m: Maths, v: int)
    requires 0 <= v <= 10
    ensures Round(Gamma(m, Linear(m, v as real)) * 255.0) == v
  {
    var t := v as real / 255.0;
    assert t <= 10.0 / 255.0;
    assert Linear(m, v as real) == t / 12.92;
    assert t / 12.92 <= 0.0031308;
    assert Gamma(m, t / 12.92) == t;
    assert t * 255.0 == v as real;
  }

  /** The XYZ object `XYZ2rgb` receives; it divides the coordinates by 100
      in place before converting. */
  class XyzBox {
    var x: real
    var y: real
    var z: real

    constructor (xyz: Xyz)
      ensures Value() == xyz
    {
      x, y, z := xyz.x, xyz.y, xyz.z;
    }

    function Value(): Xyz
      reads this
    {
      Xyz(x, y, z)
    }

    /** `XYZ2rgb(this)`. */
    method ToRgb(m: Maths) returns (rgb: Rgb)
      modifies this
      ensures Value() == Hundredth(old(Value()))
      ensures rgb == XyzToRgb(m, old(Value()))
    {
      x := x / 100.0;
      y := y / 100.0;
      z := z / 100.0;
      var r := x * 3.2406 + y * -1.5372 + z * -0.4986;
      var g := x * -0.9689 + y * 1.8758 + z * 0.0415;
      var b := x * 0.0557 + y * -0.2040 + z * 1.0570;
      if r > 0.0031308 {
        r := 1.055 * m.pow(r, 0.41666667) - 0.055;
      } else {
        r := 12.92 * r;
      }
      if g > 0.0031308 {
        g := 1.055 * m.pow(g, 0.41666667) - 0.055;
      } else {
        g := 12.92 * g;
      }
      if b > 0.0031308 {
        b := 1.055 * m.pow(b, 0.41666667) - 0.055;
      } else {
        b := 12.92 * b;
      }
      rgb := Rgb(Round(r * 255.0) as real, Round(g * 255.0) as real, Round(b * 255.0) as real);
    }
  }

  // ---------------------------------------------------------------------
  // rgb2lch

  /** `rgb2lch`: the chain RGB to XYZ to L*a*b* to LCh; an `a` property of
      the input is copied to the result. */
  function RgbToLch(m: Maths, rgb: Rgb, alpha: Option<real>): (lch: Lch)
    ensures lch.alpha == alpha
    ensures lch.l == XyzToLab(m, RgbToXyz(m, rgb)).l
  {
    LabToLch(m, XyzToLab(m, RgbToXyz(m, rgb))).(alpha := alpha)
  }

  /** The direct conversion `lch2rgb` tries first: LCh to L*a*b* to XYZ to
      RGB. */
  function LchToRgb(m: Maths, lch: Lch): (rgb: Rgb)
    ensures IsInteger(rgb.r) && IsInteger(rgb.g) && IsInteger(rgb.b)
  {
    XyzToRgb(m, LabToXyz(m, LchToLab(m, lch)))
  }
}
