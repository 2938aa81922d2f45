/** The pixel transform of `ImageProcessor.invert`: the colour matrix that
    negates red, green and blue, pre-concatenated with the saturation-0 matrix,
    drawn from the source bitmap into a new bitmap of the same size. */
module InvertFilter {

  /** One 8-bit channel of an ARGB_8888 pixel. */
  type Channel = c: int | 0 <= c <= 255

  datatype Color = Color(alpha: Channel, red: Channel, green: Channel, blue: Channel)

  /** A bitmap as its width, its height and its pixels in row-major order. */
  datatype Bitmap = Bitmap(width: nat, height: nat, pixels: seq<Color>) {
    predicate Valid() {
      |pixels| == width * height
    }
  }

  /** A colour as a colour filter computes with it: one real per channel. */
  datatype Rgba = Rgba(red: real, green: real, blue: real, alpha: real)

  predicate InRange(v: Rgba)
  {
    0.0 <= v.red <= 255.0 && 0.0 <= v.green <= 255.0 &&
    0.0 <= v.blue <= 255.0 && 0.0 <= v.alpha <= 255.0
  }

  function ToRgba(c: Color): (v: Rgba)
    ensures InRange(v)
  {
    Rgba(c.red as real, c.green as real, c.blue as real, c.alpha as real)
  }

  /** A 4 x 5 colour matrix in Android's `ColorMatrix` layout: rows red, green,
      blue, alpha; columns red, green, blue, alpha and a constant offset. */
  datatype ColorMatrix = ColorMatrix(entries: seq<real>) {
    predicate WellFormed() {
      |entries| == 20
    }
  }

  /** The matrix `matrixInvert` is set to: each colour channel becomes 255 minus
      itself, alpha passes through. */
  const InvertMatrix := ColorMatrix([
    -1.0, 0.0, 0.0, 0.0, 255.0,
    0.0, -1.0, 0.0, 0.0, 255.0,
    0.0, 0.0, -1.0, 0.0, 255.0,
    0.0, 0.0, 0.0, 1.0, 0.0
  ])

  /** The three luminance weights of the saturation-0 matrix. Their floating-point
      values are not modelled; like the platform's, they are non-negative and sum
      to one. */
  datatype Weights = Weights(red: real, green: real, blue: real) {
    predicate Valid() {
      red >= 0.0 && green >= 0.0 && blue >= 0.0 && red + green + blue == 1.0
    }
  }

  /** The matrix `setSaturation(0)` builds: every colour row is the luminance
      row, alpha passes through. */
  function SaturationZero(w: Weights): ColorMatrix
  {
    ColorMatrix([
      w.red, w.green, w.blue, 0.0, 0.0,
      w.red, w.green, w.blue, 0.0, 0.0,
      w.red, w.green, w.blue, 0.0, 0.0,
      0.0, 0.0, 0.0, 1.0, 0.0
    ])
  }

  function Luma(w: Weights, v: Rgba): real
  {
    w.red * v.red + w.green * v.green + w.blue * v.blue
  }

  /** A colour filter saturates each result into 0..255. */
  function Clamp(x: real): (y: real)
    ensures 0.0 <= y <= 255.0
    ensures 0.0 <= x <= 255.0 ==> y == x
  {
    if x < 0.0 then 0.0 else if x > 255.0 then 255.0 else x
  }

  /** Row `i` of `m` applied to `v`, before saturation. */
  function RowValue(m: ColorMatrix, i: int, v: Rgba): real
    requires m.WellFormed() && 0 <= i < 4
  {
    var k := 5 * i;
    m.entries[k] * v.red + m.entries[k + 1] * v.green + m.entries[k + 2] * v.blue
      + m.entries[k + 3] * v.alpha + m.entries[k + 4]
  }

  /** What a colour filter built from `m` does to one colour. */
  function Apply(m: ColorMatrix, v: Rgba): (u: Rgba)
    requires m.WellFormed()
    ensures InRange(u)
  {
    Rgba(Clamp(RowValue(m, 0, v)), Clamp(RowValue(m, 1, v)), Clamp(RowValue(m, 2, v)), Clamp(RowValue(m, 3, v)))
  }

  /** `a.preConcat(b)`: the product `a * b` of the two affine maps, as
      `ColorMatrix.setConcat` computes it. */
  function PreConcat(a: ColorMatrix, b: ColorMatrix): (c: ColorMatrix)
    requires a.WellFormed() && b.WellFormed()
    ensures c.WellFormed()
  {
    ColorMatrix([
      ProductEntry(a, b, 0, 0), ProductEntry(a, b, 0, 1), ProductEntry(a, b, 0, 2), ProductEntry(a, b, 0, 3), ProductEntry(a, b, 0, 4),
      ProductEntry(a, b, 1, 0), ProductEntry(a, b, 1, 1), ProductEntry(a, b, 1, 2), ProductEntry(a, b, 1, 3), ProductEntry(a, b, 1, 4),
      ProductEntry(a, b, 2, 0), ProductEntry(a, b, 2, 1), ProductEntry(a, b, 2, 2), ProductEntry(a, b, 2, 3), ProductEntry(a, b, 2, 4),
      ProductEntry(a, b, 3, 0), ProductEntry(a, b, 3, 1), ProductEntry(a, b, 3, 2), ProductEntry(a, b, 3, 3), ProductEntry(a, b, 3, 4)
    ])
  }

  /** Row `i`, column `j` of the product. */
  function ProductEntry(a: ColorMatrix, b: ColorMatrix, i: int, j: int): real
    requires a.WellFormed() && b.WellFormed() && 0 <= i < 4 && 0 <= j < 5
  {
    a.entries[5 * i] * b.entries[j] + a.entries[5 * i + 1] * b.entries[5 + j]
      + a.entries[5 * i + 2] * b.entries[10 + j] + a.entries[5 * i + 3] * b.entries[15 + j]
      + (if j == 4 then a.entries[5 * i + 4] else 0.0)
  }

  /** The invert matrix alone negates the colour channels without ever
      saturating, and keeps alpha. */
  lemma InvertMatrixNegates(v: Rgba)
    requires InRange(v)
    ensures InvertMatrix.WellFormed()
    ensures Apply(InvertMatrix, v) == Rgba(255.0 - v.red, 255.0 - v.green, 255.0 - v.blue, v.alpha)
  {
    assert RowValue(InvertMatrix, 0, v) == 255.0 - v.red;
    assert RowValue(InvertMatrix, 1, v) == 255.0 - v.green;
    assert RowValue(InvertMatrix, 2, v) == 255.0 - v.blue;
    assert RowValue(InvertMatrix, 3, v) == v.alpha;
  }

  /** A channel value `y` scaled by a non-negative weight `x` stays between 0
      and `255 * x`. */
  lemma ScaledChannel(x: real, y: real, p: real)
    requires 0.0 <= x && 0.0 <= y <= 255.0 && p == x * y
    ensures 0.0 <= p <= 255.0 * x
  {
  }

  lemma SumBound(p: real, q: real, r: real, a: real, b: real, c: real)
    requires 0.0 <= p <= 255.0 * a && 0.0 <= q <= 255.0 * b && 0.0 <= r <= 255.0 * c
    requires a + b + c == 1.0
    ensures 0.0 <= p + q + r <= 255.0
  {
  }

  /** A weighted sum of channels, with weights that are non-negative and sum
      to one, is again a channel value. */
  lemma WeightedSumInRange(a: real, b: real, c: real, x: real, y: real, z: real)
    requires a >= 0.0 && b >= 0.0 && c >= 0.0 && a + b + c == 1.0
    requires 0.0 <= x <= 255.0 && 0.0 <= y <= 255.0 && 0.0 <= z <= 255.0
    ensures 0.0 <= a * x + b * y + c * z <= 255.0
  {
    var p, q, r := a * x, b * y, c * z;
    ScaledChannel(a, x, p);
    ScaledChannel(b, y, q);
    ScaledChannel(c, z, r);
    SumBound(p, q, r, a, b, c);
  }

  /** The saturation-0 matrix gives red, green and blue the same value, the
      luminance, which lies in 0..255, and keeps alpha. */
  lemma SaturationZeroGrays(w: Weights, v: Rgba)
    requires w.Valid() && InRange(v)
    ensures 0.0 <= Luma(w, v) <= 255.0
    ensures Apply(SaturationZero(w), v) == Rgba(Luma(w, v), Luma(w, v), Luma(w, v), v.alpha)
  {
    WeightedSumInRange(w.red, w.green, w.blue, v.red, v.green, v.blue);
    var g := Luma(w, v);
    assert RowValue(SaturationZero(w), 0, v) == g;
    assert RowValue(SaturationZero(w), 1, v) == g;
    assert RowValue(SaturationZero(w), 2, v) == g;
    assert RowValue(SaturationZero(w), 3, v) == v.alpha;
  }

  /** The matrix whose colour rows are the negated luminance row plus 255. */
  function NegatedLumaMatrix(w: Weights): ColorMatrix
  {
    ColorMatrix([
      -w.red, -w.green, -w.blue, 0.0, 255.0,
      -w.red, -w.green, -w.blue, 0.0, 255.0,
      -w.red, -w.green, -w.blue, 0.0, 255.0,
      0.0, 0.0, 0.0, 1.0, 0.0
    ])
  }

  /** `matrixInvert.preConcat(matrixGrayscale)` is, entry by entry, the
      negated luminance row plus 255 for every colour row and the identity
      row for alpha. */
  lemma InvertGrayProduct(w: Weights)
    ensures PreConcat(InvertMatrix, SaturationZero(w)) == NegatedLumaMatrix(w)
  {
    var s := SaturationZero(w);
    assert ProductEntry(InvertMatrix, s, 0, 0) == -w.red;
  }

  /** Row `i < 3` of `NegatedLumaMatrix` gives 255 minus the luminance. */
  lemma NegatedLumaRow(w: Weights, v: Rgba, i: int)
    requires 0 <= i < 3
    ensures RowValue(NegatedLumaMatrix(w), i, v) == 255.0 - Luma(w, v)
  {
    var a, b, c := w.red * v.red, w.green * v.green, w.blue * v.blue;
    assert (-w.red) * v.red == -a;
    assert (-w.green) * v.green == -b;
    assert (-w.blue) * v.blue == -c;
  }

  /** The filter `invert` installs: `matrixInvert` pre-concatenated with the
      saturation-0 matrix makes every colour channel 255 minus the luminance,
      which never saturates, and keeps alpha. */
  lemma InvertFilterMatrix(w: Weights, v: Rgba)
    requires w.Valid() && InRange(v)
    ensures var g := Luma(w, v);
      Apply(PreConcat(InvertMatrix, SaturationZero(w)), v) == Rgba(255.0 - g, 255.0 - g, 255.0 - g, v.alpha)
  {
    InvertGrayProduct(w);
    WeightedSumInRange(w.red, w.green, w.blue, v.red, v.green, v.blue);
    var g, m := Luma(w, v), NegatedLumaMatrix(w);
    NegatedLumaRow(w, v, 0);
    NegatedLumaRow(w, v, 1);
    NegatedLumaRow(w, v, 2);
    assert RowValue(m, 3, v) == v.alpha;
  }

  // ---------------------------------------------------------------------------
  // Pixels of 8-bit channels

  /** The gray value, as a channel, that the saturation-0 matrix gives a pixel.
      The platform rounds the luminance in its own way, so the model keeps this
      function abstract and ties it to `Luma` only where the luminance is whole. */
  type Luminance = (Channel, Channel, Channel) -> Channel

  /** `gray` is the exact luminance of `c` for the weights `w`. */
  predicate ExactAt(gray: Luminance, w: Weights, c: Color)
  {
    gray(c.red, c.green, c.blue) as real == Luma(w, ToRgba(c))
  }

  /** Back from a filter result to 8-bit channels; only whole results are
      converted in this model, and for those this is exact. */
  function ToChannel(x: real): (c: Channel)
    ensures 0.0 <= x <= 255.0 && x == x.Floor as real ==> c == x.Floor
  {
    if x < 0.0 then 0 else if x >= 255.0 then 255 else x.Floor
  }

  function ToColor(v: Rgba): Color
  {
    Color(ToChannel(v.alpha), ToChannel(v.red), ToChannel(v.green), ToChannel(v.blue))
  }

  /** The saturation-0 step on a pixel: red, green and blue all become `gray`,
      alpha passes through. */
  function Desaturate(c: Color, gray: Luminance): (d: Color)
    ensures d.alpha == c.alpha
    ensures d.red == d.green == d.blue == gray(c.red, c.green, c.blue)
  {
    var g := gray(c.red, c.green, c.blue);
    Color(c.alpha, g, g, g)
  }

  /** Where `gray` is the exact luminance, `Desaturate` is the saturation-0 matrix. */
  lemma DesaturateIsSaturationZero(c: Color, gray: Luminance, w: Weights)
    requires w.Valid() && ExactAt(gray, w, c)
    ensures ToRgba(Desaturate(c, gray)) == Apply(SaturationZero(w), ToRgba(c))
  {
    SaturationZeroGrays(w, ToRgba(c));
  }

  /** The filter of `invert` on one pixel: the invert matrix applied after
      `Desaturate`. */
  function InvertColor(c: Color, gray: Luminance): (d: Color)
    ensures d.alpha == c.alpha
    ensures d.red == d.green == d.blue == 255 - gray(c.red, c.green, c.blue)
  {
    var g := gray(c.red, c.green, c.blue);
    InvertMatrixNegates(ToRgba(Desaturate(c, gray)));
    assert (255 - g) as real == 255.0 - g as real;
    ToColor(Apply(InvertMatrix, ToRgba(Desaturate(c, gray))))
  }

  /** Where `gray` is the exact luminance, `InvertColor` is the filter built by
      `matrixInvert.preConcat(matrixGrayscale)`. */
  lemma InvertColorIsPreConcatFilter(c: Color, gray: Luminance, w: Weights)
    requires w.Valid() && ExactAt(gray, w, c)
    ensures ToRgba(InvertColor(c, gray)) == Apply(PreConcat(InvertMatrix, SaturationZero(w)), ToRgba(c))
  {
    InvertFilterMatrix(w, ToRgba(c));
  }

  /** `invert(src)`: a new bitmap of the same width and height whose every pixel
      is the filtered pixel of `src` at the same place. */
  function Invert(src: Bitmap, gray: Luminance): (dst: Bitmap)
    ensures dst.width == src.width && dst.height == src.height
    ensures |dst.pixels| == |src.pixels|
    ensures src.Valid() ==> dst.Valid()
    ensures forall i :: 0 <= i < |src.pixels| ==>
      var s := src.pixels[i];
      dst.pixels[i].alpha == s.alpha &&
      dst.pixels[i].red == 255 - gray(s.red, s.green, s.blue) &&
      dst.pixels[i].green == 255 - gray(s.red, s.green, s.blue) &&
      dst.pixels[i].blue == 255 - gray(s.red, s.green, s.blue)
  {
    Bitmap(src.width, src.height, seq(|src.pixels|, i requires 0 <= i < |src.pixels| => InvertColor(src.pixels[i], gray)))
  }

  /** A luminance whose weights sum to one, as the saturation-0 weights do,
      leaves gray unchanged. */
  predicate KeepsGray(gray: Luminance)
  {
    forall x: Channel :: gray(x, x, x) == x
  }

  /** Inverting twice gives back the grayscale projection of the pixel. */
  lemma InvertTwiceIsGrayscale(c: Color, gray: Luminance)
    requires KeepsGray(gray)
    ensures InvertColor(InvertColor(c, gray), gray) == Desaturate(c, gray)
  {
  }

  /** A pixel with colour is never given back, after one pass or after two,
      whatever the luminance: every pass makes it gray. */
  lemma InvertLosesColor(c: Color, gray: Luminance)
    requires c.red != c.green || c.green != c.blue
    ensures InvertColor(c, gray) != c
    ensures InvertColor(InvertColor(c, gray), gray) != c
  {
  }

  /** Two pixels with the same luminance and alpha become the same pixel. */
  lemma InvertDependsOnlyOnLuminance(c: Color, e: Color, gray: Luminance)
    requires c.alpha == e.alpha && gray(c.red, c.green, c.blue) == gray(e.red, e.green, e.blue)
    ensures InvertColor(c, gray) == InvertColor(e, gray)
  {
  }
}
