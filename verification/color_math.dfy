/** Colour arithmetic of UnderlineContrastFix.jsx: naive CMYK to RGB
    conversion, relative luminance and the contrast ratio of WCAG 2.x
    ("relative luminance" and "contrast ratio" definitions of
    Understanding Success Criterion 1.4.3). */
module ColorMath {

  /** An ink coverage or tint percentage. */
  type Percent = x: real | 0.0 <= x <= 100.0

  /** A process colour: four ink percentages. */
  datatype Cmyk = Cmyk(c: Percent, m: Percent, y: Percent, k: Percent)

  /** A display colour; channels are not restricted by the type, the
      conversion states their range. */
  datatype Rgb = Rgb(r: real, g: real, b: real)

  const Black := Rgb(0.0, 0.0, 0.0)
  const White := Rgb(255.0, 255.0, 255.0)
  const NoInk := Cmyk(0.0, 0.0, 0.0, 0.0)

  predicate InChannelRange(v: real) {
    0.0 <= v <= 255.0
  }

  predicate InGamut(x: Rgb) {
    InChannelRange(x.r) && InChannelRange(x.g) && InChannelRange(x.b)
  }

  /** Channel-wise "at least as light as". */
  predicate Lighter(a: Rgb, b: Rgb) {
    a.r >= b.r && a.g >= b.g && a.b >= b.b
  }

  lemma ProductNonNegative(u: real, w: real)
    requires 0.0 <= u && 0.0 <= w
    ensures 0.0 <= u * w
  {
  }

  lemma ProductInUnit(u: real, w: real)
    requires 0.0 <= u <= 1.0 && 0.0 <= w <= 1.0
    ensures 0.0 <= u * w <= 1.0
  {
    ProductNonNegative(u, w);
    ProductNonNegative(1.0 - u, w);
  }

  lemma ProductMonotone(u: real, w: real, u': real, w': real)
    requires 0.0 <= u' <= u && 0.0 <= w' <= w
    ensures u' * w' <= u * w
  {
    ProductNonNegative(u - u', w');
    ProductNonNegative(u, w - w');
  }

  /** A quotient of positives is at least 1 when the numerator is at least
      the denominator, and exactly 1 only when they are equal. */
  lemma QuotientAtLeastOne(hi: real, lo: real)
    requires 0.0 < lo <= hi
    ensures hi / lo >= 1.0
    ensures hi / lo == 1.0 <==> hi == lo
  {
    var q := hi / lo;
    assert q * lo == hi;
    if q < 1.0 {
      ProductNonNegative(1.0 - q, lo);
    }
  }

  /** One RGB channel from its complementary ink and the black ink. */
  function InkToChannel(ink: Percent, k: Percent): (v: real)
    ensures InChannelRange(v)
  {
    ProductInUnit(1.0 - ink / 100.0, 1.0 - k / 100.0);
    255.0 * ((1.0 - ink / 100.0) * (1.0 - k / 100.0))
  }

  /** cmykToRgb: each channel is 255 scaled by the absence of its own ink
      and by the absence of black. */
  function CmykToRgb(x: Cmyk): (r: Rgb)
    ensures InGamut(r)
    ensures x.k == 100.0 ==> r == Black
    ensures x == NoInk ==> r == White
  {
    Rgb(InkToChannel(x.c, x.k), InkToChannel(x.m, x.k), InkToChannel(x.y, x.k))
  }

  /** Adding ink never makes any RGB channel lighter. */
  lemma MoreInkIsDarker(a: Cmyk, b: Cmyk)
    requires a.c <= b.c && a.m <= b.m && a.y <= b.y && a.k <= b.k
    ensures Lighter(CmykToRgb(a), CmykToRgb(b))
  {
    ProductMonotone(1.0 - a.c / 100.0, 1.0 - a.k / 100.0, 1.0 - b.c / 100.0, 1.0 - b.k / 100.0);
    ProductMonotone(1.0 - a.m / 100.0, 1.0 - a.k / 100.0, 1.0 - b.m / 100.0, 1.0 - b.k / 100.0);
    ProductMonotone(1.0 - a.y / 100.0, 1.0 - a.k / 100.0, 1.0 - b.y / 100.0, 1.0 - b.k / 100.0);
  }

  /** Normalised channel value up to which the sRGB transfer is linear. */
  const LinearLimit: real := 0.03928

  /** The power-law branch ((v + 0.055) / 1.055)^2.4 of the sRGB transfer,
      taken as a parameter: any function that is non-negative wherever it
      is used. */
  type Transfer = f: real -> real | forall v :: v > LinearLimit ==> f(v) >= 0.0
    witness (v: real) => 0.0

  /** channelToLinear: normalise to [0,1], then the linear branch below the
      knee and the power branch above it. */
  function ChannelToLinear(c: real, f: Transfer): (l: real)
    requires InChannelRange(c)
    ensures 0.0 <= l
    ensures c == 0.0 ==> l == 0.0
    ensures c == 255.0 ==> l == f(1.0)
  {
    var v := c / 255.0;
    if v <= LinearLimit then v / 12.92 else f(v)
  }

  /** relativeLuminance: the 0.2126 / 0.7152 / 0.0722 weighted sum of the
      linearised channels. */
  function RelativeLuminance(x: Rgb, f: Transfer): (l: real)
    requires InGamut(x)
    ensures 0.0 <= l
    ensures x == Black ==> l == 0.0
    ensures x == White ==> l == f(1.0)
  {
    0.2126 * ChannelToLinear(x.r, f)
      + 0.7152 * ChannelToLinear(x.g, f)
      + 0.0722 * ChannelToLinear(x.b, f)
  }

  function Max(a: real, b: real): real {
    if a >= b then a else b
  }

  function Min(a: real, b: real): real {
    if a <= b then a else b
  }

  /** contrastRatio: lighter luminance plus 0.05 over darker luminance plus
      0.05. */
  function ContrastRatio(a: Rgb, b: Rgb, f: Transfer): (ratio: real)
    requires InGamut(a) && InGamut(b)
    ensures ratio >= 1.0
  {
    var l1 := RelativeLuminance(a, f);
    var l2 := RelativeLuminance(b, f);
    QuotientAtLeastOne(Max(l1, l2) + 0.05, Min(l1, l2) + 0.05);
    (Max(l1, l2) + 0.05) / (Min(l1, l2) + 0.05)
  }

  /** The contrast ratio does not depend on which colour comes first. */
  lemma ContrastSymmetric(a: Rgb, b: Rgb, f: Transfer)
    requires InGamut(a) && InGamut(b)
    ensures ContrastRatio(a, b, f) == ContrastRatio(b, a, f)
  {
  }

  /** The ratio is exactly 1 when, and only when, the two luminances agree. */
  lemma ContrastOneIffSameLuminance(a: Rgb, b: Rgb, f: Transfer)
    requires InGamut(a) && InGamut(b)
    ensures ContrastRatio(a, b, f) == 1.0 <==> RelativeLuminance(a, f) == RelativeLuminance(b, f)
  {
    var l1 := RelativeLuminance(a, f);
    var l2 := RelativeLuminance(b, f);
    QuotientAtLeastOne(Max(l1, l2) + 0.05, Min(l1, l2) + 0.05);
  }

  /** A colour has no contrast against itself. */
  lemma ContrastWithItself(a: Rgb, f: Transfer)
    requires InGamut(a)
    ensures ContrastRatio(a, a, f) == 1.0
  {
    ContrastOneIffSameLuminance(a, a, f);
  }
}
