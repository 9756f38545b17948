/** fixUnderlineContrastInStyle: the guards, the default tint, the
    contrast test handed to the tint search, and the single write of
    `underlineTint`. */
module ContrastFix {
  import opened Wrappers
  import opened ColorMath
  import opened Tint
  import opened Styles

  /** The script's MIN_CONTRAST. */
  const DefaultMinContrast: real := 5.0

  /** The tunables: the contrast threshold and the sRGB power branch. */
  datatype Config = Config(minContrast: real, transfer: Transfer)

  function DefaultConfig(f: Transfer): Config {
    Config(DefaultMinContrast, f)
  }

  /** The tint the search starts from: the stored number, or 100 when the
      property is not a number. */
  function InitialTint(t: Option<Percent>): (p: Percent)
    ensures t.Some? ==> p == t.value
    ensures t.None? ==> p == 100.0
  {
    t.GetOr(100.0)
  }

  /** The pass test of the search: the tinted underline, treated as the
      background, reaches the threshold against the text colour. */
  function ContrastPasses(text: Cmyk, cfg: Config): Cmyk -> bool {
    (u: Cmyk) => ContrastRatio(CmykToRgb(text), CmykToRgb(u), cfg.transfer) >= cfg.minContrast
  }

  /** The style carries an underline and both colours expose CMYK values. */
  predicate Fixable(s: Style) {
    && s.underline
    && s.fillColor.Some? && s.fillColor.value.Process?
    && s.underlineColor.Some? && s.underlineColor.value.Process?
  }

  /** The updated style together with the script's result object. */
  datatype Fixed = Fixed(style: Style, change: TintChange)

  /** fixUnderlineContrastInStyle: None (the script's null, nothing
      written) for an inapplicable style; otherwise the search result, with
      `underlineTint` set to the new tint and every other property kept. */
  function FixStyle(s: Style, cfg: Config): (r: Option<Fixed>)
    ensures r.None? <==> !Fixable(s)
    ensures r.Some? ==> r.value.style == s.(underlineTint := Some(r.value.change.newTint))
    ensures r.Some? ==> r.value.change.initialTint == InitialTint(s.underlineTint)
    ensures r.Some? ==> (r.value.change.adjusted <==> r.value.change.newTint != r.value.change.initialTint)
    ensures r.Some? ==>
              r.value.change == FindTint(s.underlineColor.value.value, InitialTint(s.underlineTint),
                                         ContrastPasses(s.fillColor.value.value, cfg))
  {
    if !s.underline then None
    else if s.fillColor.None? || s.underlineColor.None? then None
    else if !s.fillColor.value.Process? then None
    else if !s.underlineColor.value.Process? then None
    else
      var text := s.fillColor.value.value;
      var underline := s.underlineColor.value.value;
      var change := FindTint(underline, InitialTint(s.underlineTint), ContrastPasses(text, cfg));
      Some(Fixed(s.(underlineTint := Some(change.newTint)), change))
  }

  /** An underline of the same whole-percent colour as the text, at the
      default tint, fails at full tint (its contrast is 1), so any
      threshold above 1 leads to an adjustment. */
  lemma SameColourIsAdjusted(s: Style, cfg: Config)
    requires Fixable(s) && s.fillColor == s.underlineColor
    requires IsWholeCmyk(s.fillColor.value.value)
    requires s.underlineTint.None? && cfg.minContrast > 1.0
    ensures FixStyle(s, cfg).Some? && FixStyle(s, cfg).value.change.adjusted
  {
    var x := s.fillColor.value.value;
    var passes := ContrastPasses(x, cfg);
    FullTintIsIdentity(x);
    assert Tinted(x, 100.0) == x;
    ContrastWithItself(CmykToRgb(x), cfg.transfer);
    assert !PassesAt(x, 100.0, 0, passes);
    var r := FindTint(x, 100.0, passes);
    if r.newTint != MinTintPercent {
      var k: nat :| IsFirstPass(x, 100.0, k, passes) && RoundsTo(Candidate(100.0, k), r.newTint);
      assert k >= 1;
    }
  }
}
