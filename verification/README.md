# Underline Contrast Fix — a verified model

This project models the core of `UnderlineContrastFix.jsx`, an InDesign
script that repairs paragraph styles whose underline colour gives too little
contrast against the text colour. The script treats the underline as a
background. It lowers the underline's tint in one-point steps from the current
tint until the WCAG 2.x contrast ratio against the text reaches `MIN_CONTRAST`
(5). If no tint from the current one down to 7.5 % passes, it falls back to
7.5 %. It fixes each style's root style: the end of its `basedOn` chain. Each
root is fixed at most once per run, however many styles inherit from it.

Modules, leaf first:

- `Wrappers` (`wrappers.dfy`): `Option`.
- `ColorMath` (`color_math.dfy`): `cmykToRgb`, `channelToLinear`,
  `relativeLuminance`, `contrastRatio`. These follow the "relative luminance"
  and "contrast ratio" definitions of WCAG 2.x (Understanding Success
  Criterion 1.4.3).
- `Tint` (`tint.dfy`): `applyTint` with `Math.round`, and the downward tint
  search with its fallback and its `adjusted` flag. The search is generic over
  the pass test.
- `Styles` (`styles.dfy`): paragraph styles, the style store (a map from style
  name to style) and `getRootParagraphStyle`.
- `ContrastFix` (`contrast_fix.dfy`): `fixUnderlineContrastInStyle`. It holds
  the guards, the default tint, the contrast pass test and the one write of
  `underlineTint`.
- `Batch` (`batch.dfy`): the style loop of `processDocument`, the report text,
  and the script's plain objects used as sets (see Findings).

Three points of the code's behaviour that the model keeps:

- The cycle check tests the name of the **current** style before stepping.
  So A→B→C→A entered at A resolves to A, the re-entered style.
- Only enumerated styles are skipped for a name starting with `[`. Such a
  style is still fixed when it is the root of another underlined style. A
  typical case is `[Basic Paragraph]` with a valid link.
- The contrast at full tint is not assumed to fall as the tint falls. No
  monotonicity is claimed: the search returns the first passing step tried.

## Model

| member | source | states |
|---|---|---|
| ColorMath.CmykToRgb | UnderlineContrastFix.jsx:19-26 | For inks in [0,100], every RGB channel lies in [0,255]. Black ink at 100 gives black. No ink gives white. |
| ColorMath.MoreInkIsDarker | UnderlineContrastFix.jsx:19-26 | Adding ink to any channel (black included) never makes any RGB channel lighter. |
| ColorMath.ChannelToLinear | UnderlineContrastFix.jsx:28-33 | A channel in [0,255] linearises to a non-negative value. 0 maps to 0, and 255 maps to the power branch at full intensity. |
| ColorMath.RelativeLuminance | UnderlineContrastFix.jsx:35-39 | Luminance is non-negative. Black has luminance 0. White has the power branch's value at 1, because the three weights sum to one. |
| ColorMath.ContrastRatio | UnderlineContrastFix.jsx:41-45 | The ratio of two in-gamut colours is always at least 1. |
| ColorMath.ContrastSymmetric | UnderlineContrastFix.jsx:41-45 | The ratio does not depend on the order of the two colours. |
| ColorMath.ContrastOneIffSameLuminance | UnderlineContrastFix.jsx:41-45 | The ratio is exactly 1 if and only if the two luminances are equal. |
| ColorMath.ContrastWithItself | UnderlineContrastFix.jsx:41-45 | A colour has contrast exactly 1 against itself. |
| Tint.Round | UnderlineContrastFix.jsx:52-55 | Math.round returns the integer n with n - 0.5 <= x < n + 0.5, so halves round up. |
| Tint.ApplyTint | UnderlineContrastFix.jsx:50-57 | For a tint in [0,1], each result ink is a whole percentage in [0,100]. It is what Math.round gives for ink × tint. |
| Tint.FullTintIsIdentity | UnderlineContrastFix.jsx:50-57 | A tint of 1 leaves whole ink percentages unchanged. |
| Tint.SearchFrom | UnderlineContrastFix.jsx:106-127 | From step j, returns the first step at or after j that is still at or above 7.5 % and passes. Returns None exactly when no such step passes. |
| Tint.FirstPassingStep | UnderlineContrastFix.jsx:103-127 | The search result is the first passing step. It is None if and only if no tried percentage passes. |
| Tint.SearchIsBounded | UnderlineContrastFix.jsx:104-106 | The search tries at most 93 tints: from step 93 on the loop guard fails for every starting tint, passing or not. |
| Tint.FindTint | UnderlineContrastFix.jsx:103-136 | `initialTint` is the starting tint, and `adjusted` holds iff newTint differs from it, on both paths. newTint is 7.5 iff no tint passes. Otherwise it is the rounded first passing percentage. |
| Tint.BelowFloorFallsBack | UnderlineContrastFix.jsx:106-136 | An initial tint below 7.5 never enters the loop. It yields 7.5 and counts as adjusted. |
| Tint.FallbackAtFloorIsNotAdjusted | UnderlineContrastFix.jsx:129-136 | An initial tint of exactly 7.5 that fails yields 7.5 with `adjusted` false. |
| Tint.PassingInitialIsKept | UnderlineContrastFix.jsx:116-123 | A whole initial tint that already passes is kept and not reported. |
| Styles.Walk | UnderlineContrastFix.jsx:64-75 | The loop terminates, because each step adds a new name to `visited`. It returns a style of the store. It stops at once at a style with no qualifying parent, or at a style whose own name is already visited. |
| Styles.RootOf | UnderlineContrastFix.jsx:62-76 | The root is a style of the store. A style whose `basedOn` is missing, invalid or "[No Paragraph Style]" is its own root. |
| Styles.RootIsFirstStop | UnderlineContrastFix.jsx:62-76 | The walk terminates within the store's size. Its result is the first ancestor that has no qualifying parent or whose name was already visited. |
| Styles.CycleResolvesToStart | UnderlineContrastFix.jsx:67-73 | A style on a simple basedOn cycle resolves to itself. |
| Styles.SelfReferenceResolvesToItself | UnderlineContrastFix.jsx:67-73 | A→A resolves to A. |
| Styles.ThreeCycleResolvesToStart | UnderlineContrastFix.jsx:67-73 | A→B→C→A entered at A resolves to A. |
| Styles.WalkDependsOnlyOnLinks | UnderlineContrastFix.jsx:62-76 | Resolution reads nothing but the `basedOn` links. Changing tints never changes any style's root. |
| ContrastFix.InitialTint | UnderlineContrastFix.jsx:97-101 | The starting tint is the stored number, or 100 when `underlineTint` is not a number. |
| ContrastFix.FixStyle | UnderlineContrastFix.jsx:81-137 | Null, with nothing written, if and only if the underline is off or either colour is missing or lacks a CMYK value. Otherwise it is the search result from the default-aware initial tint, where a tint passes iff the contrast of the tinted underline against the text colour reaches the threshold. The returned style differs from the input only in `underlineTint`, which is set to newTint. |
| ContrastFix.SameColourIsAdjusted | UnderlineContrastFix.jsx:81-137 | An underline coloured like the text, at the default tint, fails at 100 %. Any threshold above 1 then leads to an adjustment. |
| Batch.ProcessStyles | UnderlineContrastFix.jsx:144-173 | The same styles are kept. The roots handed to the fix are the candidates' roots without repeats, in the order they were first reached. |
| Batch.ProcessStylesSpec | UnderlineContrastFix.jsx:149-173 | The fixed roots are the candidates' roots without repeats, in first-reached order. Each root is fixed once, from its original state. The adjustments are those roots' adjusted results, in the same order. |
| Batch.FixedRootsAreCandidateRoots | UnderlineContrastFix.jsx:149-163 | A style is handed to the fix iff it is the root of an enumerated, non-bracketed, underlined style. |
| Batch.OnlyRootTintsChange | UnderlineContrastFix.jsx:149-173 | No property other than `underlineTint` changes. The tint changes only on roots handed to the fix. |
| Batch.AdjustmentsAreChanges | UnderlineContrastFix.jsx:163-170 | Every adjustment names a fixed root and records differing initial and new tints. |
| Batch.SharedRootFixedOnce | UnderlineContrastFix.jsx:155-171 | For [A, B, C] with B and C based on A, only A is fixed, and only A's adjustment is reported. |
| Batch.Report | UnderlineContrastFix.jsx:175-187 | The message always starts with the completion header. |
| Batch.ReportSaysNoneIffEmpty | UnderlineContrastFix.jsx:175-187 | The message is the header plus the "No contrast adjustments were needed…" text iff there are no adjustments. Otherwise it lists one line per adjustment. |
| Batch.RootOfAsWritten | UnderlineContrastFix.jsx:64-71 | With `visited` a plain ExtendScript object, a style whose own name is an inherited property (the Object.prototype names, ExtendScript's toSource/watch/unwatch/reflect, and `__proto__`) resolves to itself. |
| Batch.ProcessStylesAsWritten | UnderlineContrastFix.jsx:146-161 | With `processedRoots` a plain ExtendScript object, no root named like an inherited property, from the same list, is ever fixed. |
| Batch.InheritedNameStopsResolution | UnderlineContrastFix.jsx:64-71 | Take "toString" based on "Body". As written it resolves to "toString"; its true root is "Body". |
| Batch.InheritedNameIsNeverFixed | UnderlineContrastFix.jsx:146-161 | An underlined root named "constructor" is skipped as written. With a true set it is fixed. |

## Left out

- The power branch `((v + 0.055) / 1.055)^2.4` of `channelToLinear` is transcendental floating-point math. It is the parameter `Transfer`: any function that is non-negative above the 0.03928 knee. The linear branch is exact.
- ColorMath.ChannelToLinear: states non-negativity and the two end points only. It gives no upper bound or exact value, because the power branch is a parameter.
- ColorMath.RelativeLuminance: gives no upper bound of 1, for the same reason.
- Tint.ApplyTint: the colour tested at a step can differ from the script's. The script multiplies by a drifted float tint: at initial tint 100, the 91 % step is 0.9099999999999999, so ink 50 gives 45.49999999999999, which rounds to 45. The model multiplies by exactly 0.91 and rounds 45.5 to 46.
- Floating-point arithmetic is not modelled: colours and tints are exact reals. The script keeps its tint as a fraction and subtracts 0.01 each step. The model steps an exact percentage by 1 and compares it with 7.5. Accumulated rounding near the floor, where the float comparison with 0.075 can come out differently, is not modelled.
- Inks and `underlineTint` outside [0,100] are not modelled. The host keeps both in that range, and the `Percent` type says so.
- A `basedOn` link that is valid but names no style in the store ends the walk, like an invalid link. The host cannot produce such a link.
- The number-to-string conversion of the report lines is the parameter `fmt`. The `alert` call is left out: it is I/O.
- The entry point, the open-document check and the `app.doScript` undo wrapper are left out. They are host plumbing.
- Host API failures that abort the run are left out: the host transaction rolls them back.
- The host object API is replaced by a tagged colour (`Process(cmyk)` or `Other`) and a map of style records. This stands in for `isValid`, the live style collection and the `hasOwnProperty("colorValue")` test.
- Colours whose `colorValue` is not four CMYK inks are not modelled. The script's only test is `hasOwnProperty("colorValue")`, so a three-value `colorValue` passes its guard. Every contrast is then NaN, and it writes the 7.5 fallback. The model can only give such a colour as `Other`, which returns null.
- No claim is made that contrast rises as the tint falls. The transfer function is abstract, and the script does not rely on it.

## Findings

| source | as written | input that shows it | evidently intended | confidence | as-written member | corrected member |
|---|---|---|---|---|---|---|
| UnderlineContrastFix.jsx:65-71 | `visited` is `{}`, so `visited[current.name]` is also truthy for property names every object inherits (`constructor`, `toString`, …) | a style "toString" based on "Body": the walk breaks at once and returns "toString" | a walk that starts with nothing visited and reaches "Body" | medium, not executed | Batch.RootOfAsWritten (shown by Batch.InheritedNameStopsResolution) | Styles.RootOf (proved by Styles.RootIsFirstStop) |
| UnderlineContrastFix.jsx:146-161 | `processedRoots` is `{}`, so `processedRoots[rootStyle.name]` is truthy for inherited property names | an underlined root style named "constructor" is never handed to the fix | every candidate root fixed exactly once | medium, not executed | Batch.ProcessStylesAsWritten (shown by Batch.InheritedNameIsNeverFixed) | Batch.ProcessStyles (proved by Batch.ProcessStylesSpec) |
