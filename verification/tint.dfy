/** Tint handling and the downward tint search of
    fixUnderlineContrastInStyle. The tint is an exact percentage: the
    script's fractional tint `t` is the percentage `100 * t`, and its 0.01
    step is one percentage point. */
module Tint {
  import opened Wrappers
  import opened ColorMath

  /** The floor of the search (the script's 0.075 of full scale). */
  const MinTintPercent: real := 7.5

  /** The search step (the script's TINT_STEP of 0.01 of full scale). */
  const TintStepPercent: real := 1.0

  /** Math.round: the nearest integer, halves rounded up. */
  function Round(x: real): (n: int)
    ensures n as real - 0.5 <= x < n as real + 0.5
  {
    (x + 0.5).Floor
  }

  predicate IsWhole(x: real) {
    x.Floor as real == x
  }

  /** `n` is what Math.round gives for `x`. */
  predicate RoundsTo(x: real, n: real) {
    IsWhole(n) && n - 0.5 <= x < n + 0.5
  }

  lemma RoundWhole(x: real)
    requires IsWhole(x)
    ensures Round(x) as real == x
  {
    var m := x.Floor;
    var n := Round(x);
    assert n as real - 0.5 <= m as real < n as real + 0.5;
    assert n - 1 < m < n + 1;
  }

  /** Rounding an ink percentage keeps it an ink percentage. */
  function RoundInk(x: real): (r: Percent)
    requires 0.0 <= x <= 100.0
    ensures RoundsTo(x, r)
  {
    Round(x) as real
  }

  /** One ink scaled by `t` and rounded. */
  function ScaleInk(ink: Percent, t: real): (r: Percent)
    requires 0.0 <= t <= 1.0
    ensures RoundsTo(ink * t, r)
  {
    ProductMonotone(ink, 1.0, ink, t);
    assert ink * 1.0 == ink;
    ProductNonNegative(ink, t);
    RoundInk(ink * t)
  }

  /** applyTint: every ink scaled by `t` and rounded. */
  function ApplyTint(x: Cmyk, t: real): (r: Cmyk)
    requires 0.0 <= t <= 1.0
    ensures RoundsTo(x.c * t, r.c) && RoundsTo(x.m * t, r.m)
    ensures RoundsTo(x.y * t, r.y) && RoundsTo(x.k * t, r.k)
  {
    Cmyk(ScaleInk(x.c, t), ScaleInk(x.m, t), ScaleInk(x.y, t), ScaleInk(x.k, t))
  }

  predicate IsWholeCmyk(x: Cmyk) {
    IsWhole(x.c) && IsWhole(x.m) && IsWhole(x.y) && IsWhole(x.k)
  }

  /** A full tint leaves whole ink percentages as they are. */
  lemma FullTintIsIdentity(x: Cmyk)
    requires IsWholeCmyk(x)
    ensures ApplyTint(x, 1.0) == x
  {
    RoundWhole(x.c);
    RoundWhole(x.m);
    RoundWhole(x.y);
    RoundWhole(x.k);
  }

  /** The underline colour as printed at tint percentage `p`. */
  function Tinted(base: Cmyk, p: real): Cmyk
    requires 0.0 <= p <= 100.0
  {
    ApplyTint(base, p / 100.0)
  }

  /** The percentage tried at step `j` of a search starting at `initial`. */
  function Candidate(initial: real, j: nat): real {
    initial - j as real * TintStepPercent
  }

  /** Step `j` is tried (the loop guard holds) and its tint passes. */
  predicate PassesAt(base: Cmyk, initial: Percent, j: nat, passes: Cmyk -> bool) {
    MinTintPercent <= Candidate(initial, j) && passes(Tinted(base, Candidate(initial, j)))
  }

  /** Step `k` is the first tried step whose tint passes. */
  ghost predicate IsFirstPass(base: Cmyk, initial: Percent, k: nat, passes: Cmyk -> bool) {
    && PassesAt(base, initial, k, passes)
    && forall j: nat :: j < k ==> !PassesAt(base, initial, j, passes)
  }

  /** No tried step passes. */
  ghost predicate NonePasses(base: Cmyk, initial: Percent, passes: Cmyk -> bool) {
    forall j: nat :: !PassesAt(base, initial, j, passes)
  }

  /** The loop of fixUnderlineContrastInStyle from step `j` on: the index of
      the first step at or after `j` that passes, or None once the tint has
      dropped below the floor. */
  function SearchFrom(base: Cmyk, initial: Percent, j: nat, passes: Cmyk -> bool): (k: Option<nat>)
    ensures k.Some? ==> j <= k.value && PassesAt(base, initial, k.value, passes)
    ensures k.Some? ==> forall i: nat :: j <= i < k.value ==> !PassesAt(base, initial, i, passes)
    ensures k.None? ==> forall i: nat :: j <= i ==> !PassesAt(base, initial, i, passes)
    decreases initial.Floor - j
  {
    if Candidate(initial, j) < MinTintPercent then None
    else if passes(Tinted(base, Candidate(initial, j))) then Some(j)
    else SearchFrom(base, initial, j + 1, passes)
  }

  /** The tint search: the first passing step, or None when every step
      from `initial` down to the floor fails. */
  function FirstPassingStep(base: Cmyk, initial: Percent, passes: Cmyk -> bool): (k: Option<nat>)
    ensures k.Some? ==> IsFirstPass(base, initial, k.value, passes)
    ensures k.None? <==> NonePasses(base, initial, passes)
  {
    SearchFrom(base, initial, 0, passes)
  }

  /** The search tries at most 93 tints: from step 93 on the loop guard
      fails whatever the starting tint, and a passing step is at most 92. */
  lemma SearchIsBounded(base: Cmyk, initial: Percent, passes: Cmyk -> bool)
    ensures forall j: nat :: j >= 93 ==> Candidate(initial, j) < MinTintPercent
    ensures FirstPassingStep(base, initial, passes).Some? ==> FirstPassingStep(base, initial, passes).value <= 92
  {
  }

  /** The script's result object. */
  datatype TintChange = TintChange(initialTint: Percent, newTint: Percent, adjusted: bool)

  /** The search and its outcome: the first passing percentage rounded to
      a whole percent, else the floor 7.5; `adjusted` by plain inequality
      with the initial tint, on both paths. */
  function FindTint(base: Cmyk, initial: Percent, passes: Cmyk -> bool): (r: TintChange)
    ensures r.initialTint == initial
    ensures r.adjusted <==> r.newTint != initial
    ensures r.newTint == MinTintPercent <==> NonePasses(base, initial, passes)
    ensures r.newTint != MinTintPercent ==>
      exists k: nat :: IsFirstPass(base, initial, k, passes) && RoundsTo(Candidate(initial, k), r.newTint)
  {
    var newTint: Percent :=
      match FirstPassingStep(base, initial, passes)
      case Some(k) => RoundInk(Candidate(initial, k))
      case None => MinTintPercent;
    TintChange(initial, newTint, newTint != initial)
  }

  /** Below the floor the loop body never runs: the result is the floor. */
  lemma BelowFloorFallsBack(base: Cmyk, initial: Percent, passes: Cmyk -> bool)
    requires initial < MinTintPercent
    ensures FindTint(base, initial, passes).newTint == MinTintPercent
    ensures FindTint(base, initial, passes).adjusted
  {
  }

  /** Starting exactly at the floor with no passing tint reports no
      adjustment, although the threshold was not reached. */
  lemma FallbackAtFloorIsNotAdjusted(base: Cmyk, passes: Cmyk -> bool)
    requires !passes(Tinted(base, MinTintPercent))
    ensures FindTint(base, MinTintPercent, passes).newTint == MinTintPercent
    ensures !FindTint(base, MinTintPercent, passes).adjusted
  {
  }

  /** When the initial tint passes, a whole initial tint is kept and not
      reported. */
  lemma PassingInitialIsKept(base: Cmyk, initial: Percent, passes: Cmyk -> bool)
    requires MinTintPercent <= initial && IsWhole(initial)
    requires passes(Tinted(base, initial))
    ensures FindTint(base, initial, passes).newTint == initial
    ensures !FindTint(base, initial, passes).adjusted
  {
    assert PassesAt(base, initial, 0, passes);
    RoundWhole(initial);
  }
}
