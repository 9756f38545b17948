/** The style loop of processDocument: enumerate the styles, skip the
    bracketed and non-underlined ones, resolve each remaining style to its
    root, fix every root at most once, and collect the adjustments; then
    the report text. */
module Batch {
  import opened Wrappers
  import opened ColorMath
  import opened Tint
  import opened Styles
  import opened ContrastFix

  /** One reported change. */
  datatype Adjustment = Adjustment(styleName: string, initialTint: Percent, newTint: Percent)

  /** The state of the loop: the (partly updated) styles, the roots handed
      to the fix so far in the order they were first reached (the
      `processedRoots` set, kept in insertion order), and the adjustments. */
  datatype Run = Run(store: Store, roots: seq<string>, adjustments: seq<Adjustment>)

  /** Host-internal styles such as "[None]" and "[No Paragraph Style]". */
  predicate IsReservedName(name: string) {
    |name| > 0 && name[0] == '['
  }

  /** A style the loop resolves: not bracketed, and underlined itself. */
  predicate IsCandidate(store: Store, name: string)
    requires name in store
  {
    !IsReservedName(name) && store[name].underline
  }

  predicate AllIn(names: seq<string>, store: Store) {
    forall i | 0 <= i < |names| :: names[i] in store
  }

  predicate NoDuplicates(s: seq<string>) {
    forall i, j | 0 <= i < j < |s| :: s[i] != s[j]
  }

  /** The names a script-level `{}` already answers as present in
      ExtendScript: the properties of Object.prototype (the ES3 ones plus
      ExtendScript's toSource, watch, unwatch and reflect) and __proto__. */
  const InheritedKeys: set<string> :=
    {"constructor", "toString", "toLocaleString", "valueOf", "hasOwnProperty",
     "isPrototypeOf", "propertyIsEnumerable",
     "toSource", "watch", "unwatch", "reflect", "__proto__"}

  /** Hands `root` to the fix and records it: the store takes the fixed
      style, and an adjusted result adds an adjustment. */
  function FixRoot(run: Run, root: string, cfg: Config): (r: Run)
    requires root in run.store
    ensures r.store.Keys == run.store.Keys
  {
    var roots := run.roots + [root];
    match FixStyle(run.store[root], cfg)
    case None => run.(roots := roots)
    case Some(fx) =>
      var adjustments :=
        if fx.change.adjusted
        then run.adjustments + [Adjustment(root, fx.change.initialTint, fx.change.newTint)]
        else run.adjustments;
      Run(run.store[root := fx.style], roots, adjustments)
  }

  /** One iteration of the loop. `inherited` is the set of names the
      `visited` and `processedRoots` objects answer as present before
      anything is stored in them: empty for a true set. */
  function Visit(run: Run, name: string, cfg: Config, inherited: set<string>): (r: Run)
    requires name in run.store
    ensures r.store.Keys == run.store.Keys
  {
    if !IsCandidate(run.store, name) then run
    else
      var root := Walk(run.store, name, inherited);
      if root in run.roots || root in inherited then run
      else FixRoot(run, root, cfg)
  }

  /** The loop over the enumerated style names, in order. */
  function VisitAll(run: Run, names: seq<string>, cfg: Config, inherited: set<string>): (r: Run)
    requires AllIn(names, run.store)
    ensures r.store.Keys == run.store.Keys
    decreases |names|
  {
    if names == [] then run
    else VisitAll(Visit(run, names[0], cfg, inherited), names[1..], cfg, inherited)
  }

  /** The style loop of processDocument with true sets. */
  function ProcessStyles(store: Store, order: seq<string>, cfg: Config): (r: Run)
    requires AllIn(order, store)
    ensures r.store.Keys == store.Keys
    ensures r.roots == Dedup([], CandidateRoots(store, order))
    ensures NoDuplicates(r.roots)
  {
    FixedStoreKeepsLinks(store, [], cfg);
    assert Run(store, [], []).store == FixedStore(store, [], cfg);
    VisitAllMatchesReference(store, Run(store, [], []), order, cfg);
    VisitAll(Run(store, [], []), order, cfg, {})
  }

  // ---------- reference definitions ----------

  /** The roots of the candidate styles, in enumeration order, repeats kept. */
  function CandidateRoots(store: Store, names: seq<string>): (rs: seq<string>)
    requires AllIn(names, store)
    ensures forall i | 0 <= i < |rs| :: rs[i] in store
  {
    if names == [] then []
    else
      (if IsCandidate(store, names[0]) then [RootOf(store, names[0])] else [])
        + CandidateRoots(store, names[1..])
  }

  /** `seen` followed by the elements of `s` not met before, each at its
      first occurrence. */
  function Dedup(seen: seq<string>, s: seq<string>): seq<string>
    decreases |s|
  {
    if s == [] then seen
    else Dedup(if s[0] in seen then seen else seen + [s[0]], s[1..])
  }

  /** The store after fixing each of `roots` once, from its original state. */
  function FixedStore(store0: Store, roots: seq<string>, cfg: Config): Store {
    map k | k in store0 ::
      if k in roots && FixStyle(store0[k], cfg).Some? then FixStyle(store0[k], cfg).value.style
      else store0[k]
  }

  /** The adjustment fixing `root` from its original state reports, if any. */
  function AdjustmentOf(store0: Store, root: string, cfg: Config): seq<Adjustment>
    requires root in store0
  {
    match FixStyle(store0[root], cfg)
    case Some(fx) =>
      if fx.change.adjusted then [Adjustment(root, fx.change.initialTint, fx.change.newTint)] else []
    case None => []
  }

  /** The adjustments of `roots`, in the order of `roots`. */
  function AdjustmentsFor(store0: Store, roots: seq<string>, cfg: Config): seq<Adjustment>
    requires forall i | 0 <= i < |roots| :: roots[i] in store0
  {
    if roots == [] then []
    else AdjustmentsFor(store0, roots[..|roots| - 1], cfg) + AdjustmentOf(store0, roots[|roots| - 1], cfg)
  }

  // ---------- the loop against the reference ----------

  /** The loop state after some prefix of the enumeration: the roots are
      distinct styles, each fixed once from its original state, and the
      adjustments are theirs. */
  ghost predicate Inv(store0: Store, run: Run, cfg: Config) {
    && (forall i | 0 <= i < |run.roots| :: run.roots[i] in store0)
    && NoDuplicates(run.roots)
    && run.store == FixedStore(store0, run.roots, cfg)
    && run.adjustments == AdjustmentsFor(store0, run.roots, cfg)
  }

  /** Fixing only changes tints: the links and underline flags the loop
      reads are those of the original store. */
  lemma FixedStoreKeepsLinks(store0: Store, roots: seq<string>, cfg: Config)
    ensures FixedStore(store0, roots, cfg).Keys == store0.Keys
    ensures forall k :: k in store0 ==>
      FixedStore(store0, roots, cfg)[k] == store0[k].(underlineTint := FixedStore(store0, roots, cfg)[k].underlineTint)
  {
  }

  /** Recording one more root extends the reference adjustments by that
      root's own. */
  lemma AdjustmentsForSnoc(store0: Store, roots: seq<string>, root: string, cfg: Config)
    requires forall i | 0 <= i < |roots| :: roots[i] in store0
    requires root in store0
    ensures AdjustmentsFor(store0, roots + [root], cfg) ==
            AdjustmentsFor(store0, roots, cfg) + AdjustmentOf(store0, root, cfg)
  {
    assert (roots + [root])[..|roots|] == roots;
  }

  /** Writing the fixed style of a fresh root into the fixed store gives
      the fixed store of the longer root list. */
  lemma FixedStoreSnoc(store0: Store, roots: seq<string>, root: string, cfg: Config)
    requires root in store0 && root !in roots
    ensures FixStyle(store0[root], cfg).Some? ==>
      FixedStore(store0, roots, cfg)[root := FixStyle(store0[root], cfg).value.style]
        == FixedStore(store0, roots + [root], cfg)
    ensures FixStyle(store0[root], cfg).None? ==>
      FixedStore(store0, roots, cfg) == FixedStore(store0, roots + [root], cfg)
  {
    var before := FixedStore(store0, roots, cfg);
    var after := FixedStore(store0, roots + [root], cfg);
    assert forall k | k in store0 && k != root :: (k in roots + [root]) == (k in roots);
    assert forall k | k in store0 && k != root :: before[k] == after[k];
  }

  /** Fixing a root not handed to the fix before keeps the invariant. */
  lemma FixRootKeepsInv(store0: Store, run: Run, root: string, cfg: Config)
    requires Inv(store0, run, cfg) && root in store0 && root !in run.roots
    ensures root in run.store
    ensures FixRoot(run, root, cfg).roots == run.roots + [root]
    ensures Inv(store0, FixRoot(run, root, cfg), cfg)
  {
    assert run.store[root] == store0[root];
    AdjustmentsForSnoc(store0, run.roots, root, cfg);
    FixedStoreSnoc(store0, run.roots, root, cfg);
  }

  lemma VisitKeepsInv(store0: Store, run: Run, name: string, cfg: Config)
    requires Inv(store0, run, cfg) && name in store0
    ensures name in run.store
    ensures Inv(store0, Visit(run, name, cfg, {}), cfg)
    ensures Visit(run, name, cfg, {}).roots ==
      (if IsCandidate(store0, name) && RootOf(store0, name) !in run.roots
       then run.roots + [RootOf(store0, name)] else run.roots)
  {
    FixedStoreKeepsLinks(store0, run.roots, cfg);
    if IsCandidate(store0, name) {
      WalkDependsOnlyOnLinks(run.store, store0, name, {});
      if RootOf(store0, name) !in run.roots {
        FixRootKeepsInv(store0, run, RootOf(store0, name), cfg);
      }
    }
  }

  lemma {:induction false} VisitAllMatchesReference(store0: Store, run: Run, names: seq<string>, cfg: Config)
    requires Inv(store0, run, cfg) && AllIn(names, store0)
    ensures AllIn(names, run.store)
    ensures Inv(store0, VisitAll(run, names, cfg, {}), cfg)
    ensures VisitAll(run, names, cfg, {}).roots == Dedup(run.roots, CandidateRoots(store0, names))
    decreases |names|
  {
    FixedStoreKeepsLinks(store0, run.roots, cfg);
    if names != [] {
      VisitKeepsInv(store0, run, names[0], cfg);
      var next := Visit(run, names[0], cfg, {});
      assert AllIn(names[1..], store0);
      VisitAllMatchesReference(store0, next, names[1..], cfg);
      var cands := CandidateRoots(store0, names);
      if IsCandidate(store0, names[0]) {
        assert cands[0] == RootOf(store0, names[0]);
        assert cands[1..] == CandidateRoots(store0, names[1..]);
      } else {
        assert cands == CandidateRoots(store0, names[1..]);
      }
    }
  }

  /** The style loop, characterised: the roots handed to the fix are the
      candidates' roots without repeats, in the order they were first
      reached; the resulting store is the original with each root fixed
      once from its original state; and the adjustments are those of the
      roots, in the same order. */
  lemma ProcessStylesSpec(store: Store, order: seq<string>, cfg: Config)
    requires AllIn(order, store)
    ensures ProcessStyles(store, order, cfg).roots == Dedup([], CandidateRoots(store, order))
    ensures NoDuplicates(ProcessStyles(store, order, cfg).roots)
    ensures forall i | 0 <= i < |ProcessStyles(store, order, cfg).roots| :: ProcessStyles(store, order, cfg).roots[i] in store
    ensures ProcessStyles(store, order, cfg).store == FixedStore(store, ProcessStyles(store, order, cfg).roots, cfg)
    ensures ProcessStyles(store, order, cfg).adjustments == AdjustmentsFor(store, ProcessStyles(store, order, cfg).roots, cfg)
  {
    FixedStoreKeepsLinks(store, [], cfg);
    assert Run(store, [], []).store == FixedStore(store, [], cfg);
    VisitAllMatchesReference(store, Run(store, [], []), order, cfg);
  }

  // ---------- consequences ----------

  lemma {:induction false} DedupMembers(seen: seq<string>, s: seq<string>, x: string)
    ensures x in Dedup(seen, s) <==> x in seen || x in s
    decreases |s|
  {
    if s != [] {
      DedupMembers(if s[0] in seen then seen else seen + [s[0]], s[1..], x);
      assert x in s <==> x == s[0] || x in s[1..];
    }
  }

  lemma {:induction false} CandidateRootsMembers(store: Store, names: seq<string>, x: string)
    requires AllIn(names, store)
    ensures x in CandidateRoots(store, names) <==>
      exists i :: 0 <= i < |names| && IsCandidate(store, names[i]) && RootOf(store, names[i]) == x
    decreases |names|
  {
    if names != [] {
      assert AllIn(names[1..], store);
      CandidateRootsMembers(store, names[1..], x);
      if exists i :: 0 <= i < |names| && IsCandidate(store, names[i]) && RootOf(store, names[i]) == x {
        var i :| 0 <= i < |names| && IsCandidate(store, names[i]) && RootOf(store, names[i]) == x;
        if i > 0 {
          assert names[1..][i - 1] == names[i];
        }
      }
      if exists i :: 0 <= i < |names[1..]| && IsCandidate(store, names[1..][i]) && RootOf(store, names[1..][i]) == x {
        var i :| 0 <= i < |names[1..]| && IsCandidate(store, names[1..][i]) && RootOf(store, names[1..][i]) == x;
        assert names[i + 1] == names[1..][i];
      }
    }
  }

  /** A style is handed to the fix exactly when it is the root of some
      enumerated, non-bracketed, underlined style; bracketed and
      non-underlined styles are never resolved. */
  lemma FixedRootsAreCandidateRoots(store: Store, order: seq<string>, cfg: Config, x: string)
    requires AllIn(order, store)
    ensures x in ProcessStyles(store, order, cfg).roots <==>
      exists i :: 0 <= i < |order| && IsCandidate(store, order[i]) && RootOf(store, order[i]) == x
  {
    ProcessStylesSpec(store, order, cfg);
    DedupMembers([], CandidateRoots(store, order), x);
    CandidateRootsMembers(store, order, x);
  }

  /** Nothing but `underlineTint` changes, and only on roots handed to the
      fix. */
  lemma OnlyRootTintsChange(store: Store, order: seq<string>, cfg: Config)
    requires AllIn(order, store)
    ensures forall k | k in store ::
      && ProcessStyles(store, order, cfg).store[k].(underlineTint := store[k].underlineTint) == store[k]
      && (k !in ProcessStyles(store, order, cfg).roots ==> ProcessStyles(store, order, cfg).store[k] == store[k])
  {
    ProcessStylesSpec(store, order, cfg);
  }

  lemma {:induction false} AdjustmentsForAreChanges(store0: Store, roots: seq<string>, cfg: Config)
    requires forall i | 0 <= i < |roots| :: roots[i] in store0
    ensures forall a | a in AdjustmentsFor(store0, roots, cfg) :: a.initialTint != a.newTint && a.styleName in roots
    decreases |roots|
  {
    if roots != [] {
      var init := roots[..|roots| - 1];
      AdjustmentsForAreChanges(store0, init, cfg);
      assert forall x | x in init :: x in roots;
    }
  }

  /** Every reported adjustment names a fixed root and a real change of
      tint. */
  lemma AdjustmentsAreChanges(store: Store, order: seq<string>, cfg: Config)
    requires AllIn(order, store)
    ensures forall a | a in ProcessStyles(store, order, cfg).adjustments ::
      a.initialTint != a.newTint && a.styleName in ProcessStyles(store, order, cfg).roots
  {
    ProcessStylesSpec(store, order, cfg);
    AdjustmentsForAreChanges(store, ProcessStyles(store, order, cfg).roots, cfg);
  }

  lemma SharedRootCandidates(store: Store, a: string, b: string, c: string)
    requires a in store && b in store && c in store
    requires IsCandidate(store, a) && IsCandidate(store, b) && IsCandidate(store, c)
    requires Parent(store, a).None? && Parent(store, b) == Some(a) && Parent(store, c) == Some(a)
    ensures CandidateRoots(store, [a, b, c]) == [a, a, a]
  {
    assert Walk(store, b, {}) == Walk(store, a, {b});
    assert Walk(store, c, {}) == Walk(store, a, {c});
    assert [c][1..] == [];
    assert CandidateRoots(store, [c]) == [a];
    assert [b, c][1..] == [c];
    assert CandidateRoots(store, [b, c]) == [a, a];
    assert [a, b, c][1..] == [b, c];
  }

  lemma DedupSameTwice(a: string)
    ensures Dedup([], [a, a, a]) == [a]
  {
    assert [a, a, a][1..] == [a, a] && [a, a][1..] == [a] && [a][1..] == [];
    assert Dedup([], [a, a, a]) == Dedup([a], [a, a]) by {
      assert [] + [a] == [a];
    }
    assert Dedup([a], [a, a]) == Dedup([a], [a]);
    assert Dedup([a], [a]) == Dedup([a], []);
  }

  /** Two styles based on a common root, enumerated after it, lead to one
      fix of the root and at most one adjustment, for the root. */
  lemma SharedRootFixedOnce(store: Store, a: string, b: string, c: string, cfg: Config)
    requires a in store && b in store && c in store
    requires IsCandidate(store, a) && IsCandidate(store, b) && IsCandidate(store, c)
    requires Parent(store, a).None? && Parent(store, b) == Some(a) && Parent(store, c) == Some(a)
    ensures ProcessStyles(store, [a, b, c], cfg).roots == [a]
    ensures ProcessStyles(store, [a, b, c], cfg).adjustments == AdjustmentOf(store, a, cfg)
  {
    var r := ProcessStyles(store, [a, b, c], cfg);
    ProcessStylesSpec(store, [a, b, c], cfg);
    SharedRootCandidates(store, a, b, c);
    DedupSameTwice(a);
    assert r.roots == [a];
    assert [a][..0] == [];
    assert AdjustmentsFor(store, [a], cfg) == AdjustmentOf(store, a, cfg);
  }

  // ---------- report ----------

  const Header: string := "Underline Contrast Fix Complete\n\n"
  const NoAdjustmentsText: string :=
    "No contrast adjustments were needed.\n"
    + "All underlined paragraph styles already meet the contrast threshold."
  const ErrorsHeading: string := "Contrast Errors\n"

  /** One report line; `fmt` is the script's number-to-string conversion. */
  function ReportLine(a: Adjustment, fmt: real -> string): string {
    "Paragraph Style Name: " + a.styleName + " Adjustment: "
      + fmt(a.initialTint) + "% -> " + fmt(a.newTint) + "%\n"
  }

  function ReportLines(adjs: seq<Adjustment>, fmt: real -> string): string {
    if adjs == [] then "" else ReportLine(adjs[0], fmt) + ReportLines(adjs[1..], fmt)
  }

  /** The message handed to the alert. */
  function Report(adjs: seq<Adjustment>, fmt: real -> string): (msg: string)
    ensures |Header| < |msg|
    ensures msg[..|Header|] == Header
  {
    if |adjs| == 0 then Header + NoAdjustmentsText
    else Header + ErrorsHeading + ReportLines(adjs, fmt)
  }

  /** The report is the "no adjustments" message exactly when there is no
      adjustment; otherwise it lists one line per adjustment. */
  lemma ReportSaysNoneIffEmpty(adjs: seq<Adjustment>, fmt: real -> string)
    ensures Report(adjs, fmt) == Header + NoAdjustmentsText <==> adjs == []
    ensures adjs != [] ==> Report(adjs, fmt) == Header + ErrorsHeading + ReportLines(adjs, fmt)
  {
    if adjs != [] {
      var msg := Report(adjs, fmt);
      assert ErrorsHeading[0] == 'C' && NoAdjustmentsText[0] == 'N';
      assert msg[|Header|] == 'C';
      assert (Header + NoAdjustmentsText)[|Header|] == 'N';
    }
  }

  // ---------- the script's objects used as sets ----------

  /** getRootParagraphStyle as written: `visited` is a plain object, so an
      inherited property name reads as already visited. */
  function RootOfAsWritten(store: Store, start: string): (r: string)
    requires start in store
    ensures r in store
    ensures start in InheritedKeys ==> r == start
  {
    Walk(store, start, InheritedKeys)
  }

  /** The style loop as written: both `visited` and `processedRoots` are
      plain objects. */
  function ProcessStylesAsWritten(store: Store, order: seq<string>, cfg: Config): (r: Run)
    requires AllIn(order, store)
    ensures r.store.Keys == store.Keys
    ensures forall i | 0 <= i < |r.roots| :: r.roots[i] !in InheritedKeys
  {
    VisitAllAsWrittenAvoidsInherited(Run(store, [], []), order, cfg);
    VisitAll(Run(store, [], []), order, cfg, InheritedKeys)
  }

  lemma {:induction false} VisitAllAsWrittenAvoidsInherited(run: Run, names: seq<string>, cfg: Config)
    requires AllIn(names, run.store)
    requires forall i | 0 <= i < |run.roots| :: run.roots[i] !in InheritedKeys
    ensures forall i | 0 <= i < |VisitAll(run, names, cfg, InheritedKeys).roots| ::
      VisitAll(run, names, cfg, InheritedKeys).roots[i] !in InheritedKeys
    decreases |names|
  {
    if names != [] {
      var next := Visit(run, names[0], cfg, InheritedKeys);
      assert AllIn(names[1..], next.store);
      VisitAllAsWrittenAvoidsInherited(next, names[1..], cfg);
    }
  }

  /** A style named "toString" based on "Body" resolves to itself as
      written, although its root is "Body". */
  lemma InheritedNameStopsResolution(cfg: Config)
    ensures var store := map[
      "toString" := Style(true, None, None, None, Some(ParentRef("Body", true))),
      "Body" := Style(true, None, None, None, None)];
      RootOfAsWritten(store, "toString") == "toString" && RootOf(store, "toString") == "Body"
  {
    var store := map[
      "toString" := Style(true, None, None, None, Some(ParentRef("Body", true))),
      "Body" := Style(true, None, None, None, None)];
    assert Parent(store, "toString") == Some("Body");
    assert Walk(store, "toString", {}) == Walk(store, "Body", {"toString"});
  }

  /** An underlined root style named "constructor" is never handed to the
      fix as written; with a true set it is. */
  lemma InheritedNameIsNeverFixed(cfg: Config)
    ensures var store := map["constructor" := Style(true, None, None, None, None)];
      && ProcessStylesAsWritten(store, ["constructor"], cfg).roots == []
      && ProcessStyles(store, ["constructor"], cfg).roots == ["constructor"]
  {
    var store := map["constructor" := Style(true, None, None, None, None)];
    FixedRootsAreCandidateRoots(store, ["constructor"], cfg, "constructor");
    assert IsCandidate(store, ["constructor"][0]);
    ProcessStylesSpec(store, ["constructor"], cfg);
  }
}
