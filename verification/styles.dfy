/** Paragraph styles as the script reads them, the style store, and
    getRootParagraphStyle: the walk along `basedOn` links with a per-walk
    visited set keyed by style name. */
module Styles {
  import opened Wrappers
  import opened ColorMath

  /** A colour that exposes a CMYK `colorValue`, or any other colour
      (spot, mixed ink, named swatch). */
  datatype Color = Process(value: Cmyk) | Other

  /** The `basedOn` reference: the parent's name and whether the host
      still considers it valid. */
  datatype ParentRef = ParentRef(name: string, isValid: bool)

  /** The properties of a paragraph style the script reads or writes.
      `underlineTint` is None when the property is not a number (or NaN). */
  datatype Style = Style(
    underline: bool,
    fillColor: Option<Color>,
    underlineColor: Option<Color>,
    underlineTint: Option<Percent>,
    basedOn: Option<ParentRef>)

  /** The document's paragraph styles, keyed by their unique names. */
  type Store = map<string, Style>

  /** The host's sentinel root style. */
  const NoParagraphStyle := "[No Paragraph Style]"

  /** The parent the walk steps to: `basedOn` is present, valid, not the
      sentinel, and names a style of the store. */
  function Parent(store: Store, name: string): (p: Option<string>)
    requires name in store
    ensures p.Some? ==> p.value in store && p.value != NoParagraphStyle
  {
    match store[name].basedOn
    case None => None
    case Some(ref) =>
      if ref.isValid && ref.name != NoParagraphStyle && ref.name in store then Some(ref.name) else None
  }

  /** The loop of getRootParagraphStyle from `current`, with `visited` the
      names already stepped from. It stops at a style with no qualifying
      parent, or at a style whose own name was already visited. */
  function Walk(store: Store, current: string, visited: set<string>): (r: string)
    requires current in store
    ensures r in store
    ensures Parent(store, current).None? ==> r == current
    ensures current in visited ==> r == current
    decreases store.Keys - visited
  {
    match Parent(store, current)
    case None => current
    case Some(p) =>
      if current in visited then current
      else Walk(store, p, visited + {current})
  }

  /** getRootParagraphStyle: the walk from `start` with nothing visited. */
  function RootOf(store: Store, start: string): (r: string)
    requires start in store
    ensures r in store
    ensures Parent(store, start).None? ==> r == start
  {
    Walk(store, start, {})
  }

  /** The `n`-th qualifying ancestor of `start`, if the chain is that long. */
  function Ancestor(store: Store, start: string, n: nat): (a: Option<string>)
    requires start in store
    ensures a.Some? ==> a.value in store
  {
    if n == 0 then Some(start)
    else match Ancestor(store, start, n - 1)
      case None => None
      case Some(prev) => Parent(store, prev)
  }

  /** The walk stops at step `n`: the `n`-th ancestor exists and either has
      no qualifying parent or already appeared earlier in the chain. */
  ghost predicate StopsAt(store: Store, start: string, n: nat)
    requires start in store
  {
    && Ancestor(store, start, n).Some?
    && (|| Parent(store, Ancestor(store, start, n).value).None?
        || exists i: nat :: i < n && Ancestor(store, start, i) == Ancestor(store, start, n))
  }

  /** Step `n` is the first step at which the walk stops. */
  ghost predicate FirstStop(store: Store, start: string, n: nat)
    requires start in store
  {
    StopsAt(store, start, n) && forall i: nat :: i < n ==> !StopsAt(store, start, i)
  }

  /** The names of the first `n` ancestors. */
  ghost function ChainPrefix(store: Store, start: string, n: nat): set<string>
    requires start in store
  {
    if n == 0 then {}
    else match Ancestor(store, start, n - 1)
      case None => ChainPrefix(store, start, n - 1)
      case Some(a) => ChainPrefix(store, start, n - 1) + {a}
  }

  /** A name is in the prefix exactly when it is one of the first `n`
      ancestors. */
  lemma {:induction false} PrefixMembers(store: Store, start: string, n: nat, a: string)
    requires start in store
    ensures a in ChainPrefix(store, start, n) <==> exists i: nat :: i < n && Ancestor(store, start, i) == Some(a)
  {
    if n > 0 {
      PrefixMembers(store, start, n - 1, a);
      if Ancestor(store, start, n - 1) == Some(a) {
        assert a in ChainPrefix(store, start, n);
        assert exists i: nat :: i < n && Ancestor(store, start, i) == Some(a) by {
          assert n - 1 < n && Ancestor(store, start, n - 1) == Some(a);
        }
      } else {
        assert a in ChainPrefix(store, start, n) <==> a in ChainPrefix(store, start, n - 1);
        if exists i: nat :: i < n && Ancestor(store, start, i) == Some(a) {
          var i: nat :| i < n && Ancestor(store, start, i) == Some(a);
          assert i < n - 1;
        }
      }
    }
  }

  /** Before the first stop every ancestor exists. */
  lemma {:induction false} ChainContinues(store: Store, start: string, j: nat)
    requires start in store
    requires forall i: nat :: i < j ==> !StopsAt(store, start, i)
    ensures Ancestor(store, start, j).Some?
  {
    if j > 0 {
      ChainContinues(store, start, j - 1);
      assert !StopsAt(store, start, j - 1);
    }
  }

  /** Before the first stop the ancestors are distinct, so the prefix of
      length `j` has `j` names, all of the store. */
  lemma {:induction false} PrefixBeforeStop(store: Store, start: string, j: nat)
    requires start in store
    requires forall i: nat :: i < j ==> !StopsAt(store, start, i)
    ensures |ChainPrefix(store, start, j)| == j
    ensures ChainPrefix(store, start, j) <= store.Keys
  {
    if j > 0 {
      PrefixBeforeStop(store, start, j - 1);
      ChainContinues(store, start, j - 1);
      var a := Ancestor(store, start, j - 1).value;
      PrefixMembers(store, start, j - 1, a);
      assert !StopsAt(store, start, j - 1);
      assert a !in ChainPrefix(store, start, j - 1);
    }
  }

  /** Pigeonhole: the chain cannot run longer than the store without
      stopping. */
  lemma StopWithinStore(store: Store, start: string, j: nat)
    requires start in store
    requires forall i: nat :: i < j ==> !StopsAt(store, start, i)
    ensures j <= |store|
  {
    PrefixBeforeStop(store, start, j);
    SubsetCardinality(ChainPrefix(store, start, j), store.Keys);
    assert |store.Keys| == |store|;
  }

  lemma SubsetCardinality<T>(a: set<T>, b: set<T>)
    requires a <= b
    ensures |a| <= |b|
  {
    assert b == a + (b - a);
  }

  /** Searching upward from `j` finds the first stop, at most |store| steps in. */
  lemma {:induction false} FindFirstStop(store: Store, start: string, j: nat) returns (n: nat)
    requires start in store
    requires forall i: nat :: i < j ==> !StopsAt(store, start, i)
    ensures j <= n <= |store| && FirstStop(store, start, n)
    decreases |store| - j
  {
    StopWithinStore(store, start, j);
    if StopsAt(store, start, j) {
      n := j;
    } else {
      StopWithinStore(store, start, j + 1);
      n := FindFirstStop(store, start, j + 1);
    }
  }

  /** From the `j`-th ancestor, with the earlier ancestors visited, the walk
      ends at the first stop. */
  lemma {:induction false} WalkReachesFirstStop(store: Store, start: string, j: nat, n: nat)
    requires start in store
    requires FirstStop(store, start, n) && j <= n
    ensures Ancestor(store, start, j).Some?
    ensures Walk(store, Ancestor(store, start, j).value, ChainPrefix(store, start, j))
         == Ancestor(store, start, n).value
    decreases n - j
  {
    ChainContinues(store, start, j);
    var a := Ancestor(store, start, j).value;
    PrefixMembers(store, start, j, a);
    if j == n {
      if Parent(store, a).Some? {
        var i: nat :| i < n && Ancestor(store, start, i) == Ancestor(store, start, n);
        assert i < j && Ancestor(store, start, i) == Some(a);
        assert a in ChainPrefix(store, start, j);
      }
    } else {
      assert !StopsAt(store, start, j);
      assert ChainPrefix(store, start, j + 1) == ChainPrefix(store, start, j) + {a};
      WalkReachesFirstStop(store, start, j + 1, n);
    }
  }

  /** The root is the first ancestor that has no qualifying parent or whose
      name was already met on the way, reached within |store| steps: the
      walk always terminates and breaks a cycle at the re-entered style. */
  lemma RootIsFirstStop(store: Store, start: string)
    requires start in store
    ensures exists n: nat :: n <= |store| && FirstStop(store, start, n)
                          && RootOf(store, start) == Ancestor(store, start, n).value
  {
    var n := FindFirstStop(store, start, 0);
    WalkReachesFirstStop(store, start, 0, n);
  }

  /** A simple cycle through `start` (its ancestors distinct until the
      chain comes back to `start`) resolves to `start` itself. */
  lemma CycleResolvesToStart(store: Store, start: string, n: nat)
    requires start in store && n >= 1
    requires Ancestor(store, start, n) == Some(start)
    requires forall i: nat, j: nat :: i < j < n ==> Ancestor(store, start, i) != Ancestor(store, start, j)
    ensures RootOf(store, start) == start
  {
    forall j: nat | j < n
      ensures Ancestor(store, start, j).Some? && Parent(store, Ancestor(store, start, j).value).Some?
    {
      AncestorExtends(store, start, j, n);
      AncestorExtends(store, start, j + 1, n);
    }
    forall j: nat | j < n
      ensures !StopsAt(store, start, j)
    {
      AncestorExtends(store, start, j, n);
      AncestorExtends(store, start, j + 1, n);
    }
    assert Ancestor(store, start, 0) == Ancestor(store, start, n);
    assert FirstStop(store, start, n);
    WalkReachesFirstStop(store, start, 0, n);
  }

  /** A chain of length `n` is also a chain of every shorter length. */
  lemma {:induction false} AncestorExtends(store: Store, start: string, j: nat, n: nat)
    requires start in store && j <= n
    requires Ancestor(store, start, n).Some?
    ensures Ancestor(store, start, j).Some?
    decreases n - j
  {
    if j < n {
      AncestorExtends(store, start, j + 1, n);
    }
  }

  /** A style based on itself resolves to itself. */
  lemma SelfReferenceResolvesToItself(store: Store, a: string)
    requires a in store && Parent(store, a) == Some(a)
    ensures RootOf(store, a) == a
  {
    assert Walk(store, a, {}) == Walk(store, a, {a});
  }

  /** A -> B -> C -> A, entered at A, resolves to A. */
  lemma ThreeCycleResolvesToStart(store: Store, a: string, b: string, c: string)
    requires a in store && b in store && c in store
    requires a != b && b != c && a != c
    requires Parent(store, a) == Some(b) && Parent(store, b) == Some(c) && Parent(store, c) == Some(a)
    ensures RootOf(store, a) == a
  {
    assert {} + {a} == {a} && {a} + {b} == {a, b} && {a, b} + {c} == {a, b, c};
    assert Walk(store, a, {}) == Walk(store, b, {a});
    assert Walk(store, b, {a}) == Walk(store, c, {a, b});
    assert Walk(store, c, {a, b}) == Walk(store, a, {a, b, c});
  }

  /** Resolution reads only the `basedOn` links: two stores with the same
      names and links resolve every style alike. */
  lemma {:induction false} WalkDependsOnlyOnLinks(s1: Store, s2: Store, current: string, visited: set<string>)
    requires s1.Keys == s2.Keys && current in s1
    requires forall k :: k in s1 ==> s1[k].basedOn == s2[k].basedOn
    ensures Walk(s1, current, visited) == Walk(s2, current, visited)
    decreases s1.Keys - visited
  {
    assert Parent(s1, current) == Parent(s2, current);
    match Parent(s1, current)
    case None =>
    case Some(p) =>
      if current !in visited {
        WalkDependsOnlyOnLinks(s1, s2, p, visited + {current});
      }
  }
}
