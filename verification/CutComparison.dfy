/**
 The check that the facet cuts of a deployed upgrade are the expected ones: both lists are
 sorted by facet and compared position by position, selectors as one long hex string.
 */
module CutComparison {
  import opened Diamond
  import Text

  /******* Sorting *******/

  ghost predicate TotalOrder<T(!new)>(le: (T, T) -> bool) {
    && (forall x, y :: le(x, y) || le(y, x))
    && (forall x, y, z :: le(x, y) && le(y, z) ==> le(x, z))
  }

  /** Puts `x` after all elements that are not greater, so that sorting is stable. */
  function Insert<T>(le: (T, T) -> bool, x: T, s: seq<T>): seq<T> {
    if s == [] then [x] else if le(s[0], x) then [s[0]] + Insert(le, x, s[1..]) else [x] + s
  }

  /** `sort`, by a comparison. */
  function Sort<T>(le: (T, T) -> bool, s: seq<T>): seq<T> {
    if s == [] then [] else Insert(le, s[|s| - 1], Sort(le, s[..|s| - 1]))
  }

  ghost predicate Sorted<T>(le: (T, T) -> bool, s: seq<T>) {
    forall i, j :: 0 <= i < j < |s| ==> le(s[i], s[j])
  }

  lemma {:induction false} InsertKeeps<T(!new)>(le: (T, T) -> bool, x: T, s: seq<T>)
    ensures multiset(Insert(le, x, s)) == multiset(s) + multiset{x}
    ensures TotalOrder(le) && Sorted(le, s) ==> Sorted(le, Insert(le, x, s))
  {
    if s != [] {
      assert s == [s[0]] + s[1..];
      InsertKeeps(le, x, s[1..]);
      if TotalOrder(le) && Sorted(le, s) {
        InsertSorted(le, x, s);
      }
    }
  }

  lemma {:induction false} InsertSorted<T(!new)>(le: (T, T) -> bool, x: T, s: seq<T>)
    requires TotalOrder(le) && Sorted(le, s)
    ensures Sorted(le, Insert(le, x, s))
    ensures forall y :: y in Insert(le, x, s) <==> y in s || y == x
  {
    if s != [] {
      var rest := s[1..];
      assert forall i :: 0 <= i < |rest| ==> rest[i] == s[i + 1];
      InsertSorted(le, x, rest);
      if le(s[0], x) {
        var inner := Insert(le, x, rest);
        assert forall y :: y in inner ==> le(s[0], y);
        SortedCons(le, s[0], inner);
      } else {
        assert forall y :: y in s ==> le(x, y);
        SortedCons(le, x, s);
      }
    }
  }

  lemma {:induction false} SortedCons<T>(le: (T, T) -> bool, x: T, s: seq<T>)
    requires Sorted(le, s) && forall y :: y in s ==> le(x, y)
    ensures Sorted(le, [x] + s)
  {
    var longer := [x] + s;
    forall i, j | 0 <= i < j < |longer|
      ensures le(longer[i], longer[j])
    {
      assert longer[j] == s[j - 1];
      assert i > 0 ==> longer[i] == s[i - 1];
    }
  }

  lemma {:induction false} SortSorts<T(!new)>(le: (T, T) -> bool, s: seq<T>)
    ensures multiset(Sort(le, s)) == multiset(s)
    ensures TotalOrder(le) ==> Sorted(le, Sort(le, s))
  {
    if s != [] {
      SortSorts(le, s[..|s| - 1]);
      InsertKeeps(le, s[|s| - 1], Sort(le, s[..|s| - 1]));
      assert s == s[..|s| - 1] + [s[|s| - 1]];
    }
  }

  ghost predicate TellsApart<T(!new)>(le: (T, T) -> bool, m: multiset<T>) {
    forall x, y :: x in m && y in m && le(x, y) && le(y, x) ==> x == y
  }

  lemma {:induction false} TailElements<T>(s: seq<T>)
    requires s != []
    ensures multiset(s[1..]) == multiset(s) - multiset{s[0]} && s[0] in multiset(s)
  {
    assert s == [s[0]] + s[1..];
  }

  lemma {:induction false} SortedTail<T>(le: (T, T) -> bool, s: seq<T>)
    requires Sorted(le, s) && s != []
    ensures Sorted(le, s[1..])
  {
    assert forall i :: 0 <= i < |s| - 1 ==> s[1..][i] == s[i + 1];
  }

  lemma {:induction false} SameLength<T>(a: seq<T>, b: seq<T>)
    requires multiset(a) == multiset(b)
    ensures |a| == |b|
  {
    assert |multiset(a)| == |a| && |multiset(b)| == |b|;
  }

  lemma {:induction false} SameTails<T>(a: seq<T>, b: seq<T>)
    requires a != [] && b != [] && a[0] == b[0] && multiset(a) == multiset(b)
    ensures multiset(a[1..]) == multiset(b[1..]) <= multiset(a)
  {
    TailElements(a);
    TailElements(b);
  }

  lemma {:induction false} SameFirst<T(!new)>(le: (T, T) -> bool, a: seq<T>, b: seq<T>)
    requires TotalOrder(le) && Sorted(le, a) && Sorted(le, b) && multiset(a) == multiset(b) && a != [] && b != []
    requires TellsApart(le, multiset(a))
    ensures a[0] == b[0]
  {
    hide TotalOrder, Sorted;
    assert a[0] in multiset(a) && b[0] in multiset(b);
    FirstIsLeast(le, a, b[0]);
    FirstIsLeast(le, b, a[0]);
  }

  /** Two sorted lists of the same elements are equal if the order tells these elements apart. */
  lemma {:induction false} SortedUnique<T(!new)>(le: (T, T) -> bool, a: seq<T>, b: seq<T>)
    requires TotalOrder(le) && Sorted(le, a) && Sorted(le, b) && multiset(a) == multiset(b)
    requires TellsApart(le, multiset(a))
    ensures a == b
  {
    hide TotalOrder, Sorted, TellsApart;
    SameLength(a, b);
    if a != [] {
      SameFirst(le, a, b);
      SameTails(a, b);
      FewerApart(le, multiset(a), multiset(a[1..]));
      SortedTail(le, a);
      SortedTail(le, b);
      SortedUnique(le, a[1..], b[1..]);
      assert a == [a[0]] + a[1..];
      assert b == [b[0]] + b[1..];
    }
  }

  lemma {:induction false} FewerApart<T(!new)>(le: (T, T) -> bool, m: multiset<T>, n: multiset<T>)
    requires TellsApart(le, m) && n <= m
    ensures TellsApart(le, n)
  {
    assert forall x :: x in n ==> x in m;
  }

  lemma {:induction false} FirstIsLeast<T(!new)>(le: (T, T) -> bool, s: seq<T>, x: T)
    requires TotalOrder(le) && Sorted(le, s) && x in multiset(s)
    ensures s != [] && le(s[0], x)
  {
    assert x in s;
    var i :| 0 <= i < |s| && s[i] == x;
    assert i == 0 ==> le(s[0], s[0]);
  }

  /******* Selectors *******/

  /** Four bytes in hex: "0x" and eight digits. */
  predicate IsSelector(s: string) {
    |s| == 10 && s[..2] == "0x"
  }

  predicate AllSelectors(ss: seq<string>) {
    forall i :: 0 <= i < |ss| ==> IsSelector(ss[i])
  }

  /** The default order of `sort()`. */
  predicate StringLe(a: string, b: string) {
    a == [] || (b != [] && (a[0] < b[0] || (a[0] == b[0] && StringLe(a[1..], b[1..]))))
  }

  function Digits(ss: seq<string>): string
    requires AllSelectors(ss)
  {
    if ss == [] then [] else ss[0][2..] + Digits(ss[1..])
  }

  /** `hexConcat` */
  function HexConcat(ss: seq<string>): string
    requires AllSelectors(ss)
  {
    "0x" + Digits(ss)
  }

  lemma {:induction false} StringLeTotal(a: string, b: string)
    ensures StringLe(a, b) || StringLe(b, a)
    ensures StringLe(a, b) && StringLe(b, a) ==> a == b
  {
    if a != [] && b != [] && a[0] == b[0] {
      StringLeTotal(a[1..], b[1..]);
      assert a == [a[0]] + a[1..] && b == [b[0]] + b[1..];
    }
  }

  lemma {:induction false} StringLeTransitive(a: string, b: string, c: string)
    requires StringLe(a, b) && StringLe(b, c)
    ensures StringLe(a, c)
  {
    if a != [] && a[0] == b[0] && b[0] == c[0] {
      StringLeTransitive(a[1..], b[1..], c[1..]);
    }
  }

  lemma {:induction false} StringOrder()
    ensures TotalOrder(StringLe)
  {
    forall x, y ensures StringLe(x, y) || StringLe(y, x) {
      StringLeTotal(x, y);
    }
    forall x, y, z | StringLe(x, y) && StringLe(y, z) ensures StringLe(x, z) {
      StringLeTransitive(x, y, z);
    }
  }

  lemma {:induction false} DigitsLength(ss: seq<string>)
    requires AllSelectors(ss)
    ensures |Digits(ss)| == 8 * |ss|
  {
    if ss != [] {
      DigitsLength(ss[1..]);
    }
  }

  /** Selectors have a fixed width, so that the concatenation determines the list. */
  lemma {:induction false} DigitsInjective(a: seq<string>, b: seq<string>)
    requires AllSelectors(a) && AllSelectors(b) && Digits(a) == Digits(b)
    ensures a == b
  {
    DigitsLength(a);
    DigitsLength(b);
    if a != [] {
      var d := Digits(a);
      assert d[..8] == a[0][2..] && Digits(b)[..8] == b[0][2..];
      assert d[8..] == Digits(a[1..]) && Digits(b)[8..] == Digits(b[1..]);
      assert a[0] == a[0][..2] + a[0][2..] && b[0] == b[0][..2] + b[0][2..];
      DigitsInjective(a[1..], b[1..]);
      assert a == [a[0]] + a[1..] && b == [b[0]] + b[1..];
    }
  }

  lemma {:induction false} SortedSelectors(ss: seq<string>)
    requires AllSelectors(ss)
    ensures AllSelectors(Sort(StringLe, ss))
  {
    SortSorts(StringLe, ss);
    forall i | 0 <= i < |Sort(StringLe, ss)|
      ensures IsSelector(Sort(StringLe, ss)[i])
    {
      assert Sort(StringLe, ss)[i] in multiset(Sort(StringLe, ss));
      assert Sort(StringLe, ss)[i] in multiset(ss);
    }
  }

  /** The sorted concatenations are equal exactly when the selectors are, up to order. */
  lemma {:induction false} SameSelectors(a: seq<string>, b: seq<string>)
    requires AllSelectors(a) && AllSelectors(b)
    ensures AllSelectors(Sort(StringLe, a)) && AllSelectors(Sort(StringLe, b))
    ensures HexConcat(Sort(StringLe, a)) == HexConcat(Sort(StringLe, b)) <==> multiset(a) == multiset(b)
  {
    hide Sort, Digits;
    SortedSelectors(a);
    SortedSelectors(b);
    var sa, sb := Sort(StringLe, a), Sort(StringLe, b);
    SortSorts(StringLe, a);
    SortSorts(StringLe, b);
    StringOrder();
    if multiset(a) == multiset(b) {
      forall x, y | StringLe(x, y) && StringLe(y, x) ensures x == y {
        StringLeTotal(x, y);
      }
      SortedUnique(StringLe, sa, sb);
    } else if HexConcat(sa) == HexConcat(sb) {
      assert HexConcat(sa)[2..] == Digits(sa) && HexConcat(sb)[2..] == Digits(sb);
      DigitsInjective(sa, sb);
    }
  }

  /******* The comparison *******/

  /** What a cut means: its selectors count as often as they occur, in any order. */
  datatype Meaning = Meaning(facet: Address, selectors: multiset<Selector>, action: Action, isFreezable: bool)

  function MeaningOf(c: FacetCut): Meaning {
    Meaning(c.facet, multiset(c.selectors), c.action, c.isFreezable)
  }

  function Meanings(cuts: seq<FacetCut>): (ms: seq<Meaning>)
    ensures |ms| == |cuts|
    ensures forall i :: 0 <= i < |cuts| ==> ms[i] == MeaningOf(cuts[i])
  {
    seq(|cuts|, i requires 0 <= i < |cuts| => MeaningOf(cuts[i]))
  }

  predicate AllFixedWidth(cuts: seq<FacetCut>) {
    forall i :: 0 <= i < |cuts| ==> AllSelectors(cuts[i].selectors)
  }

  predicate SameCut(used: FacetCut, expected: FacetCut)
    requires AllSelectors(used.selectors) && AllSelectors(expected.selectors)
  {
    SortedSelectors(used.selectors);
    SortedSelectors(expected.selectors);
    && used.facet == expected.facet
    && HexConcat(Sort(StringLe, used.selectors)) == HexConcat(Sort(StringLe, expected.selectors))
    && used.action == expected.action && used.isFreezable == expected.isFreezable
  }

  lemma {:induction false} SameCutIsSameMeaning(used: FacetCut, expected: FacetCut)
    requires AllSelectors(used.selectors) && AllSelectors(expected.selectors)
    ensures SameCut(used, expected) <==> MeaningOf(used) == MeaningOf(expected)
  {
    hide Sort, HexConcat;
    SameSelectors(used.selectors, expected.selectors);
  }

  /** Comparing two cuts by their facets, as `localeCompare` does. */
  function ByFacet(le: (string, string) -> bool): (FacetCut, FacetCut) -> bool {
    (a: FacetCut, b: FacetCut) => le(a.facet, b.facet)
  }

  lemma {:induction false} MeaningsCons(x: FacetCut, cuts: seq<FacetCut>)
    ensures multiset(Meanings([x] + cuts)) == multiset{MeaningOf(x)} + multiset(Meanings(cuts))
  {
    assert Meanings([x] + cuts) == [MeaningOf(x)] + Meanings(cuts);
  }

  lemma {:induction false} InsertMeanings(le: (FacetCut, FacetCut) -> bool, x: FacetCut, cuts: seq<FacetCut>)
    ensures multiset(Meanings(Insert(le, x, cuts))) == multiset(Meanings(cuts)) + multiset{MeaningOf(x)}
  {
    hide Meanings, MeaningOf;
    if cuts == [] || !le(cuts[0], x) {
      MeaningsCons(x, cuts);
      assert Insert(le, x, cuts) == [x] + cuts;
    } else {
      InsertMeanings(le, x, cuts[1..]);
      MeaningsCons(cuts[0], Insert(le, x, cuts[1..]));
      MeaningsCons(cuts[0], cuts[1..]);
      assert cuts == [cuts[0]] + cuts[1..];
    }
  }

  /** Sorting the cuts changes nothing about what they mean together. */
  lemma {:induction false} SortMeanings(le: (FacetCut, FacetCut) -> bool, cuts: seq<FacetCut>)
    ensures multiset(Meanings(Sort(le, cuts))) == multiset(Meanings(cuts))
  {
    hide Insert, Meanings, MeaningOf;
    if cuts != [] {
      var init, last := cuts[..|cuts| - 1], cuts[|cuts| - 1];
      SortMeanings(le, init);
      InsertMeanings(le, last, Sort(le, init));
      MeaningsSnoc(init, last);
      assert cuts == init + [last];
    }
  }

  lemma {:induction false} MeaningsSnoc(cuts: seq<FacetCut>, x: FacetCut)
    ensures multiset(Meanings(cuts + [x])) == multiset(Meanings(cuts)) + multiset{MeaningOf(x)}
  {
    assert Meanings(cuts + [x]) == Meanings(cuts) + [MeaningOf(x)];
  }

  /** Both lists agree position by position. */
  predicate Agrees(used: seq<FacetCut>, expected: seq<FacetCut>)
    requires AllFixedWidth(used) && AllFixedWidth(expected)
  {
    && |used| == |expected|
    && forall i :: 0 <= i < |used| ==> SameCut(used[i], expected[i])
  }

  lemma {:induction false} SortedFixedWidth(le: (FacetCut, FacetCut) -> bool, cuts: seq<FacetCut>)
    requires AllFixedWidth(cuts)
    ensures AllFixedWidth(Sort(le, cuts))
  {
    SortSorts(le, cuts);
    forall i | 0 <= i < |Sort(le, cuts)|
      ensures AllSelectors(Sort(le, cuts)[i].selectors)
    {
      assert Sort(le, cuts)[i] in multiset(Sort(le, cuts));
      assert Sort(le, cuts)[i] in multiset(cuts);
    }
  }

  /** The comparison of the consistency checker; it throws at the first difference. */
  method CompareFacetCuts(le: (string, string) -> bool, expected: seq<FacetCut>, used: seq<FacetCut>) returns (ok: bool)
    requires AllFixedWidth(expected) && AllFixedWidth(used)
    ensures ok <==> Passes(le, expected, used)
  {
    hide Sort, HexConcat;
    var expectedFacetCuts := Sort(ByFacet(le), expected);
    var usedFacetCuts := Sort(ByFacet(le), used);
    SortedFixedWidth(ByFacet(le), expected);
    SortedFixedWidth(ByFacet(le), used);
    if |expectedFacetCuts| != |usedFacetCuts| {
      return false;
    }
    for i := 0 to |expectedFacetCuts|
      invariant forall j :: 0 <= j < i ==> SameCut(usedFacetCuts[j], expectedFacetCuts[j])
    {
      var u, e := usedFacetCuts[i], expectedFacetCuts[i];
      if u.facet != e.facet {
        return false;
      }
      SortedSelectors(u.selectors);
      SortedSelectors(e.selectors);
      var usedSelectors := HexConcat(Sort(StringLe, u.selectors));
      var expectedSelectors := HexConcat(Sort(StringLe, e.selectors));
      if usedSelectors != expectedSelectors {
        return false;
      }
      if u.action != e.action {
        return false;
      }
      if u.isFreezable != e.isFreezable {
        return false;
      }
    }
    ok := true;
  }

  predicate Passes(le: (string, string) -> bool, expected: seq<FacetCut>, used: seq<FacetCut>)
    requires AllFixedWidth(expected) && AllFixedWidth(used)
  {
    SortedFixedWidth(ByFacet(le), expected);
    SortedFixedWidth(ByFacet(le), used);
    Agrees(Sort(ByFacet(le), used), Sort(ByFacet(le), expected))
  }

  lemma {:induction false} PassesByMeaning(le: (string, string) -> bool, expected: seq<FacetCut>, used: seq<FacetCut>)
    requires AllFixedWidth(expected) && AllFixedWidth(used)
    ensures Passes(le, expected, used)
       <==> Meanings(Sort(ByFacet(le), used)) == Meanings(Sort(ByFacet(le), expected))
  {
    hide Sort, SameCut, MeaningOf;
    var u, e := Sort(ByFacet(le), used), Sort(ByFacet(le), expected);
    SortedFixedWidth(ByFacet(le), expected);
    SortedFixedWidth(ByFacet(le), used);
    forall i | 0 <= i < |u| && i < |e|
      ensures SameCut(u[i], e[i]) <==> Meanings(u)[i] == Meanings(e)[i]
    {
      SameCutIsSameMeaning(u[i], e[i]);
    }
    assert |u| == |Meanings(u)| && |e| == |Meanings(e)|;
  }

  /** If the comparison passes, the used cuts mean the expected ones, up to order. */
  lemma {:induction false} PassingMeansSame(le: (string, string) -> bool, expected: seq<FacetCut>, used: seq<FacetCut>)
    requires AllFixedWidth(expected) && AllFixedWidth(used) && Passes(le, expected, used)
    ensures multiset(Meanings(used)) == multiset(Meanings(expected))
  {
    hide Sort, Meanings, Passes;
    PassesByMeaning(le, expected, used);
    SortMeanings(ByFacet(le), used);
    SortMeanings(ByFacet(le), expected);
  }

  ghost predicate DistinctFacets(cuts: seq<FacetCut>) {
    forall i, j :: 0 <= i < j < |cuts| ==> cuts[i].facet != cuts[j].facet
  }

  ghost predicate Antisymmetric(le: (string, string) -> bool) {
    forall x, y :: le(x, y) && le(y, x) ==> x == y
  }

  lemma {:induction false} ByFacetOrder(le: (string, string) -> bool)
    requires TotalOrder(le)
    ensures TotalOrder(ByFacet(le)) && TotalOrder(MeaningByFacet(le))
  {
    var c, m := ByFacet(le), MeaningByFacet(le);
    assert forall x: FacetCut, y: FacetCut :: c(x, y) == le(x.facet, y.facet);
    assert forall x: Meaning, y: Meaning :: m(x, y) == le(x.facet, y.facet);
  }

  function MeaningByFacet(le: (string, string) -> bool): (Meaning, Meaning) -> bool {
    (a: Meaning, b: Meaning) => le(a.facet, b.facet)
  }

  lemma {:induction false} DistinctTellsApart(le: (string, string) -> bool, cuts: seq<FacetCut>)
    requires Antisymmetric(le) && DistinctFacets(cuts)
    ensures TellsApart(MeaningByFacet(le), multiset(Meanings(cuts)))
  {
    var ms := Meanings(cuts);
    forall x: Meaning, y: Meaning | x in multiset(ms) && y in multiset(ms) && le(x.facet, y.facet) && le(y.facet, x.facet)
      ensures x == y
    {
      assert x in ms && y in ms;
      var i :| 0 <= i < |ms| && ms[i] == x;
      var j :| 0 <= j < |ms| && ms[j] == y;
      assert cuts[i].facet == cuts[j].facet;
      assert i == j;
    }
  }

  /** With distinct facets, every reordering of the expected cuts and of their selectors passes. */
  lemma {:induction false} SameMeansPassing(le: (string, string) -> bool, expected: seq<FacetCut>, used: seq<FacetCut>)
    requires AllFixedWidth(expected) && AllFixedWidth(used) && TotalOrder(le) && Antisymmetric(le)
    requires DistinctFacets(expected) && multiset(Meanings(used)) == multiset(Meanings(expected))
    ensures Passes(le, expected, used)
  {
    hide Sort, Passes, TotalOrder, TellsApart, Meanings, DistinctFacets;
    var u, e := Sort(ByFacet(le), used), Sort(ByFacet(le), expected);
    PassesByMeaning(le, expected, used);
    ByFacetOrder(le);
    SortSorts(ByFacet(le), used);
    SortSorts(ByFacet(le), expected);
    SortMeanings(ByFacet(le), used);
    SortMeanings(ByFacet(le), expected);
    DistinctTellsApart(le, expected);
    SortedMeanings(le, u);
    SortedMeanings(le, e);
    SortedUnique(MeaningByFacet(le), Meanings(u), Meanings(e));
  }

  lemma {:induction false} SortedMeanings(le: (string, string) -> bool, cuts: seq<FacetCut>)
    requires Sorted(ByFacet(le), cuts)
    ensures Sorted(MeaningByFacet(le), Meanings(cuts))
  {
  }

  /** For distinct facets the comparison passes exactly when both lists mean the same, up to order. */
  lemma {:induction false} ComparisonExact(le: (string, string) -> bool, expected: seq<FacetCut>, used: seq<FacetCut>)
    requires AllFixedWidth(expected) && AllFixedWidth(used) && TotalOrder(le) && Antisymmetric(le)
    requires DistinctFacets(expected)
    ensures Passes(le, expected, used) <==> multiset(Meanings(used)) == multiset(Meanings(expected))
  {
    hide Passes, Meanings;
    if Passes(le, expected, used) {
      PassingMeansSame(le, expected, used);
    } else if multiset(Meanings(used)) == multiset(Meanings(expected)) {
      SameMeansPassing(le, expected, used);
    }
  }

  /******* Lists in which a facet is repeated *******/

  function Picked(x: FacetCut, f: Address): seq<FacetCut> {
    if x.facet == f then [x] else []
  }

  /** The cuts of one facet, in their order. */
  function OfFacet(cuts: seq<FacetCut>, f: Address): seq<FacetCut> {
    if cuts == [] then [] else Picked(cuts[0], f) + OfFacet(cuts[1..], f)
  }

  lemma {:induction false} OfFacetCons(x: FacetCut, cuts: seq<FacetCut>, f: Address)
    ensures OfFacet([x] + cuts, f) == Picked(x, f) + OfFacet(cuts, f)
  {
    assert ([x] + cuts)[1..] == cuts;
  }

  lemma {:induction false} OfFacetOne(x: FacetCut, f: Address)
    ensures OfFacet([x], f) == Picked(x, f) && OfFacet([], f) == []
  {
    assert [x][1..] == [];
    assert Picked(x, f) + [] == Picked(x, f);
  }

  lemma {:induction false} OfFacetSnoc(cuts: seq<FacetCut>, x: FacetCut, f: Address)
    ensures OfFacet(cuts + [x], f) == OfFacet(cuts, f) + Picked(x, f)
  {
    hide OfFacet, Picked;
    if cuts == [] {
      OfFacetOne(x, f);
      assert cuts + [x] == [x] && [] + Picked(x, f) == Picked(x, f);
    } else {
      var first, rest := cuts[0], cuts[1..];
      OfFacetSnoc(rest, x, f);
      OfFacetCons(first, rest, f);
      OfFacetCons(first, rest + [x], f);
      assert cuts == [first] + rest;
      Text.Assoc([first], rest, [x]);
      Text.Assoc(Picked(first, f), OfFacet(rest, f), Picked(x, f));
    }
  }

  lemma {:induction false} OfFacetEmpty(cuts: seq<FacetCut>, f: Address)
    ensures OfFacet(cuts, f) == [] <==> forall i :: 0 <= i < |cuts| ==> cuts[i].facet != f
  {
    if cuts != [] {
      OfFacetEmpty(cuts[1..], f);
      assert forall i :: 0 < i < |cuts| ==> cuts[i] == cuts[1..][i - 1];
    }
  }

  lemma {:induction false} OfOtherFacet(x: FacetCut, cuts: seq<FacetCut>, f: Address)
    requires x.facet == f ==> OfFacet(cuts, f) == []
    ensures Picked(x, f) + OfFacet(cuts, f) == OfFacet(cuts, f) + Picked(x, f)
  {
  }

  /** Inserting puts a cut after those of its facet. */
  lemma {:induction false} InsertStable(le: (string, string) -> bool, x: FacetCut, cuts: seq<FacetCut>, f: Address)
    requires TotalOrder(le) && Sorted(ByFacet(le), cuts)
    ensures OfFacet(Insert(ByFacet(le), x, cuts), f) == OfFacet(cuts, f) + Picked(x, f)
  {
    hide TotalOrder, OfFacet, Picked, Sorted;
    if cuts == [] {
      OfFacetOne(x, f);
      assert [] + Picked(x, f) == Picked(x, f);
    } else if le(cuts[0].facet, x.facet) {
      var first, rest := cuts[0], cuts[1..];
      SortedTail(ByFacet(le), cuts);
      InsertStable(le, x, rest, f);
      assert cuts == [first] + rest;
      OfFacetCons(first, rest, f);
      OfFacetCons(first, Insert(ByFacet(le), x, rest), f);
      Text.Assoc(Picked(first, f), OfFacet(rest, f), Picked(x, f));
    } else {
      OfFacetCons(x, cuts, f);
      LaterFacets(le, x, cuts);
      OfFacetEmpty(cuts, f);
      OfOtherFacet(x, cuts, f);
    }
  }

  lemma {:induction false} LaterFacets(le: (string, string) -> bool, x: FacetCut, cuts: seq<FacetCut>)
    requires TotalOrder(le) && Sorted(ByFacet(le), cuts) && cuts != [] && !le(cuts[0].facet, x.facet)
    ensures forall i :: 0 <= i < |cuts| ==> cuts[i].facet != x.facet
  {
    forall i | 0 <= i < |cuts|
      ensures cuts[i].facet != x.facet
    {
      assert i > 0 ==> ByFacet(le)(cuts[0], cuts[i]);
    }
  }

  /** Sorting keeps the order of the cuts of each facet. */
  lemma {:induction false} SortStable(le: (string, string) -> bool, cuts: seq<FacetCut>, f: Address)
    requires TotalOrder(le)
    ensures OfFacet(Sort(ByFacet(le), cuts), f) == OfFacet(cuts, f)
  {
    hide TotalOrder, OfFacet, Insert, Sorted;
    if cuts != [] {
      var init, last := cuts[..|cuts| - 1], cuts[|cuts| - 1];
      SortStable(le, init, f);
      ByFacetOrder(le);
      SortSorts(ByFacet(le), init);
      InsertStable(le, last, Sort(ByFacet(le), init), f);
      OfFacetSnoc(init, last, f);
      assert cuts == init + [last];
    }
  }

  /** For each facet the lists have cuts of the same meaning, in the same order. */
  ghost predicate SameByFacet(a: seq<FacetCut>, b: seq<FacetCut>) {
    forall f :: Meanings(OfFacet(a, f)) == Meanings(OfFacet(b, f))
  }

  lemma {:induction false} MeaningsFirst(x: FacetCut, cuts: seq<FacetCut>)
    ensures Meanings([x] + cuts) == [MeaningOf(x)] + Meanings(cuts)
  {
  }

  lemma {:induction false} PointwiseByFacet(a: seq<FacetCut>, b: seq<FacetCut>, f: Address)
    requires Meanings(a) == Meanings(b)
    ensures Meanings(OfFacet(a, f)) == Meanings(OfFacet(b, f))
  {
    hide Meanings;
    assert |a| == |Meanings(a)| == |b|;
    if a != [] {
      MeaningsFirst(a[0], a[1..]);
      MeaningsFirst(b[0], b[1..]);
      assert a == [a[0]] + a[1..] && b == [b[0]] + b[1..];
      assert Meanings(a)[1..] == Meanings(a[1..]) && Meanings(b)[1..] == Meanings(b[1..]);
      assert Meanings(a)[0] == MeaningOf(a[0]) && Meanings(b)[0] == MeaningOf(b[0]);
      PointwiseByFacet(a[1..], b[1..], f);
      MeaningsFirst(a[0], OfFacet(a[1..], f));
      MeaningsFirst(b[0], OfFacet(b[1..], f));
      assert [] + OfFacet(a[1..], f) == OfFacet(a[1..], f) && [] + OfFacet(b[1..], f) == OfFacet(b[1..], f);
    }
  }

  lemma {:induction false} OfFacetUnfold(cuts: seq<FacetCut>, f: Address)
    requires cuts != []
    ensures var rest := OfFacet(cuts[1..], f);
      Meanings(OfFacet(cuts, f)) == if cuts[0].facet == f then [MeaningOf(cuts[0])] + Meanings(rest) else Meanings(rest)
  {
    var rest := OfFacet(cuts[1..], f);
    MeaningsFirst(cuts[0], rest);
    assert [] + rest == rest;
  }

  /** Of two sorted lists that agree facet by facet, the first cuts have the same facet. */
  lemma {:induction false} FirstFacetIs(le: (string, string) -> bool, a: seq<FacetCut>, b: seq<FacetCut>)
    requires TotalOrder(le) && Sorted(ByFacet(le), b) && a != [] && SameByFacet(a, b)
    ensures b != [] && le(b[0].facet, a[0].facet)
  {
    hide Meanings;
    var f := a[0].facet;
    OfFacetEmpty(a, f);
    assert |OfFacet(a, f)| == |Meanings(OfFacet(a, f))| == |Meanings(OfFacet(b, f))| == |OfFacet(b, f)|;
    OfFacetEmpty(b, f);
    var i :| 0 <= i < |b| && b[i].facet == f;
    assert i > 0 ==> ByFacet(le)(b[0], b[i]);
  }

  lemma {:induction false} SortedByFacet(le: (string, string) -> bool, a: seq<FacetCut>, b: seq<FacetCut>)
    requires TotalOrder(le) && Antisymmetric(le) && Sorted(ByFacet(le), a) && Sorted(ByFacet(le), b) && SameByFacet(a, b)
    ensures Meanings(a) == Meanings(b)
  {
    hide TotalOrder, Meanings, OfFacet;
    if a == [] || b == [] {
      if a != [] {
        FirstFacetIs(le, a, b);
      } else if b != [] {
        FirstFacetIs(le, b, a);
      }
    } else {
      FirstFacetIs(le, a, b);
      FirstFacetIs(le, b, a);
      var f := a[0].facet;
      assert b[0].facet == f;
      OfFacetUnfold(a, f);
      OfFacetUnfold(b, f);
      assert Meanings(OfFacet(a, f))[0] == Meanings(OfFacet(b, f))[0];
      forall g
        ensures Meanings(OfFacet(a[1..], g)) == Meanings(OfFacet(b[1..], g))
      {
        OfFacetUnfold(a, g);
        OfFacetUnfold(b, g);
        if g == f {
          assert Meanings(OfFacet(a, f))[1..] == Meanings(OfFacet(a[1..], f));
          assert Meanings(OfFacet(b, f))[1..] == Meanings(OfFacet(b[1..], f));
        }
      }
      SortedByFacet(le, a[1..], b[1..]);
      MeaningsFirst(a[0], a[1..]);
      MeaningsFirst(b[0], b[1..]);
      assert a == [a[0]] + a[1..] && b == [b[0]] + b[1..];
    }
  }

  /**
   The comparison, for all lists: it passes exactly when for each facet both lists have cuts of the same
   meaning in the same order.
   */
  lemma {:induction false} PassesExactly(le: (string, string) -> bool, expected: seq<FacetCut>, used: seq<FacetCut>)
    requires AllFixedWidth(expected) && AllFixedWidth(used) && TotalOrder(le) && Antisymmetric(le)
    ensures Passes(le, expected, used) <==> SameByFacet(used, expected)
  {
    hide Sort, Meanings, OfFacet, Passes, TotalOrder, Sorted, Antisymmetric;
    var u, e := Sort(ByFacet(le), used), Sort(ByFacet(le), expected);
    PassesByMeaning(le, expected, used);
    ByFacetOrder(le);
    SortSorts(ByFacet(le), used);
    SortSorts(ByFacet(le), expected);
    forall f
      ensures OfFacet(u, f) == OfFacet(used, f) && OfFacet(e, f) == OfFacet(expected, f)
      ensures Meanings(u) == Meanings(e) ==> Meanings(OfFacet(u, f)) == Meanings(OfFacet(e, f))
    {
      SortStable(le, used, f);
      SortStable(le, expected, f);
      if Meanings(u) == Meanings(e) {
        PointwiseByFacet(u, e, f);
      }
    }
    if SameByFacet(used, expected) {
      assert SameByFacet(u, e);
      SortedByFacet(le, u, e);
    }
  }

  /** The list with two of its cuts exchanged. */
  function Exchanged(cuts: seq<FacetCut>, i: nat, j: nat): seq<FacetCut>
    requires i < |cuts| && j < |cuts|
  {
    cuts[i := cuts[j]][j := cuts[i]]
  }

  lemma {:induction false} OfFacetAt(cuts: seq<FacetCut>, i: nat)
    requires i < |cuts|
    ensures var all, k := OfFacet(cuts, cuts[i].facet), |OfFacet(cuts[..i], cuts[i].facet)|;
      k < |all| && all[k] == cuts[i]
  {
    var f := cuts[i].facet;
    if i > 0 {
      OfFacetAt(cuts[1..], i - 1);
      assert cuts[..i][0] == cuts[0] && cuts[..i][1..] == cuts[1..][..i - 1];
    }
  }

  /**
   Exchanging two cuts of one facet that mean different things is always reported, although the lists
   together mean the same.
   */
  lemma {:induction false} RepeatedFacetFails(le: (string, string) -> bool, cuts: seq<FacetCut>, i: nat, j: nat)
    requires AllFixedWidth(cuts) && TotalOrder(le) && Antisymmetric(le) && i < j < |cuts|
    requires cuts[i].facet == cuts[j].facet && MeaningOf(cuts[i]) != MeaningOf(cuts[j])
    ensures AllFixedWidth(Exchanged(cuts, i, j)) && !Passes(le, cuts, Exchanged(cuts, i, j))
    ensures multiset(Meanings(Exchanged(cuts, i, j))) == multiset(Meanings(cuts))
  {
    hide TotalOrder, Antisymmetric, OfFacet, Passes, MeaningOf;
    var other, f := Exchanged(cuts, i, j), cuts[i].facet;
    PassesExactly(le, cuts, other);
    OfFacetAt(cuts, i);
    OfFacetAt(other, i);
    assert other[..i] == cuts[..i];
    var k := |OfFacet(cuts[..i], f)|;
    assert Meanings(OfFacet(cuts, f))[k] != Meanings(OfFacet(other, f))[k];
    assert Meanings(other) == Meanings(cuts)[i := MeaningOf(cuts[j])][j := MeaningOf(cuts[i])];
  }
}
