/**
 What an upgrade does to a diamond, in terms of the names of the facets, the signatures of the new ones
 and the routes alone: which routes go, which stay, which come, and when the upgrade applies.
 */
module FacetUpgrade {
  import opened Text
  import opened Diamond
  import opened FacetCuts

  /******* Which facets are replaced *******/

  /** The given names, or the two facets that always go and the old versions of the new ones. */
  ghost predicate Replaced(given: Option<seq<string>>, n: NewFacets, name: string) {
    match given
    case Some(names) => name in names
    case None =>
      || name == "DiamondCutFacet" || name == "GovernanceFacet"
      || exists kind :: NewAddress(n, kind).Some? && name == ContractName(kind)
  }

  lemma {:induction false} NamesIff(cuts: seq<(string, FacetCut)>, name: string)
    ensures name in Names(cuts) <==> exists i :: 0 <= i < |cuts| && cuts[i].0 == name
  {
    if cuts != [] {
      NamesIff(cuts[1..], name);
      assert forall i :: 0 <= i < |cuts[1..]| ==> cuts[1..][i] == cuts[i + 1];
    }
  }

  /** The kinds that are deployed anew, in the order of their cuts. */
  function Kinds(n: NewFacets): seq<FacetKind> {
    (if n.admin.Some? then [Admin] else []) + (if n.getters.Some? then [Getters] else [])
    + (if n.mailbox.Some? then [Mailbox] else []) + (if n.executor.Some? then [Executor] else [])
  }

  function CutOf(a: Artifacts, n: NewFacets, kind: FacetKind): FacetCut
    requires NewAddress(n, kind).Some?
  {
    FacetCut(NewAddress(n, kind).value, AllSelectors(a, a.signatures(ContractName(kind))), Add,
             kind.Mailbox? || kind.Executor?)
  }

  lemma {:induction false} KindsAreNew(n: NewFacets)
    ensures forall kind :: kind in Kinds(n) <==> NewAddress(n, kind).Some?
    ensures forall i, j :: 0 <= i < j < |Kinds(n)| ==> Kinds(n)[i] != Kinds(n)[j]
  {
  }

  lemma {:induction false} AddsByKind(a: Artifacts, n: NewFacets)
    ensures |CutsForAdd(a, n)| == |Kinds(n)|
    ensures forall i :: 0 <= i < |Kinds(n)| ==>
      NewAddress(n, Kinds(n)[i]).Some?
      && CutsForAdd(a, n)[i] == (ContractName(Kinds(n)[i]), CutOf(a, n, Kinds(n)[i]))
  {
    hide AllSelectors;
  }

  lemma {:induction false} RemovedIff(a: Artifacts, n: NewFacets, given: Option<seq<string>>, name: string)
    ensures name in RemovedNames(given, CutsForAdd(a, n)) <==> Replaced(given, n, name)
  {
    hide CutsForAdd, ContractName, NewAddress, Kinds, CutOf, Names;
    NamesIff(CutsForAdd(a, n), name);
    AddsByKind(a, n);
    KindsAreNew(n);
    if kind :| NewAddress(n, kind).Some? && name == ContractName(kind) {
      assert kind in Kinds(n);
      var i :| 0 <= i < |Kinds(n)| && Kinds(n)[i] == kind;
      assert CutsForAdd(a, n)[i].0 == name;
    }
  }

  /******* Which selectors come *******/

  /** The selector of a function of the contract, other than `getName`. */
  ghost predicate Serves(a: Artifacts, kind: FacetKind, s: Selector) {
    exists sig :: sig in a.signatures(ContractName(kind)) && sig != "getName()" && s == a.sighash(sig)
  }

  /** No two functions other than `getName` have the same selector. */
  ghost predicate Distinct(a: Artifacts, signatures: seq<string>) {
    forall i, j :: 0 <= i < j < |signatures| && signatures[i] != "getName()" && signatures[j] != "getName()" ==>
      a.sighash(signatures[i]) != a.sighash(signatures[j])
  }

  /** The selectors of a new facet are those of its functions but `getName`, and no others. */
  lemma {:induction false} SelectorsExact(a: Artifacts, signatures: seq<string>, s: Selector)
    ensures s in AllSelectors(a, signatures)
       <==> exists sig :: sig in signatures && sig != "getName()" && s == a.sighash(sig)
  {
    if signatures != [] {
      SelectorsExact(a, signatures[1..], s);
      assert signatures == [signatures[0]] + signatures[1..];
    }
  }

  lemma {:induction false} NoRepeatsCons(x: Selector, rest: seq<Selector>)
    ensures NoRepeats([x] + rest) <==> x !in rest && NoRepeats(rest)
  {
    var all := [x] + rest;
    assert forall i :: 0 <= i < |rest| ==> all[i + 1] == rest[i];
    if x !in rest && NoRepeats(rest) {
      forall i, j | 0 <= i < j < |all|
        ensures all[i] != all[j]
      {
        assert all[j] == rest[j - 1];
        assert i > 0 ==> all[i] == rest[i - 1];
      }
    }
    if NoRepeats(all) {
      forall i, j | 0 <= i < j < |rest|
        ensures rest[i] != rest[j]
      {
        assert all[i + 1] != all[j + 1];
      }
      forall y | y in rest
        ensures y != x
      {
        var j :| 0 <= j < |rest| && rest[j] == y;
        assert all[0] != all[j + 1];
      }
    }
  }

  lemma {:induction false} DistinctCons(a: Artifacts, signatures: seq<string>)
    requires signatures != []
    ensures Distinct(a, signatures)
       <==> Distinct(a, signatures[1..])
            && (signatures[0] != "getName()" ==> a.sighash(signatures[0]) !in AllSelectors(a, signatures[1..]))
  {
    hide AllSelectors;
    var first, rest := signatures[0], signatures[1..];
    SelectorsExact(a, rest, a.sighash(first));
    assert forall i :: 0 <= i < |rest| ==> rest[i] == signatures[i + 1];
    if Distinct(a, rest) && (first != "getName()" ==> a.sighash(first) !in AllSelectors(a, rest)) {
      forall i, j | 0 <= i < j < |signatures| && signatures[i] != "getName()" && signatures[j] != "getName()"
        ensures a.sighash(signatures[i]) != a.sighash(signatures[j])
      {
        assert signatures[j] == rest[j - 1] && signatures[j] in rest;
        assert i > 0 ==> signatures[i] == rest[i - 1];
      }
    }
    if Distinct(a, signatures) {
      forall i, j | 0 <= i < j < |rest| && rest[i] != "getName()" && rest[j] != "getName()"
        ensures a.sighash(rest[i]) != a.sighash(rest[j])
      {
        assert a.sighash(signatures[i + 1]) != a.sighash(signatures[j + 1]);
      }
      forall sig | sig in rest && sig != "getName()" && first != "getName()"
        ensures a.sighash(first) != a.sighash(sig)
      {
        var j :| 0 <= j < |rest| && rest[j] == sig;
        assert a.sighash(signatures[0]) != a.sighash(signatures[j + 1]);
      }
    }
  }

  lemma {:induction false} SelectorsRepeat(a: Artifacts, signatures: seq<string>)
    ensures NoRepeats(AllSelectors(a, signatures)) <==> Distinct(a, signatures)
  {
    hide NoRepeats, Distinct;
    if signatures == [] {
      NothingRepeats(a);
    } else {
      SelectorsRepeat(a, signatures[1..]);
      DistinctCons(a, signatures);
      NoRepeatsCons(a.sighash(signatures[0]), AllSelectors(a, signatures[1..]));
      assert [] + AllSelectors(a, signatures[1..]) == AllSelectors(a, signatures[1..]);
    }
  }

  lemma {:induction false} NothingRepeats(a: Artifacts)
    ensures NoRepeats([]) && Distinct(a, [])
  {
  }

  /******* When an upgrade applies, and what it leaves *******/

  /** The route is there before and its facet is not replaced. */
  ghost predicate Stays(r: Routes, nameOf: Address -> string, given: Option<seq<string>>, n: NewFacets, s: Selector) {
    s in r && !Replaced(given, n, nameOf(r[s].facet))
  }

  /**
   A new facet has code and functions, these have distinct selectors, none of them belongs to a facet that
   stays, and what stays at its address can be frozen just like it.
   */
  ghost predicate Fits(code: set<Address>, r: Routes, nameOf: Address -> string, a: Artifacts, n: NewFacets,
                       given: Option<seq<string>>, kind: FacetKind)
    requires NewAddress(n, kind).Some?
  {
    var address := NewAddress(n, kind).value;
    && address in code && (exists s :: Serves(a, kind, s)) && Distinct(a, a.signatures(ContractName(kind)))
    && (forall s :: Serves(a, kind, s) ==> !Stays(r, nameOf, given, n, s))
    && (forall s :: Stays(r, nameOf, given, n, s) && r[s].facet == address ==> r[s].isFreezable == CanFreeze(kind))
  }

  /** Two new facets share no selector, nor an address of which only one can be frozen. */
  ghost predicate FitTogether(a: Artifacts, n: NewFacets, k: FacetKind, l: FacetKind)
    requires NewAddress(n, k).Some? && NewAddress(n, l).Some?
  {
    && (forall s :: !(Serves(a, k, s) && Serves(a, l, s)))
    && (NewAddress(n, k) == NewAddress(n, l) ==> CanFreeze(k) == CanFreeze(l))
  }

  ghost predicate Compatible(code: set<Address>, r: Routes, nameOf: Address -> string, a: Artifacts, n: NewFacets,
                             given: Option<seq<string>>)
  {
    && (forall kind :: NewAddress(n, kind).Some? ==> Fits(code, r, nameOf, a, n, given, kind))
    && (forall k, l :: k != l && NewAddress(n, k).Some? && NewAddress(n, l).Some? ==> FitTogether(a, n, k, l))
  }

  /** The routes afterwards: those that stay, and those of the new facets. */
  ghost predicate Upgraded(r: Routes, nameOf: Address -> string, a: Artifacts, n: NewFacets,
                           given: Option<seq<string>>, after: Routes)
  {
    && (forall s :: s in after <==>
          Stays(r, nameOf, given, n, s) || exists kind :: NewAddress(n, kind).Some? && Serves(a, kind, s))
    && (forall s :: Stays(r, nameOf, given, n, s) && s in after ==> after[s] == r[s])
    && (forall kind, s :: NewAddress(n, kind).Some? && Serves(a, kind, s) && s in after ==>
          after[s] == Route(NewAddress(n, kind).value, CanFreeze(kind)))
  }

  lemma {:induction false} RetainedIff(
    r: Routes, nameOf: Address -> string, a: Artifacts, n: NewFacets, given: Option<seq<string>>)
    ensures var kept := Retained(r, nameOf, RemovedNames(given, CutsForAdd(a, n)));
      && (forall s :: s in kept <==> Stays(r, nameOf, given, n, s))
      && (forall s :: s in kept ==> kept[s] == r[s])
  {
    hide RemovedNames, CutsForAdd, Replaced;
    forall s | s in r
      ensures nameOf(r[s].facet) in RemovedNames(given, CutsForAdd(a, n)) <==> Replaced(given, n, nameOf(r[s].facet))
    {
      RemovedIff(a, n, given, nameOf(r[s].facet));
    }
  }

  lemma {:induction false} ServesIff(a: Artifacts, n: NewFacets, kind: FacetKind)
    requires NewAddress(n, kind).Some?
    ensures forall s :: s in CutOf(a, n, kind).selectors <==> Serves(a, kind, s)
  {
    hide AllSelectors, ContractName;
    forall s
      ensures s in AllSelectors(a, a.signatures(ContractName(kind))) <==> Serves(a, kind, s)
    {
      SelectorsExact(a, a.signatures(ContractName(kind)), s);
    }
  }

  lemma {:induction false} FitsIff(
    code: set<Address>, r: Routes, nameOf: Address -> string, a: Artifacts, n: NewFacets, given: Option<seq<string>>,
    kind: FacetKind)
    requires NewAddress(n, kind).Some?
    ensures var kept := Retained(r, nameOf, RemovedNames(given, CutsForAdd(a, n)));
      Addable(code, kept, CutOf(a, n, kind)) <==> Fits(code, r, nameOf, a, n, given, kind)
  {
    hide Retained, RemovedNames, CutsForAdd, AllSelectors, ContractName, NewAddress, Serves, Stays, NoRepeats, Distinct,
         Matches, Disjoint;
    var kept, cut := Retained(r, nameOf, RemovedNames(given, CutsForAdd(a, n))), CutOf(a, n, kind);
    ServesIff(a, n, kind);
    SelectorsRepeat(a, a.signatures(ContractName(kind)));
    if cut.selectors != [] {
      assert Serves(a, kind, cut.selectors[0]);
    }
    FreshIff(r, nameOf, a, n, given, kind);
    MatchesIff(r, nameOf, a, n, given, cut.facet, cut.isFreezable);
  }

  lemma {:induction false} FreshIff(
    r: Routes, nameOf: Address -> string, a: Artifacts, n: NewFacets, given: Option<seq<string>>, kind: FacetKind)
    requires NewAddress(n, kind).Some?
    ensures var kept := Retained(r, nameOf, RemovedNames(given, CutsForAdd(a, n)));
      Disjoint(CutOf(a, n, kind).selectors, kept.Keys)
      <==> forall s :: Serves(a, kind, s) ==> !Stays(r, nameOf, given, n, s)
  {
    hide Retained, RemovedNames, CutsForAdd, AllSelectors, ContractName, NewAddress, Serves, Stays;
    var kept, selectors := Retained(r, nameOf, RemovedNames(given, CutsForAdd(a, n))), CutOf(a, n, kind).selectors;
    RetainedIff(r, nameOf, a, n, given);
    ServesIff(a, n, kind);
    if Disjoint(selectors, kept.Keys) {
      forall s | Serves(a, kind, s)
        ensures !Stays(r, nameOf, given, n, s)
      {
        assert s in selectors;
      }
    }
  }

  lemma {:induction false} MatchesIff(
    r: Routes, nameOf: Address -> string, a: Artifacts, n: NewFacets, given: Option<seq<string>>, facet: Address,
    isFreezable: bool)
    ensures var kept := Retained(r, nameOf, RemovedNames(given, CutsForAdd(a, n)));
      Matches(kept, facet, isFreezable)
      <==> forall s :: Stays(r, nameOf, given, n, s) && r[s].facet == facet ==> r[s].isFreezable == isFreezable
  {
    hide Retained, RemovedNames, CutsForAdd, Replaced;
    RetainedIff(r, nameOf, a, n, given);
  }

  lemma {:induction false} ApartIff(a: Artifacts, n: NewFacets, k: FacetKind, l: FacetKind)
    requires NewAddress(n, k).Some? && NewAddress(n, l).Some?
    ensures Apart(CutOf(a, n, k), CutOf(a, n, l)) <==> FitTogether(a, n, k, l)
  {
    hide AllSelectors, ContractName, NewAddress, Serves;
    ServesIff(a, n, k);
    ServesIff(a, n, l);
    var c, d := CutOf(a, n, k), CutOf(a, n, l);
    assert Disjoint(d.selectors, SetOf(c.selectors)) <==> forall s :: !(Serves(a, k, s) && Serves(a, l, s)) by {
      forall s
        ensures s in SetOf(c.selectors) <==> Serves(a, k, s)
      {
      }
    }
  }

  /** The cuts of the new facets can be added to what stays exactly when the upgrade is compatible. */
  lemma {:induction false} AddableIff(
    code: set<Address>, r: Routes, nameOf: Address -> string, a: Artifacts, n: NewFacets, given: Option<seq<string>>)
    ensures var adds := CutsForAdd(a, n);
      AllAddable(code, Retained(r, nameOf, RemovedNames(given, adds)), Cuts(adds))
      <==> Compatible(code, r, nameOf, a, n, given)
  {
    hide Retained, RemovedNames, CutsForAdd, Addable, Apart, Fits, FitTogether, NewAddress, CutOf, Kinds, Cuts;
    var adds := CutsForAdd(a, n);
    var kept, cuts, kinds := Retained(r, nameOf, RemovedNames(given, adds)), Cuts(adds), Kinds(n);
    CutsByKind(a, n);
    KindsAreNew(n);
    forall i | 0 <= i < |kinds|
      ensures Addable(code, kept, cuts[i]) <==> Fits(code, r, nameOf, a, n, given, kinds[i])
    {
      FitsIff(code, r, nameOf, a, n, given, kinds[i]);
    }
    forall i, j | 0 <= i < |kinds| && 0 <= j < |kinds|
      ensures Apart(cuts[i], cuts[j]) <==> FitTogether(a, n, kinds[i], kinds[j])
    {
      ApartIff(a, n, kinds[i], kinds[j]);
    }
    if AllAddable(code, kept, cuts) {
      forall k, l | k != l && NewAddress(n, k).Some? && NewAddress(n, l).Some?
        ensures FitTogether(a, n, k, l)
      {
        var i :| 0 <= i < |kinds| && kinds[i] == k;
        var j :| 0 <= j < |kinds| && kinds[j] == l;
        if i < j {
          assert Apart(cuts[i], cuts[j]);
        } else {
          assert Apart(cuts[j], cuts[i]);
          TogetherEitherWay(a, n, k, l);
        }
      }
    }
  }

  lemma {:induction false} TogetherEitherWay(a: Artifacts, n: NewFacets, k: FacetKind, l: FacetKind)
    requires NewAddress(n, k).Some? && NewAddress(n, l).Some?
    ensures FitTogether(a, n, k, l) <==> FitTogether(a, n, l, k)
  {
  }

  lemma {:induction false} CutsByKind(a: Artifacts, n: NewFacets)
    ensures |Cuts(CutsForAdd(a, n))| == |Kinds(n)|
    ensures forall i :: 0 <= i < |Kinds(n)| ==>
      NewAddress(n, Kinds(n)[i]).Some? && Cuts(CutsForAdd(a, n))[i] == CutOf(a, n, Kinds(n)[i])
  {
    hide CutsForAdd, CutOf, NewAddress, Kinds, Cuts;
    AddsByKind(a, n);
    NoCuts();
    forall i | 0 <= i < |Kinds(n)|
      ensures |Cuts(CutsForAdd(a, n))| == |Kinds(n)| && Cuts(CutsForAdd(a, n))[i] == CutOf(a, n, Kinds(n)[i])
    {
      CutsInclude(CutsForAdd(a, n), i);
    }
    if |Kinds(n)| > 0 {
      CutsInclude(CutsForAdd(a, n), 0);
    } else {
      assert CutsForAdd(a, n) == [];
    }
  }

  lemma {:induction false} NoCuts()
    ensures Cuts([]) == []
  {
  }

  /** The routes after an upgrade that applies. */
  lemma {:induction false} RoutesAfter(
    code: set<Address>, r: Routes, nameOf: Address -> string, a: Artifacts, n: NewFacets, given: Option<seq<string>>)
    requires Compatible(code, r, nameOf, a, n, given)
    ensures var adds := CutsForAdd(a, n);
      Upgraded(r, nameOf, a, n, given, Retained(r, nameOf, RemovedNames(given, adds)) + AllNewRoutes(Cuts(adds)))
  {
    hide Retained, RemovedNames, CutsForAdd, NewAddress, CutOf, Kinds, Cuts, AllNewRoutes, Serves, Stays, AllAddable,
         Compatible;
    var adds := CutsForAdd(a, n);
    var kept, cuts, kinds := Retained(r, nameOf, RemovedNames(given, adds)), Cuts(adds), Kinds(n);
    var new' := AllNewRoutes(cuts);
    AddableIff(code, r, nameOf, a, n, given);
    RetainedIff(r, nameOf, a, n, given);
    CutsByKind(a, n);
    KindsAreNew(n);
    forall kind, s | NewAddress(n, kind).Some? && Serves(a, kind, s)
      ensures s in new' && new'[s] == Route(NewAddress(n, kind).value, CanFreeze(kind))
    {
      ServedRoute(code, kept, a, n, kind, s);
    }
    forall s | s in new'
      ensures exists kind :: NewAddress(n, kind).Some? && Serves(a, kind, s)
    {
      var j := NewFrom(cuts, s);
      ServesIff(a, n, kinds[j]);
    }
    forall s | s in kept
      ensures s !in new'
    {
      KeptUntouched(code, kept, cuts, s);
    }
    StaysInside(r, nameOf, given, n);
  }

  lemma {:induction false} StaysInside(r: Routes, nameOf: Address -> string, given: Option<seq<string>>, n: NewFacets)
    ensures forall s :: Stays(r, nameOf, given, n, s) ==> s in r
  {
  }

  lemma {:induction false} ServedRoute(
    code: set<Address>, kept: Routes, a: Artifacts, n: NewFacets, kind: FacetKind, s: Selector)
    requires AllAddable(code, kept, Cuts(CutsForAdd(a, n))) && NewAddress(n, kind).Some? && Serves(a, kind, s)
    ensures var routes := AllNewRoutes(Cuts(CutsForAdd(a, n)));
      s in routes && routes[s] == Route(NewAddress(n, kind).value, CanFreeze(kind))
  {
    hide CutsForAdd, NewAddress, Kinds, Cuts, AllNewRoutes, Serves, AllAddable, AllSelectors;
    CutsByKind(a, n);
    KindsAreNew(n);
    ServesIff(a, n, kind);
    assert kind in Kinds(n);
    var i :| 0 <= i < |Kinds(n)| && Kinds(n)[i] == kind;
    NewSelectorsRouted(code, kept, Cuts(CutsForAdd(a, n)), i, s);
  }

  /** For every diamond: the upgrade applies to it exactly when it is compatible, and leaves the routes it should. */
  lemma {:induction false} UpgradeExact(
    code: set<Address>, r: Routes, facets: seq<Facet>, nameOf: Address -> string, a: Artifacts, n: NewFacets,
    given: Option<seq<string>>)
    requires Reports(facets, r)
    ensures var adds := CutsForAdd(a, n);
      var after := ApplyCuts(code, r, RemoveCuts(facets, nameOf, RemovedNames(given, adds)) + Cuts(adds));
      && (after.Some? <==> Compatible(code, r, nameOf, a, n, given))
      && (after.Some? ==> Upgraded(r, nameOf, a, n, given, after.value))
  {
    hide Reports, ApplyCuts, RemoveCuts, RemovedNames, Cuts, CutsForAdd, Compatible, Upgraded, AllAddable, AllNewRoutes,
         Retained;
    UpgradeApplies(code, r, facets, nameOf, a, n, given);
    AddableIff(code, r, nameOf, a, n, given);
    if Compatible(code, r, nameOf, a, n, given) {
      RoutesAfter(code, r, nameOf, a, n, given);
    }
  }

  lemma {:induction false} NamesDiffer(k: FacetKind, l: FacetKind)
    requires ContractName(k) == ContractName(l)
    ensures k == l
  {
    assert ContractName(k)[0] == (match k case Admin => 'A' case Getters => 'G' case Mailbox => 'M' case Executor => 'E');
    assert ContractName(l)[0] == (match l case Admin => 'A' case Getters => 'G' case Mailbox => 'M' case Executor => 'E');
  }

  /**
   New versions of facets, at new addresses and with functions that the old versions had, always replace them:
   by default the old versions go first.
   */
  lemma {:induction false} NewVersionsFit(
    code: set<Address>, r: Routes, nameOf: Address -> string, a: Artifacts, n: NewFacets)
    requires forall kind :: NewAddress(n, kind).Some? ==>
      && NewAddress(n, kind).value in code && Distinct(a, a.signatures(ContractName(kind)))
      && (exists s :: Serves(a, kind, s))
      && (forall s :: Serves(a, kind, s) ==> s in r && nameOf(r[s].facet) == ContractName(kind))
      && (forall s :: s in r ==> r[s].facet != NewAddress(n, kind).value)
    requires forall k, l :: k != l && NewAddress(n, k).Some? ==> NewAddress(n, k) != NewAddress(n, l)
    ensures Compatible(code, r, nameOf, a, n, None)
  {
    hide ContractName, NewAddress, Serves, Distinct;
    forall kind, s | NewAddress(n, kind).Some? && Serves(a, kind, s)
      ensures !Stays(r, nameOf, None, n, s)
    {
    }
    forall k, l, s | k != l && NewAddress(n, k).Some? && NewAddress(n, l).Some? && Serves(a, k, s)
      ensures !Serves(a, l, s)
    {
      if Serves(a, l, s) {
        NamesDiffer(k, l);
      }
    }
  }

  /** The cuts built from what a diamond reports, applied to that diamond. */
  method UpgradeDiamond(d: DiamondStorage, nameOf: Address -> string, a: Artifacts, n: NewFacets,
                        given: Option<seq<string>>)
    returns (ok: bool)
    requires d.Valid()
    modifies d
    ensures d.Valid()
    ensures ok <==> Compatible(d.code, old(d.GetRoutes()), nameOf, a, n, given)
    ensures ok ==> Upgraded(old(d.GetRoutes()), nameOf, a, n, given, d.GetRoutes())
    ensures !ok ==> d.GetRoutes() == old(d.GetRoutes())
  {
    hide SelectorsLinked, FacetsLinked, ApplyCuts, Reports, RemoveCuts, Cuts, CutsForAdd, RemovedNames, FacetList,
         FreezableByFacet, Compatible, Upgraded;
    var facets := FacetList(d.facetToSelectors, d.facets);
    StorageReports(d.selectorToFacet, d.facetToSelectors, d.facets);
    UpgradeExact(d.code, d.GetRoutes(), facets, nameOf, a, n, given);
    var cuts := FacetCutsForUpgrade(a, facets, nameOf, n, given);
    ok := d.DiamondCut(cuts);
  }
}
