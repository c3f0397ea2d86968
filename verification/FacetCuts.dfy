/**
 The cuts that upgrade a diamond: all functions of the replaced facets are removed, and
 those of the new facets are added.
 */
module FacetCuts {
  import opened Text
  import opened Diamond

  /** A facet as the diamond reports it. */
  datatype Facet = Facet(addr: Address, selectors: seq<Selector>)

  /** The addresses of the new facets; a facet that is not deployed anew has none. */
  datatype NewFacets = NewFacets(
    admin: Option<Address>, getters: Option<Address>, mailbox: Option<Address>, executor: Option<Address>)

  /** Contract artifacts: the function signatures of a contract, and the selector of a signature. */
  datatype Artifacts = Artifacts(signatures: string -> seq<string>, sighash: string -> Selector)

  const UNCONDITIONALLY_REMOVED_FACETS := ["DiamondCutFacet", "GovernanceFacet"]

  /******* Building the cuts *******/

  /** `getAllSelectors`: every facet has a `getName()`, which is not routed. */
  function AllSelectors(a: Artifacts, signatures: seq<string>): (r: seq<Selector>) {
    if signatures == [] then []
    else (if signatures[0] == "getName()" then [] else [a.sighash(signatures[0])]) + AllSelectors(a, signatures[1..])
  }

  function NamedCut(a: Artifacts, name: string, address: Option<Address>, isFreezable: bool): seq<(string, FacetCut)> {
    if address.None? then []
    else [(name, FacetCut(address.value, AllSelectors(a, a.signatures(name)), Add, isFreezable))]
  }

  /** `getCurrentFacetCutsForAdd`: the facets needed to unfreeze and to read are never freezable. */
  function CutsForAdd(a: Artifacts, n: NewFacets): seq<(string, FacetCut)> {
    NamedCut(a, "AdminFacet", n.admin, false) + NamedCut(a, "GettersFacet", n.getters, false)
    + NamedCut(a, "MailboxFacet", n.mailbox, true) + NamedCut(a, "ExecutorFacet", n.executor, true)
  }

  function Names(cuts: seq<(string, FacetCut)>): seq<string> {
    if cuts == [] then [] else [cuts[0].0] + Names(cuts[1..])
  }

  function Cuts(cuts: seq<(string, FacetCut)>): seq<FacetCut> {
    if cuts == [] then [] else [cuts[0].1] + Cuts(cuts[1..])
  }

  function RemoveCut(f: Facet): FacetCut {
    FacetCut(ZERO, f.selectors, Remove, false)
  }

  function RemoveCuts(facets: seq<Facet>, nameOf: Address -> string, names: seq<string>): seq<FacetCut> {
    if facets == [] then []
    else
      (if nameOf(facets[0].addr) in names then [RemoveCut(facets[0])] else [])
      + RemoveCuts(facets[1..], nameOf, names)
  }

  lemma {:induction false} RemoveCutsConcat(a: seq<Facet>, b: seq<Facet>, nameOf: Address -> string, names: seq<string>)
    ensures RemoveCuts(a + b, nameOf, names) == RemoveCuts(a, nameOf, names) + RemoveCuts(b, nameOf, names)
  {
    hide RemoveCut;
    if a == [] {
      assert a + b == b;
    } else {
      assert (a + b)[0] == a[0] && (a + b)[1..] == a[1..] + b;
      RemoveCutsConcat(a[1..], b, nameOf, names);
      Assoc(if nameOf(a[0].addr) in names then [RemoveCut(a[0])] else [], RemoveCuts(a[1..], nameOf, names),
            RemoveCuts(b, nameOf, names));
    }
  }

  /** `getDeployedFacetCutsForRemove` */
  method DeployedFacetCutsForRemove(facets: seq<Facet>, nameOf: Address -> string, names: seq<string>)
    returns (result: seq<FacetCut>)
    ensures result == RemoveCuts(facets, nameOf, names)
  {
    result := [];
    for i := 0 to |facets|
      invariant result == RemoveCuts(facets[..i], nameOf, names)
    {
      assert facets[..i + 1] == facets[..i] + [facets[i]];
      RemoveCutsConcat(facets[..i], [facets[i]], nameOf, names);
      if nameOf(facets[i].addr) in names {
        result := result + [FacetCut(ZERO, facets[i].selectors, Remove, false)];
      }
    }
    assert facets[..|facets|] == facets;
  }

  /** The names of the facets to be removed, unless they are given. */
  function RemovedNames(given: Option<seq<string>>, adds: seq<(string, FacetCut)>): seq<string> {
    if given.Some? then given.value else UNCONDITIONALLY_REMOVED_FACETS + Names(adds)
  }

  /** `getFacetCutsForUpgrade` */
  method FacetCutsForUpgrade(a: Artifacts, facets: seq<Facet>, nameOf: Address -> string, n: NewFacets,
                             given: Option<seq<string>>)
    returns (r: seq<FacetCut>)
    ensures var adds := CutsForAdd(a, n);
      r == RemoveCuts(facets, nameOf, RemovedNames(given, adds)) + Cuts(adds)
  {
    var newFacetCuts := CutsForAdd(a, n);
    var names := if given.Some? then given.value else UNCONDITIONALLY_REMOVED_FACETS + Names(newFacetCuts);
    var oldFacetCuts := DeployedFacetCutsForRemove(facets, nameOf, names);
    r := oldFacetCuts + Cuts(newFacetCuts);
  }

  /******* What the diamond reports *******/

  ghost predicate NoRepeats(selectors: seq<Selector>) {
    forall i, j :: 0 <= i < j < |selectors| ==> selectors[i] != selectors[j]
  }

  /** The list shows every route once, under its facet, and no facet without routes. */
  ghost predicate Reports(facets: seq<Facet>, r: Routes) {
    && (forall i, s :: 0 <= i < |facets| && s in facets[i].selectors ==> s in r && r[s].facet == facets[i].addr)
    && (forall s :: s in r ==> exists i :: 0 <= i < |facets| && s in facets[i].selectors)
    && (forall i, j :: 0 <= i < j < |facets| ==> facets[i].addr != facets[j].addr)
    && (forall i :: 0 <= i < |facets| ==> facets[i].selectors != [] && NoRepeats(facets[i].selectors))
  }

  /** `facets()` of the getters facet. */
  function FacetList(fac: FacetTable, facets: seq<Address>): (r: seq<Facet>)
    ensures |r| == |facets|
  {
    seq(|facets|, i requires 0 <= i < |facets| => Facet(facets[i], SelectorsOf(fac, facets[i])))
  }

  lemma {:induction false} ListedIsRoute(sel: SelectorTable, fac: FacetTable, f: Address, s: Selector)
    requires SelectorsLinked(sel, fac) && s in SelectorsOf(fac, f)
    ensures s in RoutesOf(sel) && RoutesOf(sel)[s].facet == f
  {
    var k :| 0 <= k < |SelectorsOf(fac, f)| && SelectorsOf(fac, f)[k] == s;
    assert ListedAt(sel, fac, f, k);
  }

  lemma {:induction false} RouteIsListed(sel: SelectorTable, fac: FacetTable, facets: seq<Address>, s: Selector)
    requires SelectorsLinked(sel, fac) && FacetsLinked(fac, facets, {}) && s in RoutesOf(sel)
    ensures exists i :: 0 <= i < |facets| && s in SelectorsOf(fac, facets[i])
  {
    var f := sel[s].facet;
    assert SelectorsOf(fac, f)[sel[s].position] == s;
    assert facets[fac[f].position] == f;
  }

  lemma {:induction false} ListsDoNotRepeat(sel: SelectorTable, fac: FacetTable, f: Address)
    requires SelectorsLinked(sel, fac)
    ensures NoRepeats(SelectorsOf(fac, f))
  {
    var list := SelectorsOf(fac, f);
    forall j, k | 0 <= j < k < |list|
      ensures list[j] != list[k]
    {
      assert ListedAt(sel, fac, f, j) && ListedAt(sel, fac, f, k);
    }
  }

  lemma {:induction false} FacetsApart(fac: FacetTable, facets: seq<Address>)
    requires FacetsLinked(fac, facets, {})
    ensures forall i, j :: 0 <= i < j < |facets| ==> facets[i] != facets[j]
    ensures forall i :: 0 <= i < |facets| ==> SelectorsOf(fac, facets[i]) != []
  {
  }

  /** The storage invariant makes the reported list complete and free of repetitions. */
  lemma {:induction false} StorageReports(sel: SelectorTable, fac: FacetTable, facets: seq<Address>)
    requires SelectorsLinked(sel, fac) && FacetsLinked(fac, facets, {})
    ensures Reports(FacetList(fac, facets), RoutesOf(sel))
  {
    hide SelectorsLinked, FacetsLinked, RoutesOf, SelectorsOf, NoRepeats;
    var list, r := FacetList(fac, facets), RoutesOf(sel);
    FacetsApart(fac, facets);
    forall i, s | 0 <= i < |list| && s in list[i].selectors
      ensures s in r && r[s].facet == list[i].addr
    {
      ListedIsRoute(sel, fac, facets[i], s);
    }
    forall s | s in r
      ensures exists i :: 0 <= i < |list| && s in list[i].selectors
    {
      RouteIsListed(sel, fac, facets, s);
      var i :| 0 <= i < |facets| && s in SelectorsOf(fac, facets[i]);
      assert s in list[i].selectors;
    }
    forall i | 0 <= i < |list|
      ensures NoRepeats(list[i].selectors)
    {
      ListsDoNotRepeat(sel, fac, facets[i]);
    }
  }

  /******* Removing the old facets *******/

  function SetOf(selectors: seq<Selector>): set<Selector> {
    set s | s in selectors
  }

  lemma {:induction false} RemoveAll(r: Routes, cut: FacetCut, selectors: seq<Selector>)
    requires cut.action == Remove && NoRepeats(selectors) && SetOf(selectors) <= r.Keys
    ensures ApplySelectors(r, cut, selectors) == Some(r - SetOf(selectors))
    decreases |selectors|
  {
    if selectors == [] {
      assert r - SetOf(selectors) == r;
    } else {
      var s, rest := selectors[0], selectors[1..];
      assert s in SetOf(selectors);
      assert SetOf(selectors) == {s} + SetOf(rest);
      assert forall k :: 0 <= k < |rest| ==> rest[k] == selectors[k + 1];
      assert NoRepeats(rest);
      RemoveAll(r - {s}, cut, rest);
      assert (r - {s}) - SetOf(rest) == r - SetOf(selectors);
    }
  }

  /** Like `Reports`, for a part of the facets. */
  ghost predicate ReportsPart(facets: seq<Facet>, r: Routes) {
    && (forall i, s :: 0 <= i < |facets| && s in facets[i].selectors ==> s in r && r[s].facet == facets[i].addr)
    && (forall i, j :: 0 <= i < j < |facets| ==> facets[i].addr != facets[j].addr)
    && (forall i :: 0 <= i < |facets| ==> facets[i].selectors != [] && NoRepeats(facets[i].selectors))
  }

  /** The selectors of the facets with these names. */
  function Dropped(facets: seq<Facet>, nameOf: Address -> string, names: seq<string>): set<Selector> {
    if facets == [] then {}
    else
      (if nameOf(facets[0].addr) in names then SetOf(facets[0].selectors) else {})
      + Dropped(facets[1..], nameOf, names)
  }

  lemma {:induction false} ReportsRest(facets: seq<Facet>, r: Routes)
    requires facets != [] && ReportsPart(facets, r)
    ensures ReportsPart(facets[1..], r) && ReportsPart(facets[1..], r - SetOf(facets[0].selectors))
    ensures SetOf(facets[0].selectors) <= r.Keys
  {
    var rest := facets[1..];
    assert forall i :: 0 <= i < |rest| ==> rest[i] == facets[i + 1];
    forall i, s | 0 <= i < |rest| && s in rest[i].selectors
      ensures s in r - SetOf(facets[0].selectors) && r[s].facet == rest[i].addr
    {
      assert s in facets[i + 1].selectors && facets[0].addr != facets[i + 1].addr;
      assert r[s].facet != facets[0].addr;
    }
  }

  lemma {:induction false} RemovalsApply(
    code: set<Address>, r: Routes, facets: seq<Facet>, nameOf: Address -> string, names: seq<string>)
    requires ReportsPart(facets, r)
    ensures ApplyCuts(code, r, RemoveCuts(facets, nameOf, names)) == Some(r - Dropped(facets, nameOf, names))
    decreases |facets|
  {
    hide ReportsPart, ApplySelectors;
    if facets == [] {
      assert r - {} == r;
    } else {
      var f, rest := facets[0], facets[1..];
      ReportsRest(facets, r);
      if nameOf(f.addr) in names {
        FirstFacet(facets, r);
        RemoveAll(r, RemoveCut(f), f.selectors);
        var r' := r - SetOf(f.selectors);
        RemovalsApply(code, r', rest, nameOf, names);
        assert RemoveCuts(facets, nameOf, names)[1..] == RemoveCuts(rest, nameOf, names);
        assert r' - Dropped(rest, nameOf, names) == r - Dropped(facets, nameOf, names);
      } else {
        RemovalsApply(code, r, rest, nameOf, names);
        assert RemoveCuts(facets, nameOf, names) == RemoveCuts(rest, nameOf, names);
        assert Dropped(facets, nameOf, names) == Dropped(rest, nameOf, names);
      }
    }
  }

  lemma {:induction false} FirstFacet(facets: seq<Facet>, r: Routes)
    requires facets != [] && ReportsPart(facets, r)
    ensures facets[0].selectors != [] && NoRepeats(facets[0].selectors)
  {
  }

  /** The routes of the facets that are kept. */
  function Retained(r: Routes, nameOf: Address -> string, names: seq<string>): Routes {
    map s | s in r && nameOf(r[s].facet) !in names :: r[s]
  }

  lemma {:induction false} DroppedIff(facets: seq<Facet>, nameOf: Address -> string, names: seq<string>, s: Selector)
    ensures s in Dropped(facets, nameOf, names)
       <==> exists i :: 0 <= i < |facets| && nameOf(facets[i].addr) in names && s in facets[i].selectors
  {
    if facets != [] {
      DroppedIff(facets[1..], nameOf, names, s);
      assert forall i :: 0 <= i < |facets[1..]| ==> facets[1..][i] == facets[i + 1];
    }
  }

  lemma {:induction false} DroppedAreReplaced(
    facets: seq<Facet>, r: Routes, nameOf: Address -> string, names: seq<string>)
    requires Reports(facets, r)
    ensures r - Dropped(facets, nameOf, names) == Retained(r, nameOf, names)
  {
    forall s | s in r
      ensures s in Dropped(facets, nameOf, names) <==> nameOf(r[s].facet) in names
    {
      DroppedIff(facets, nameOf, names, s);
    }
  }

  /******* Adding the new facets *******/

  function NewRoutes(cut: FacetCut): Routes {
    map s | s in cut.selectors :: Route(cut.facet, cut.isFreezable)
  }

  function AllNewRoutes(cuts: seq<FacetCut>): Routes {
    if cuts == [] then map[] else NewRoutes(cuts[0]) + AllNewRoutes(cuts[1..])
  }

  ghost predicate Disjoint(a: seq<Selector>, b: set<Selector>) {
    forall i :: 0 <= i < |a| ==> a[i] !in b
  }

  lemma {:induction false} AddAll(r: Routes, cut: FacetCut, selectors: seq<Selector>)
    requires cut.action == Add
    ensures ApplySelectors(r, cut, selectors)
         == if selectors == [] || (Matches(r, cut.facet, cut.isFreezable) && NoRepeats(selectors)
                                   && Disjoint(selectors, r.Keys))
            then Some(r + NewRoutes(cut.(selectors := selectors))) else None
    decreases |selectors|
  {
    hide Matches, NoRepeats, Disjoint, NewRoutes;
    if selectors == [] {
      NoNewRoutes(r, cut);
    } else {
      var s, rest := selectors[0], selectors[1..];
      if s in r {
        BoundIsNotFresh(selectors, r.Keys);
      } else if Matches(r, cut.facet, cut.isFreezable) {
        var r' := r[s := Route(cut.facet, cut.isFreezable)];
        AddAll(r', cut, rest);
        MatchesItself(r, cut, s);
        RestFresh(selectors, r.Keys);
        NothingFresh(r'.Keys);
        assert r'.Keys == r.Keys + {s};
        NewRoutesCons(r, cut, selectors);
      }
    }
  }

  lemma {:induction false} NewRoutesCons(r: Routes, cut: FacetCut, selectors: seq<Selector>)
    requires selectors != []
    ensures r[selectors[0] := Route(cut.facet, cut.isFreezable)] + NewRoutes(cut.(selectors := selectors[1..]))
         == r + NewRoutes(cut.(selectors := selectors))
  {
    assert selectors == [selectors[0]] + selectors[1..];
  }

  lemma {:induction false} NoNewRoutes(r: Routes, cut: FacetCut)
    ensures r + NewRoutes(cut.(selectors := [])) == r
  {
  }

  lemma {:induction false} BoundIsNotFresh(selectors: seq<Selector>, keys: set<Selector>)
    requires selectors != [] && selectors[0] in keys
    ensures !Disjoint(selectors, keys)
  {
  }

  lemma {:induction false} NothingFresh(keys: set<Selector>)
    ensures NoRepeats([]) && Disjoint([], keys)
  {
  }

  lemma {:induction false} MatchesItself(r: Routes, cut: FacetCut, s: Selector)
    requires Matches(r, cut.facet, cut.isFreezable)
    ensures Matches(r[s := Route(cut.facet, cut.isFreezable)], cut.facet, cut.isFreezable)
  {
  }

  lemma {:induction false} RestFresh(selectors: seq<Selector>, keys: set<Selector>)
    requires selectors != [] && selectors[0] !in keys
    ensures NoRepeats(selectors) && Disjoint(selectors, keys)
       <==> NoRepeats(selectors[1..]) && Disjoint(selectors[1..], keys + {selectors[0]})
  {
    var rest := selectors[1..];
    assert forall i :: 0 <= i < |rest| ==> rest[i] == selectors[i + 1];
    if NoRepeats(rest) && Disjoint(rest, keys + {selectors[0]}) {
      forall i, j | 0 <= i < j < |selectors|
        ensures selectors[i] != selectors[j]
      {
        assert selectors[j] == rest[j - 1];
        if i > 0 {
          assert rest[i - 1] != rest[j - 1];
        }
      }
      forall i | 0 <= i < |selectors|
        ensures selectors[i] !in keys
      {
        assert i > 0 ==> rest[i - 1] !in keys + {selectors[0]};
      }
    }
    if NoRepeats(selectors) && Disjoint(selectors, keys) {
      forall i | 0 <= i < |rest|
        ensures rest[i] !in keys + {selectors[0]}
      {
        assert selectors[0] != selectors[i + 1] && selectors[i + 1] !in keys;
      }
    }
  }

  /** One new facet can be added to the routes `r`. */
  ghost predicate Addable(code: set<Address>, r: Routes, cut: FacetCut) {
    && cut.facet in code && cut.selectors != [] && NoRepeats(cut.selectors)
    && Disjoint(cut.selectors, r.Keys) && Matches(r, cut.facet, cut.isFreezable)
  }

  /** The new facets do not get in each other's way. */
  ghost predicate Apart(a: FacetCut, b: FacetCut) {
    Disjoint(b.selectors, SetOf(a.selectors)) && (a.facet == b.facet ==> a.isFreezable == b.isFreezable)
  }

  /** Every new facet can be added, and no two of them share a selector or disagree about a facet. */
  ghost predicate AllAddable(code: set<Address>, r: Routes, cuts: seq<FacetCut>) {
    && (forall i :: 0 <= i < |cuts| ==> Addable(code, r, cuts[i]))
    && (forall i, j :: 0 <= i < j < |cuts| ==> Apart(cuts[i], cuts[j]))
  }

  lemma {:induction false} AddableAfter(code: set<Address>, r: Routes, first: FacetCut, cut: FacetCut)
    requires Addable(code, r, first)
    ensures Addable(code, r + NewRoutes(first), cut) <==> Addable(code, r, cut) && Apart(first, cut)
  {
    var r' := r + NewRoutes(first);
    assert r'.Keys == r.Keys + SetOf(first.selectors);
    assert Disjoint(cut.selectors, r'.Keys)
      <==> Disjoint(cut.selectors, r.Keys) && Disjoint(cut.selectors, SetOf(first.selectors));
    assert first.selectors[0] in NewRoutes(first);
    assert r'[first.selectors[0]] == Route(first.facet, first.isFreezable);
    assert Matches(r', cut.facet, cut.isFreezable)
      <==> Matches(r, cut.facet, cut.isFreezable) && (first.facet == cut.facet ==> first.isFreezable == cut.isFreezable)
    by {
      forall s | s in r
        ensures r'[s] == r[s]
      {
      }
    }
  }

  lemma {:induction false} AddsApply(code: set<Address>, r: Routes, cuts: seq<FacetCut>)
    requires forall i :: 0 <= i < |cuts| ==> cuts[i].action == Add
    ensures ApplyCuts(code, r, cuts) == if AllAddable(code, r, cuts) then Some(r + AllNewRoutes(cuts)) else None
    decreases |cuts|
  {
    hide Addable, Apart, ApplySelectors, ApplyCut, NewRoutes;
    if cuts == [] {
      assert r + map[] == r;
    } else {
      var first, rest := cuts[0], cuts[1..];
      AddOneCut(code, r, first);
      if Addable(code, r, first) {
        var r' := r + NewRoutes(first);
        AddsApply(code, r', rest);
        forall i | 0 <= i < |rest|
          ensures Addable(code, r', rest[i]) <==> Addable(code, r, rest[i]) && Apart(first, rest[i])
        {
          AddableAfter(code, r, first, rest[i]);
        }
        AddableCons(code, r, cuts);
        assert r' + AllNewRoutes(rest) == r + AllNewRoutes(cuts);
      }
    }
  }

  lemma {:induction false} AddOneCut(code: set<Address>, r: Routes, cut: FacetCut)
    requires cut.action == Add
    ensures ApplyCut(code, r, cut) == if Addable(code, r, cut) then Some(r + NewRoutes(cut)) else None
  {
    AddAll(r, cut, cut.selectors);
    assert cut.(selectors := cut.selectors) == cut;
  }

  lemma {:induction false} AddableCons(code: set<Address>, r: Routes, cuts: seq<FacetCut>)
    requires cuts != []
    ensures AllAddable(code, r, cuts)
       <==> (&& Addable(code, r, cuts[0])
             && (forall i :: 0 <= i < |cuts[1..]| ==> Addable(code, r, cuts[1..][i]) && Apart(cuts[0], cuts[1..][i]))
             && (forall i, j :: 0 <= i < j < |cuts[1..]| ==> Apart(cuts[1..][i], cuts[1..][j])))
  {
    hide Addable, Apart;
    var rest := cuts[1..];
    assert forall i :: 0 <= i < |rest| ==> rest[i] == cuts[i + 1];
    if Addable(code, r, cuts[0])
       && (forall i :: 0 <= i < |rest| ==> Addable(code, r, rest[i]) && Apart(cuts[0], rest[i]))
       && (forall i, j :: 0 <= i < j < |rest| ==> Apart(rest[i], rest[j])) {
      forall i | 0 <= i < |cuts|
        ensures Addable(code, r, cuts[i])
      {
        assert i > 0 ==> cuts[i] == rest[i - 1];
      }
      forall i, j | 0 <= i < j < |cuts|
        ensures Apart(cuts[i], cuts[j])
      {
        assert cuts[j] == rest[j - 1];
        assert i > 0 ==> cuts[i] == rest[i - 1];
      }
    }
    if AllAddable(code, r, cuts) {
      forall i, j | 0 <= i < j < |rest|
        ensures Apart(rest[i], rest[j])
      {
        assert Apart(cuts[i + 1], cuts[j + 1]);
      }
      forall i | 0 <= i < |rest|
        ensures Addable(code, r, rest[i]) && Apart(cuts[0], rest[i])
      {
        assert Addable(code, r, cuts[i + 1]) && Apart(cuts[0], cuts[i + 1]);
      }
    }
  }

  /******* The upgrade *******/

  lemma {:induction false} CutsConcat(code: set<Address>, r: Routes, a: seq<FacetCut>, b: seq<FacetCut>)
    ensures var first := ApplyCuts(code, r, a);
      ApplyCuts(code, r, a + b) == if first.None? then None else ApplyCuts(code, first.value, b)
    decreases |a|
  {
    hide ApplyCut;
    if a == [] {
      assert a + b == b;
    } else {
      assert (a + b)[1..] == a[1..] + b;
      var first := ApplyCut(code, r, a[0]);
      if first.Some? {
        CutsConcat(code, first.value, a[1..], b);
      }
    }
  }

  lemma {:induction false} CutsAreAdds(cuts: seq<(string, FacetCut)>)
    requires forall i :: 0 <= i < |cuts| ==> cuts[i].1.action == Add
    ensures forall i :: 0 <= i < |Cuts(cuts)| ==> Cuts(cuts)[i].action == Add
  {
    if cuts != [] {
      CutsAreAdds(cuts[1..]);
    }
  }

  lemma {:induction false} AddsAreAdds(a: Artifacts, n: NewFacets)
    ensures forall i :: 0 <= i < |Cuts(CutsForAdd(a, n))| ==> Cuts(CutsForAdd(a, n))[i].action == Add
  {
    CutsAreAdds(CutsForAdd(a, n));
  }

  /**
   Applying the upgrade to the diamond it was read from: it goes through exactly when the new facets have
   code and selectors, and these selectors are distinct, unbound in the facets that stay, and agree in
   freezability with the facets they join. Then the facets that stay are untouched, and every new selector
   leads to its new facet.
   */
  lemma {:induction false} UpgradeApplies(
    code: set<Address>, r: Routes, facets: seq<Facet>, nameOf: Address -> string, a: Artifacts, n: NewFacets,
    given: Option<seq<string>>)
    requires Reports(facets, r)
    ensures var adds := CutsForAdd(a, n);
      var names := RemovedNames(given, adds);
      var kept := Retained(r, nameOf, names);
      ApplyCuts(code, r, RemoveCuts(facets, nameOf, names) + Cuts(adds))
      == if AllAddable(code, kept, Cuts(adds)) then Some(kept + AllNewRoutes(Cuts(adds))) else None
  {
    hide AllAddable, ApplyCuts, Retained, Dropped, RemoveCuts, Cuts, CutsForAdd, AllNewRoutes, RemovedNames;
    var adds := CutsForAdd(a, n);
    var names := RemovedNames(given, adds);
    RemovalsApply(code, r, facets, nameOf, names);
    DroppedAreReplaced(facets, r, nameOf, names);
    AddsAreAdds(a, n);
    CutsConcat(code, r, RemoveCuts(facets, nameOf, names), Cuts(adds));
    AddsApply(code, Retained(r, nameOf, names), Cuts(adds));
  }

  /** After the upgrade the routes of the kept facets are unchanged. */
  lemma {:induction false} KeptUntouched(code: set<Address>, kept: Routes, cuts: seq<FacetCut>, s: Selector)
    requires AllAddable(code, kept, cuts) && s in kept
    ensures s !in AllNewRoutes(cuts)
    decreases |cuts|
  {
    if cuts != [] {
      AddableCons(code, kept, cuts);
      assert Addable(code, kept, cuts[0]);
      KeptUntouched(code, kept, cuts[1..], s);
    }
  }

  /** After the upgrade every new selector leads to its own facet. */
  lemma {:induction false} NewSelectorsRouted(
    code: set<Address>, kept: Routes, cuts: seq<FacetCut>, i: nat, s: Selector)
    requires AllAddable(code, kept, cuts) && i < |cuts| && s in cuts[i].selectors
    ensures s in AllNewRoutes(cuts) && AllNewRoutes(cuts)[s] == Route(cuts[i].facet, cuts[i].isFreezable)
    decreases |cuts|
  {
    AddableCons(code, kept, cuts);
    var rest := cuts[1..];
    if i > 0 {
      assert rest[i - 1] == cuts[i];
      NewSelectorsRouted(code, kept, rest, i - 1, s);
    } else if s in AllNewRoutes(rest) {
      var j := NewFrom(rest, s);
    }
  }

  lemma {:induction false} NewFrom(cuts: seq<FacetCut>, s: Selector) returns (j: nat)
    requires s in AllNewRoutes(cuts)
    ensures j < |cuts| && s in cuts[j].selectors
  {
    if s in cuts[0].selectors {
      j := 0;
    } else {
      var k := NewFrom(cuts[1..], s);
      j := k + 1;
    }
  }

  /** The facets that an upgrade can deploy anew. */
  datatype FacetKind = Admin | Getters | Mailbox | Executor

  function ContractName(kind: FacetKind): string {
    match kind
    case Admin => "AdminFacet"
    case Getters => "GettersFacet"
    case Mailbox => "MailboxFacet"
    case Executor => "ExecutorFacet"
  }

  function NewAddress(n: NewFacets, kind: FacetKind): Option<Address> {
    match kind
    case Admin => n.admin
    case Getters => n.getters
    case Mailbox => n.mailbox
    case Executor => n.executor
  }

  /** Only the facets with user functions can be frozen, so that a frozen diamond can be read and unfrozen. */
  predicate CanFreeze(kind: FacetKind) {
    kind.Mailbox? || kind.Executor?
  }

  lemma {:induction false} SelectorsInclude(a: Artifacts, signatures: seq<string>, sig: string)
    requires sig in signatures && sig != "getName()"
    ensures a.sighash(sig) in AllSelectors(a, signatures)
  {
    if signatures[0] != sig {
      SelectorsInclude(a, signatures[1..], sig);
    }
  }

  lemma {:induction false} CutsInclude(cuts: seq<(string, FacetCut)>, k: nat)
    requires k < |cuts|
    ensures |Cuts(cuts)| == |cuts| && Cuts(cuts)[k] == cuts[k].1
  {
    if k > 0 {
      CutsInclude(cuts[1..], k - 1);
    } else if |cuts| > 1 {
      CutsInclude(cuts[1..], 0);
    }
  }

  lemma {:induction false} AddIncludes(a: Artifacts, n: NewFacets, kind: FacetKind) returns (k: nat)
    requires NewAddress(n, kind).Some?
    ensures k < |CutsForAdd(a, n)|
    ensures CutsForAdd(a, n)[k].1
         == FacetCut(NewAddress(n, kind).value, AllSelectors(a, a.signatures(ContractName(kind))), Add, CanFreeze(kind))
  {
    hide AllSelectors;
    var admin, getters := if n.admin.Some? then 1 else 0, if n.getters.Some? then 1 else 0;
    var mailbox := if n.mailbox.Some? then 1 else 0;
    k := match kind
      case Admin => 0
      case Getters => admin
      case Mailbox => admin + getters
      case Executor => admin + getters + mailbox;
  }

  /** After an upgrade every function of a new facet but `getName` leads to it, freezable for user facets only. */
  lemma {:induction false} NewFacetRouted(
    code: set<Address>, kept: Routes, a: Artifacts, n: NewFacets, kind: FacetKind, sig: string)
    requires AllAddable(code, kept, Cuts(CutsForAdd(a, n))) && NewAddress(n, kind).Some?
    requires sig in a.signatures(ContractName(kind)) && sig != "getName()"
    ensures var routes := AllNewRoutes(Cuts(CutsForAdd(a, n)));
      a.sighash(sig) in routes && routes[a.sighash(sig)] == Route(NewAddress(n, kind).value, CanFreeze(kind))
  {
    hide AllAddable, AllNewRoutes, CutsForAdd, Cuts, AllSelectors;
    var k := AddIncludes(a, n, kind);
    CutsInclude(CutsForAdd(a, n), k);
    SelectorsInclude(a, a.signatures(ContractName(kind)), sig);
    NewSelectorsRouted(code, kept, Cuts(CutsForAdd(a, n)), k, a.sighash(sig));
  }
}
