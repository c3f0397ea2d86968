/**
 The diamond proxy's table of functions: which facet serves each selector. The storage
 keeps, besides that table, a list of selectors for each facet and a list of facets, with
 positions back and forth, so that entries are removed by swapping in the last one.
 */
module Diamond {
  import opened Text

  /** An account, by its hex address. */
  type Address = string

  /** The four bytes that select a function, in hex. */
  type Selector = string

  const ZERO: Address := "0x0000000000000000000000000000000000000000"

  datatype Action = Add | Replace | Remove

  datatype FacetCut = FacetCut(facet: Address, selectors: seq<Selector>, action: Action, isFreezable: bool)

  datatype SelectorToFacet = SelectorToFacet(facet: Address, position: nat, isFreezable: bool)

  datatype FacetToSelectors = FacetToSelectors(selectors: seq<Selector>, position: nat)

  type SelectorTable = map<Selector, SelectorToFacet>

  type FacetTable = map<Address, FacetToSelectors>

  /******* What a cut means *******/

  datatype Route = Route(facet: Address, isFreezable: bool)

  /** The function table of EIP-2535: the facet that serves each selector, and whether it can be frozen. */
  type Routes = map<Selector, Route>

  /** All selectors of a facet share one freezability, which a new one has to match. */
  ghost predicate Matches(r: Routes, facet: Address, isFreezable: bool) {
    forall s :: s in r && r[s].facet == facet ==> r[s].isFreezable == isFreezable
  }

  ghost function AddOne(r: Routes, cut: FacetCut, s: Selector): Option<Routes> {
    if s in r || !Matches(r, cut.facet, cut.isFreezable) then None else Some(r[s := Route(cut.facet, cut.isFreezable)])
  }

  ghost function ApplyOne(r: Routes, cut: FacetCut, s: Selector): Option<Routes> {
    match cut.action
    case Add => AddOne(r, cut, s)
    case Replace => if s !in r then None else AddOne(r - {s}, cut, s)
    case Remove => if s !in r then None else Some(r - {s})
  }

  ghost function ApplySelectors(r: Routes, cut: FacetCut, selectors: seq<Selector>): Option<Routes>
    decreases |selectors|
  {
    if selectors == [] then Some(r)
    else
      var first := ApplyOne(r, cut, selectors[0]);
      if first.None? then None else ApplySelectors(first.value, cut, selectors[1..])
  }

  /** Facets without code cannot be added; removing takes the zero address; no cut is empty. */
  predicate CutAllowed(code: set<Address>, cut: FacetCut) {
    cut.selectors != [] && if cut.action == Remove then cut.facet == ZERO else cut.facet in code
  }

  ghost function ApplyCut(code: set<Address>, r: Routes, cut: FacetCut): Option<Routes> {
    if CutAllowed(code, cut) then ApplySelectors(r, cut, cut.selectors) else None
  }

  ghost function ApplyCuts(code: set<Address>, r: Routes, cuts: seq<FacetCut>): Option<Routes>
    decreases |cuts|
  {
    if cuts == [] then Some(r)
    else
      var first := ApplyCut(code, r, cuts[0]);
      if first.None? then None else ApplyCuts(code, first.value, cuts[1..])
  }

  /******* The invariant of the storage *******/

  function SelectorsOf(fac: FacetTable, f: Address): seq<Selector> {
    if f in fac then fac[f].selectors else []
  }

  /** Table and lists of selectors point at each other. */
  ghost predicate SelectorsLinked(sel: SelectorTable, fac: FacetTable) {
    && (forall s :: s in sel ==>
          sel[s].position < |SelectorsOf(fac, sel[s].facet)|
          && SelectorsOf(fac, sel[s].facet)[sel[s].position] == s)
    && (forall f, k :: 0 <= k < |SelectorsOf(fac, f)| ==> ListedAt(sel, fac, f, k))
  }

  ghost predicate ListedAt(sel: SelectorTable, fac: FacetTable, f: Address, k: nat)
    requires k < |SelectorsOf(fac, f)|
  {
    var s := SelectorsOf(fac, f)[k];
    s in sel && sel[s].facet == f && sel[s].position == k
  }

  /** The facets in the list are those with selectors; `extra` may be in the list without any. */
  ghost predicate FacetsLinked(fac: FacetTable, facets: seq<Address>, extra: set<Address>) {
    && (forall j :: 0 <= j < |facets| ==>
          facets[j] in fac && fac[facets[j]].position == j
          && (SelectorsOf(fac, facets[j]) != [] || facets[j] in extra))
    && (forall f :: f in fac && (fac[f].selectors != [] || f in extra) ==>
          fac[f].position < |facets| && facets[fac[f].position] == f)
  }

  ghost predicate FreezableByFacet(r: Routes) {
    forall s, t :: s in r && t in r && r[s].facet == r[t].facet ==> r[s].isFreezable == r[t].isFreezable
  }

  function RoutesOf(sel: SelectorTable): Routes {
    map s | s in sel :: Route(sel[s].facet, sel[s].isFreezable)
  }

  /******* Steps on the lists *******/

  /** Swap in the last element and drop the end. */
  function SwapPop<T>(list: seq<T>, i: nat): (r: seq<T>)
    requires i < |list|
    ensures |r| == |list| - 1
    ensures forall k :: 0 <= k < |r| ==> r[k] == if k == i then list[|list| - 1] else list[k]
  {
    list[i := list[|list| - 1]][..|list| - 1]
  }

  /** The tables after `_addOneFunction`. */
  function SelAdded(sel: SelectorTable, fac: FacetTable, f: Address, s: Selector, isFreezable: bool): SelectorTable {
    sel[s := SelectorToFacet(f, |SelectorsOf(fac, f)|, isFreezable)]
  }

  function FacAdded(fac: FacetTable, f: Address, s: Selector): FacetTable
    requires f in fac
  {
    fac[f := fac[f].(selectors := fac[f].selectors + [s])]
  }

  lemma {:induction false} AddKeepsLinks(
    sel: SelectorTable, fac: FacetTable, f: Address, s: Selector, isFreezable: bool)
    requires SelectorsLinked(sel, fac) && f in fac && s !in sel
    ensures SelectorsLinked(SelAdded(sel, fac, f, s, isFreezable), FacAdded(fac, f, s))
  {
    var sel', fac' := SelAdded(sel, fac, f, s, isFreezable), FacAdded(fac, f, s);
    forall g, k | 0 <= k < |SelectorsOf(fac', g)|
      ensures ListedAt(sel', fac', g, k)
    {
      if g == f && k == |SelectorsOf(fac, f)| {
      } else {
        assert ListedAt(sel, fac, g, k);
      }
    }
  }

  /** The tables after the selector at its position was swapped out and dropped. */
  function SelRemoved(sel: SelectorTable, fac: FacetTable, s: Selector): SelectorTable
    requires s in sel && sel[s].position < |SelectorsOf(fac, sel[s].facet)|
  {
    var list := SelectorsOf(fac, sel[s].facet);
    var last := list[|list| - 1];
    (if last == s || last !in sel then sel else sel[last := sel[last].(position := sel[s].position)]) - {s}
  }

  function FacRemoved(sel: SelectorTable, fac: FacetTable, s: Selector): FacetTable
    requires s in sel && sel[s].position < |SelectorsOf(fac, sel[s].facet)|
  {
    var f := sel[s].facet;
    fac[f := fac[f].(selectors := SwapPop(fac[f].selectors, sel[s].position))]
  }

  /** After the removal every list entry is still pointed at. */
  lemma {:induction false} RemovedListed(sel: SelectorTable, fac: FacetTable, s: Selector, g: Address, k: nat)
    requires SelectorsLinked(sel, fac) && s in sel
    requires k < |SelectorsOf(FacRemoved(sel, fac, s), g)|
    ensures ListedAt(SelRemoved(sel, fac, s), FacRemoved(sel, fac, s), g, k)
  {
    var f, i := sel[s].facet, sel[s].position;
    var end := |SelectorsOf(fac, f)| - 1;
    assert ListedAt(sel, fac, g, k);
    assert ListedAt(sel, fac, f, end) && ListedAt(sel, fac, f, i);
  }

  /** After the removal every table entry still points at its place. */
  lemma {:induction false} RemovedPoints(sel: SelectorTable, fac: FacetTable, s: Selector, t: Selector)
    requires SelectorsLinked(sel, fac) && s in sel && t in SelRemoved(sel, fac, s)
    ensures var sel', fac' := SelRemoved(sel, fac, s), FacRemoved(sel, fac, s);
      var list := SelectorsOf(fac', sel'[t].facet);
      sel'[t].position < |list| && list[sel'[t].position] == t
  {
    var f, i := sel[s].facet, sel[s].position;
    var list := SelectorsOf(fac, f);
    var last := list[|list| - 1];
    assert ListedAt(sel, fac, f, |list| - 1);
    if t == last {
      assert SelRemoved(sel, fac, s)[t].position == i;
    } else {
      assert SelRemoved(sel, fac, s)[t] == sel[t];
    }
  }

  lemma {:induction false} RemoveKeepsLinks(sel: SelectorTable, fac: FacetTable, s: Selector)
    requires SelectorsLinked(sel, fac) && s in sel
    ensures SelectorsLinked(SelRemoved(sel, fac, s), FacRemoved(sel, fac, s))
    ensures RoutesOf(SelRemoved(sel, fac, s)) == RoutesOf(sel) - {s}
  {
    var sel', fac' := SelRemoved(sel, fac, s), FacRemoved(sel, fac, s);
    RemovedRoutes(sel, fac, s);
    hide SelRemoved, FacRemoved;
    forall g, k | 0 <= k < |SelectorsOf(fac', g)|
      ensures ListedAt(sel', fac', g, k)
    {
      RemovedListed(sel, fac, s, g, k);
    }
    forall t | t in sel'
      ensures sel'[t].position < |SelectorsOf(fac', sel'[t].facet)|
      ensures SelectorsOf(fac', sel'[t].facet)[sel'[t].position] == t
    {
      RemovedPoints(sel, fac, s, t);
    }
  }

  lemma {:induction false} RemovedRoutes(sel: SelectorTable, fac: FacetTable, s: Selector)
    requires s in sel && sel[s].position < |SelectorsOf(fac, sel[s].facet)|
    ensures RoutesOf(SelRemoved(sel, fac, s)) == RoutesOf(sel) - {s}
  {
    hide SelectorsOf;
    var sel' := SelRemoved(sel, fac, s);
    assert sel'.Keys == sel.Keys - {s};
    forall t | t in sel'
      ensures sel'[t].facet == sel[t].facet && sel'[t].isFreezable == sel[t].isFreezable
    {
    }
  }

  /** The tables after `_removeFacet`. */
  function FacetsRemoved(fac: FacetTable, facets: seq<Address>, f: Address): seq<Address>
    requires f in fac && fac[f].position < |facets|
  {
    SwapPop(facets, fac[f].position)
  }

  function FacMoved(fac: FacetTable, facets: seq<Address>, f: Address): FacetTable
    requires f in fac && fac[f].position < |facets|
  {
    var last := facets[|facets| - 1];
    if last == f || last !in fac then fac else fac[last := fac[last].(position := fac[f].position)]
  }

  lemma {:induction false} RemoveFacetKeepsLinks(fac: FacetTable, facets: seq<Address>, f: Address)
    requires FacetsLinked(fac, facets, {f}) && f in fac && fac[f].selectors == []
    ensures fac[f].position < |facets|
    ensures FacetsLinked(FacMoved(fac, facets, f), FacetsRemoved(fac, facets, f), {})
    ensures forall g :: SelectorsOf(FacMoved(fac, facets, f), g) == SelectorsOf(fac, g)
  {
  }

  lemma {:induction false} FacetIsAtPosition(fac: FacetTable, facets: seq<Address>, f: Address)
    requires FacetsLinked(fac, facets, {f}) && f in fac
    ensures fac[f].position < |facets| && facets[fac[f].position] == f
  {
  }

  lemma {:induction false} SameListsSameLinks(sel: SelectorTable, fac: FacetTable, fac': FacetTable)
    requires SelectorsLinked(sel, fac) && forall g :: SelectorsOf(fac', g) == SelectorsOf(fac, g)
    ensures SelectorsLinked(sel, fac')
  {
    forall g, k | 0 <= k < |SelectorsOf(fac', g)|
      ensures ListedAt(sel, fac', g, k)
    {
      assert ListedAt(sel, fac, g, k);
    }
  }

  /** A facet without selectors may be appended to the list. */
  lemma {:induction false} SaveKeepsLinks(fac: FacetTable, facets: seq<Address>, f: Address)
    requires FacetsLinked(fac, facets, {}) && SelectorsOf(fac, f) == []
    ensures FacetsLinked(fac[f := FacetToSelectors([], |facets|)], facets + [f], {f})
    ensures forall g :: SelectorsOf(fac[f := FacetToSelectors([], |facets|)], g) == SelectorsOf(fac, g)
  {
  }

  lemma {:induction false} AddKeepsFacets(fac: FacetTable, facets: seq<Address>, f: Address, s: Selector)
    requires FacetsLinked(fac, facets, {f}) && f in fac
    ensures FacetsLinked(FacAdded(fac, f, s), facets, {}) && FacetsLinked(FacAdded(fac, f, s), facets, {f})
  {
  }

  lemma {:induction false} RemoveKeepsFacets(sel: SelectorTable, fac: FacetTable, facets: seq<Address>, s: Selector)
    requires SelectorsLinked(sel, fac) && FacetsLinked(fac, facets, {}) && s in sel
    ensures var f, fac' := sel[s].facet, FacRemoved(sel, fac, s);
      FacetsLinked(fac', facets, {f}) && (fac'[f].selectors != [] ==> FacetsLinked(fac', facets, {}))
  {
  }

  lemma {:induction false} MatchesFirst(sel: SelectorTable, fac: FacetTable, f: Address, isFreezable: bool)
    requires SelectorsLinked(sel, fac) && FreezableByFacet(RoutesOf(sel))
    ensures var list := SelectorsOf(fac, f);
      list != [] ==>
        list[0] in sel && (sel[list[0]].isFreezable == isFreezable <==> Matches(RoutesOf(sel), f, isFreezable))
    ensures SelectorsOf(fac, f) == [] ==> Matches(RoutesOf(sel), f, isFreezable)
  {
    var list := SelectorsOf(fac, f);
    if list != [] {
      assert ListedAt(sel, fac, f, 0);
      assert list[0] in RoutesOf(sel);
    }
  }

  lemma {:induction false} AddedRoutes(sel: SelectorTable, fac: FacetTable, f: Address, s: Selector, isFreezable: bool)
    requires s !in sel && FreezableByFacet(RoutesOf(sel)) && Matches(RoutesOf(sel), f, isFreezable)
    ensures var sel' := SelAdded(sel, fac, f, s, isFreezable);
      RoutesOf(sel') == RoutesOf(sel)[s := Route(f, isFreezable)] && FreezableByFacet(RoutesOf(sel'))
  {
    var sel' := SelAdded(sel, fac, f, s, isFreezable);
    assert RoutesOf(sel') == RoutesOf(sel)[s := Route(f, isFreezable)];
  }

  /******* The library *******/

  class DiamondStorage {
    /** The addresses that have code. */
    const code: set<Address>
    var selectorToFacet: SelectorTable
    var facetToSelectors: FacetTable
    var facets: seq<Address>

    constructor (code: set<Address>)
      ensures Valid() && this.code == code && GetRoutes() == map[]
    {
      this.code := code;
      selectorToFacet := map[];
      facetToSelectors := map[];
      facets := [];
    }

    /** The tables agree; `extra` may be listed as a facet without having selectors. */
    ghost predicate ValidWith(extra: set<Address>)
      reads this
    {
      && SelectorsLinked(selectorToFacet, facetToSelectors)
      && FacetsLinked(facetToSelectors, facets, extra)
      && FreezableByFacet(RoutesOf(selectorToFacet))
    }

    ghost predicate Valid()
      reads this
    {
      ValidWith({})
    }

    function GetRoutes(): Routes
      reads this
    {
      RoutesOf(selectorToFacet)
    }

    method SaveFacetIfNew(f: Address)
      requires Valid()
      modifies `facetToSelectors, `facets
      ensures ValidWith({f}) && f in facetToSelectors
      ensures if old(SelectorsOf(facetToSelectors, f)) == []
              then facets == old(facets) + [f]
                   && facetToSelectors == old(facetToSelectors)[f := FacetToSelectors([], |old(facets)|)]
              else facets == old(facets) && facetToSelectors == old(facetToSelectors)
    {
      hide SelectorsLinked, FacetsLinked, FreezableByFacet;
      if |SelectorsOf(facetToSelectors, f)| == 0 {
        SaveKeepsLinks(facetToSelectors, facets, f);
        ghost var before := facetToSelectors;
        facetToSelectors := facetToSelectors[f := FacetToSelectors([], |facets|)];
        facets := facets + [f];
        SameListsSameLinks(selectorToFacet, before, facetToSelectors);
      } else {
        ListedFacet(facetToSelectors, facets, f);
      }
    }

    /** `_addOneFunction`: fails when the facet's selectors have the other freezability. */
    method AddOneFunction(f: Address, s: Selector, isFreezable: bool) returns (ok: bool)
      requires ValidWith({f}) && f in facetToSelectors && s !in selectorToFacet
      modifies `selectorToFacet, `facetToSelectors
      ensures ok <==> Matches(old(GetRoutes()), f, isFreezable)
      ensures ok ==> Valid() && ValidWith({f}) && f in facetToSelectors
      ensures ok ==> GetRoutes() == old(GetRoutes())[s := Route(f, isFreezable)]
    {
      hide SelectorsLinked, FacetsLinked, FreezableByFacet, Matches;
      MatchesFirst(selectorToFacet, facetToSelectors, f, isFreezable);
      var list := SelectorsOf(facetToSelectors, f);
      if |list| != 0 {
        if isFreezable != selectorToFacet[list[0]].isFreezable {
          return false;
        }
      }
      AddKeepsLinks(selectorToFacet, facetToSelectors, f, s, isFreezable);
      AddKeepsFacets(facetToSelectors, facets, f, s);
      AddedRoutes(selectorToFacet, facetToSelectors, f, s, isFreezable);
      selectorToFacet := selectorToFacet[s := SelectorToFacet(f, |list|, isFreezable)];
      facetToSelectors := facetToSelectors[f := facetToSelectors[f].(selectors := list + [s])];
      ok := true;
    }

    /** `_removeOneFunction`: swaps the facet's last selector into the place of the removed one. */
    method RemoveOneFunction(s: Selector)
      requires Valid() && s in selectorToFacet
      modifies this
      ensures Valid() && GetRoutes() == old(GetRoutes()) - {s}
    {
      hide SelectorsLinked, FacetsLinked, FreezableByFacet;
      var f := selectorToFacet[s].facet;
      PointsInside(selectorToFacet, facetToSelectors, s);
      RemoveKeepsLinks(selectorToFacet, facetToSelectors, s);
      RemoveKeepsFacets(selectorToFacet, facetToSelectors, facets, s);
      FewerRoutesFreezable(GetRoutes(), s);
      ghost var sel', fac' := SelRemoved(selectorToFacet, facetToSelectors, s),
                              FacRemoved(selectorToFacet, facetToSelectors, s);
      var list := facetToSelectors[f].selectors;
      var selectorPosition := selectorToFacet[s].position;
      var lastSelectorPosition := |list| - 1;
      if selectorPosition != lastSelectorPosition {
        var lastSelector := list[lastSelectorPosition];
        list := list[selectorPosition := lastSelector];
        selectorToFacet := selectorToFacet[lastSelector := selectorToFacet[lastSelector].(position := selectorPosition)];
      }
      list := list[..|list| - 1];
      facetToSelectors := facetToSelectors[f := facetToSelectors[f].(selectors := list)];
      selectorToFacet := selectorToFacet - {s};
      assert selectorToFacet == sel' && facetToSelectors == fac';
      if lastSelectorPosition == 0 {
        RemoveFacet(f);
      }
    }

    /** `_removeFacet`: swaps the last facet into the place of the removed one. */
    method RemoveFacet(f: Address)
      requires ValidWith({f}) && f in facetToSelectors && facetToSelectors[f].selectors == []
      modifies `facetToSelectors, `facets
      ensures Valid()
      ensures var k := old(facetToSelectors[f].position);
        k < |old(facets)| && old(facets)[k] == f && facets == SwapPop(old(facets), k)
      ensures forall g :: SelectorsOf(facetToSelectors, g) == SelectorsOf(old(facetToSelectors), g)
    {
      hide SelectorsLinked, FreezableByFacet;
      FacetIsAtPosition(facetToSelectors, facets, f);
      RemoveFacetKeepsLinks(facetToSelectors, facets, f);
      ghost var before := facetToSelectors;
      ghost var fac', facets' := FacMoved(facetToSelectors, facets, f), FacetsRemoved(facetToSelectors, facets, f);
      var facetPosition := facetToSelectors[f].position;
      var lastFacetPosition := |facets| - 1;
      if facetPosition != lastFacetPosition {
        var lastFacet := facets[lastFacetPosition];
        facets := facets[facetPosition := lastFacet];
        facetToSelectors := facetToSelectors[lastFacet := facetToSelectors[lastFacet].(position := facetPosition)];
      }
      facets := facets[..|facets| - 1];
      assert facets == facets' && facetToSelectors == fac';
      SameListsSameLinks(selectorToFacet, before, facetToSelectors);
    }

    method AddFunctions(cut: FacetCut) returns (ok: bool)
      requires Valid() && cut.action == Add
      modifies this
      ensures ok <==> cut.facet in code && ApplySelectors(old(GetRoutes()), cut, cut.selectors).Some?
      ensures ok && cut.selectors != [] ==>
        Valid() && Some(GetRoutes()) == ApplySelectors(old(GetRoutes()), cut, cut.selectors)
    {
      hide SelectorsLinked, FacetsLinked, FreezableByFacet, Matches, RoutesOf;
      if cut.facet !in code {
        return false;
      }
      SaveFacetIfNew(cut.facet);
      ghost var goal := ApplySelectors(old(GetRoutes()), cut, cut.selectors);
      for i := 0 to |cut.selectors|
        invariant ValidWith({cut.facet}) && cut.facet in facetToSelectors && (i > 0 ==> Valid())
        invariant goal == ApplySelectors(GetRoutes(), cut, cut.selectors[i..])
      {
        var s := cut.selectors[i];
        assert cut.selectors[i..][1..] == cut.selectors[i + 1..];
        SameKeys(selectorToFacet, s);
        if s in selectorToFacet {
          return false;
        }
        var added := AddOneFunction(cut.facet, s, cut.isFreezable);
        if !added {
          return false;
        }
      }
      ok := true;
    }

    method ReplaceFunctions(cut: FacetCut) returns (ok: bool)
      requires Valid() && cut.action == Replace
      modifies this
      ensures ok <==> cut.facet in code && ApplySelectors(old(GetRoutes()), cut, cut.selectors).Some?
      ensures ok ==> Valid() && Some(GetRoutes()) == ApplySelectors(old(GetRoutes()), cut, cut.selectors)
    {
      hide SelectorsLinked, FacetsLinked, FreezableByFacet, Matches, RoutesOf;
      if cut.facet !in code {
        return false;
      }
      ghost var goal := ApplySelectors(old(GetRoutes()), cut, cut.selectors);
      for i := 0 to |cut.selectors|
        invariant Valid() && goal == ApplySelectors(GetRoutes(), cut, cut.selectors[i..])
      {
        var s := cut.selectors[i];
        assert cut.selectors[i..][1..] == cut.selectors[i + 1..];
        SameKeys(selectorToFacet, s);
        if s !in selectorToFacet {
          return false;
        }
        RemoveOneFunction(s);
        SameKeys(selectorToFacet, s);
        SaveFacetIfNew(cut.facet);
        var added := AddOneFunction(cut.facet, s, cut.isFreezable);
        if !added {
          return false;
        }
      }
      ok := true;
    }

    method RemoveFunctions(cut: FacetCut) returns (ok: bool)
      requires Valid() && cut.action == Remove
      modifies this
      ensures ok <==> cut.facet == ZERO && ApplySelectors(old(GetRoutes()), cut, cut.selectors).Some?
      ensures ok ==> Valid() && Some(GetRoutes()) == ApplySelectors(old(GetRoutes()), cut, cut.selectors)
    {
      hide SelectorsLinked, FacetsLinked, FreezableByFacet, Matches, RoutesOf;
      if cut.facet != ZERO {
        return false;
      }
      ghost var goal := ApplySelectors(old(GetRoutes()), cut, cut.selectors);
      for i := 0 to |cut.selectors|
        invariant Valid() && goal == ApplySelectors(GetRoutes(), cut, cut.selectors[i..])
      {
        var s := cut.selectors[i];
        assert cut.selectors[i..][1..] == cut.selectors[i + 1..];
        SameKeys(selectorToFacet, s);
        if s !in selectorToFacet {
          return false;
        }
        RemoveOneFunction(s);
      }
      ok := true;
    }

    /** `diamondCut`: all cuts in order, or nothing; a revert undoes what was done. */
    method DiamondCut(cuts: seq<FacetCut>) returns (ok: bool)
      requires Valid()
      modifies this
      ensures Valid()
      ensures ok <==> ApplyCuts(code, old(GetRoutes()), cuts).Some?
      ensures ok ==> Some(GetRoutes()) == ApplyCuts(code, old(GetRoutes()), cuts)
      ensures !ok ==> selectorToFacet == old(selectorToFacet) && facetToSelectors == old(facetToSelectors)
                      && facets == old(facets)
    {
      hide SelectorsLinked, FacetsLinked, FreezableByFacet, RoutesOf, ApplySelectors;
      var savedSelectors, savedTable, savedFacets := selectorToFacet, facetToSelectors, facets;
      ghost var goal := ApplyCuts(code, GetRoutes(), cuts);
      for i := 0 to |cuts|
        invariant Valid() && goal == ApplyCuts(code, GetRoutes(), cuts[i..])
      {
        var cut := cuts[i];
        assert cuts[i..][1..] == cuts[i + 1..];
        var done := |cut.selectors| > 0;
        if done {
          match cut.action
          case Add => done := AddFunctions(cut);
          case Replace => done := ReplaceFunctions(cut);
          case Remove => done := RemoveFunctions(cut);
        }
        if !done {
          selectorToFacet, facetToSelectors, facets := savedSelectors, savedTable, savedFacets;
          return false;
        }
      }
      ok := true;
    }
  }

  lemma {:induction false} SameKeys(sel: SelectorTable, s: Selector)
    ensures s in RoutesOf(sel) <==> s in sel
  {
  }

  lemma {:induction false} ListedFacet(fac: FacetTable, facets: seq<Address>, f: Address)
    requires FacetsLinked(fac, facets, {}) && SelectorsOf(fac, f) != []
    ensures FacetsLinked(fac, facets, {f}) && f in fac
  {
  }

  lemma {:induction false} PointsInside(sel: SelectorTable, fac: FacetTable, s: Selector)
    requires SelectorsLinked(sel, fac) && s in sel
    ensures var f, list := sel[s].facet, SelectorsOf(fac, sel[s].facet);
      && f in fac && list == fac[f].selectors && sel[s].position < |list| && list[sel[s].position] == s
      && list[|list| - 1] in sel && (list[|list| - 1] == s <==> sel[s].position == |list| - 1)
  {
    var f := sel[s].facet;
    assert ListedAt(sel, fac, f, |SelectorsOf(fac, f)| - 1);
  }

  lemma {:induction false} FewerRoutesFreezable(r: Routes, s: Selector)
    requires FreezableByFacet(r)
    ensures FreezableByFacet(r - {s})
  {
  }
}
