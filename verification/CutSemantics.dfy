/**
 What one cut does to the routes as a whole, for each of the three actions: when it applies, and what it
 leaves.
 */
module CutSemantics {
  import opened Text
  import opened Diamond
  import opened FacetCuts

  /** Adding: the selectors are distinct and unbound, and agree in freezability with the facet they join. */
  lemma {:induction false} AddExact(code: set<Address>, r: Routes, cut: FacetCut)
    requires cut.action == Add
    ensures ApplyCut(code, r, cut)
         == if cut.selectors != [] && cut.facet in code && NoRepeats(cut.selectors)
               && (forall s :: s in cut.selectors ==> s !in r)
               && (forall s :: s in r && r[s].facet == cut.facet ==> r[s].isFreezable == cut.isFreezable)
            then Some(r + map s | s in cut.selectors :: Route(cut.facet, cut.isFreezable))
            else None
  {
    hide ApplySelectors, NoRepeats;
    AddOneCut(code, r, cut);
    assert Disjoint(cut.selectors, r.Keys) <==> forall s :: s in cut.selectors ==> s !in r;
  }

  lemma {:induction false} RemoveSelectors(r: Routes, cut: FacetCut, selectors: seq<Selector>)
    requires cut.action == Remove
    ensures ApplySelectors(r, cut, selectors)
         == if NoRepeats(selectors) && SetOf(selectors) <= r.Keys then Some(r - SetOf(selectors)) else None
    decreases |selectors|
  {
    if NoRepeats(selectors) && SetOf(selectors) <= r.Keys {
      RemoveAll(r, cut, selectors);
    } else {
      var s, rest := selectors[0], selectors[1..];
      assert forall k :: 0 <= k < |rest| ==> rest[k] == selectors[k + 1];
      assert SetOf(selectors) == {s} + SetOf(rest);
      if s in r {
        RemoveSelectors(r - {s}, cut, rest);
        if NoRepeats(rest) && SetOf(rest) <= (r - {s}).Keys {
          RepeatsEarly(selectors);
        }
      }
    }
  }

  lemma {:induction false} RepeatsEarly(selectors: seq<Selector>)
    requires selectors != [] && NoRepeats(selectors[1..]) && selectors[0] !in SetOf(selectors[1..])
    ensures NoRepeats(selectors)
  {
    var rest := selectors[1..];
    forall i, j | 0 <= i < j < |selectors|
      ensures selectors[i] != selectors[j]
    {
      assert selectors[j] == rest[j - 1] && rest[j - 1] in SetOf(rest);
      assert i > 0 ==> selectors[i] == rest[i - 1];
    }
  }

  /** Removing: the facet is zero, and the selectors are distinct and bound. */
  lemma {:induction false} RemoveExact(code: set<Address>, r: Routes, cut: FacetCut)
    requires cut.action == Remove
    ensures ApplyCut(code, r, cut)
         == if cut.selectors != [] && cut.facet == "0x0000000000000000000000000000000000000000"
               && NoRepeats(cut.selectors) && (forall s :: s in cut.selectors ==> s in r)
            then Some(map s | s in r && s !in cut.selectors :: r[s])
            else None
  {
    hide ApplySelectors, NoRepeats;
    RemoveSelectors(r, cut, cut.selectors);
    assert SetOf(cut.selectors) <= r.Keys <==> forall s :: s in cut.selectors ==> s in r;
    assert r - SetOf(cut.selectors) == map s | s in r && s !in cut.selectors :: r[s];
  }

  /** Every selector is bound, and every route of the facet but that of the first selector agrees. */
  ghost predicate Replaceable(r: Routes, cut: FacetCut, selectors: seq<Selector>) {
    && (forall s :: s in selectors ==> s in r)
    && (selectors != [] ==>
          forall s :: s in r && s != selectors[0] && r[s].facet == cut.facet ==> r[s].isFreezable == cut.isFreezable)
  }

  function ReplacedRoutes(r: Routes, cut: FacetCut, selectors: seq<Selector>): Routes {
    map s | s in r :: if s in selectors then Route(cut.facet, cut.isFreezable) else r[s]
  }

  lemma {:induction false} ReplaceSelectors(r: Routes, cut: FacetCut, selectors: seq<Selector>)
    requires cut.action == Replace
    ensures ApplySelectors(r, cut, selectors)
         == if Replaceable(r, cut, selectors) then Some(ReplacedRoutes(r, cut, selectors)) else None
    decreases |selectors|
  {
    if selectors == [] {
      assert ReplacedRoutes(r, cut, selectors) == r;
    } else {
      var s, rest := selectors[0], selectors[1..];
      assert selectors == [s] + rest;
      if s in r && Matches(r - {s}, cut.facet, cut.isFreezable) {
        var r' := (r - {s})[s := Route(cut.facet, cut.isFreezable)];
        assert ApplyOne(r, cut, s) == Some(r');
        ReplaceSelectors(r', cut, rest);
        ReplaceRest(r, cut, selectors, r');
      } else {
        assert ApplyOne(r, cut, s) == None;
      }
    }
  }

  lemma {:induction false} ReplaceRest(r: Routes, cut: FacetCut, selectors: seq<Selector>, r': Routes)
    requires selectors != [] && selectors[0] in r && Matches(r - {selectors[0]}, cut.facet, cut.isFreezable)
    requires r' == (r - {selectors[0]})[selectors[0] := Route(cut.facet, cut.isFreezable)]
    ensures Replaceable(r', cut, selectors[1..]) <==> Replaceable(r, cut, selectors)
    ensures ReplacedRoutes(r', cut, selectors[1..]) == ReplacedRoutes(r, cut, selectors)
  {
    var s, rest := selectors[0], selectors[1..];
    assert selectors == [s] + rest;
    assert r'.Keys == r.Keys;
    assert forall t :: t in r && t != s ==> r'[t] == r[t];
    assert forall t :: t in r && t != s && r[t].facet == cut.facet ==> (r - {s})[t].isFreezable == cut.isFreezable;
  }

  /**
   Replacing: the facet has code and the selectors are bound; the facet's other routes agree in freezability,
   all but that of the selector that is replaced first.
   */
  lemma {:induction false} ReplaceExact(code: set<Address>, r: Routes, cut: FacetCut)
    requires cut.action == Replace
    ensures ApplyCut(code, r, cut)
         == if cut.selectors != [] && cut.facet in code && Replaceable(r, cut, cut.selectors)
            then Some(ReplacedRoutes(r, cut, cut.selectors))
            else None
  {
    hide ApplySelectors, Replaceable, ReplacedRoutes;
    ReplaceSelectors(r, cut, cut.selectors);
  }
}
