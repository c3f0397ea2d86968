/**
 The generated verifier in the words of the contract: which part of the key is found under which name.
 */
module VerifierSlots {
  import opened Text
  import opened HexLiterals
  import opened GeneratedCode
  import opened VerifierKey
  import opened VerifierConstants

  /** The name is bound to the number that the limbs make up. */
  ghost predicate Bound(b: Bindings, name: string, limbs: seq<u64>) {
    name in b && b[name] == LimbSum(limbs)
  }

  /** Both coordinates of a commitment are bound, under a name with this beginning. */
  ghost predicate PointBound(b: Bindings, lead: string, p: Point) {
    Bound(b, lead + "_X_SLOT", p.x) && Bound(b, lead + "_Y_SLOT", p.y)
  }

  lemma {:induction false} ListedBound(vk: Key, mem: Bindings, f: Family, i: nat)
    requires Run(GenerateCommitments(vk), mem).Some? && i < |Points(vk, f)|
    ensures PointBound(Run(GenerateCommitments(vk), mem).value, Lead(f) + Decimal(i), Points(vk, f)[i])
  {
    hide Run, GenerateCommitments, LimbSum, NameOf, Lead, Decimal, Points;
    CommitmentsStored(vk, mem);
    ListedName(f, i, X);
    ListedName(f, i, Y);
    assert HasCell(vk, Listed(f, i, X)) && HasCell(vk, Listed(f, i, Y));
  }

  /** The commitments of the four lists are stored under their list's name and their own index. */
  lemma {:induction false} ListsStored(vk: Key, mem: Bindings, i: nat)
    requires Run(GenerateCommitments(vk), mem).Some?
    ensures var b := Run(GenerateCommitments(vk), mem).value;
      && (i < |vk.gateSetup| ==> PointBound(b, "VK_GATE_SETUP_" + Decimal(i), vk.gateSetup[i]))
      && (i < |vk.gateSelectors| ==> PointBound(b, "VK_GATE_SELECTORS_" + Decimal(i), vk.gateSelectors[i]))
      && (i < |vk.permutation| ==> PointBound(b, "VK_PERMUTATION_" + Decimal(i), vk.permutation[i]))
      && (i < |vk.lookupTables| ==> PointBound(b, "VK_LOOKUP_TABLE_" + Decimal(i), vk.lookupTables[i]))
  {
    hide Run, GenerateCommitments, PointBound, Decimal;
    if i < |vk.gateSetup| {
      ListedBound(vk, mem, GateSetup, i);
    }
    if i < |vk.gateSelectors| {
      ListedBound(vk, mem, GateSelectors, i);
    }
    if i < |vk.permutation| {
      ListedBound(vk, mem, Permutation, i);
    }
    if i < |vk.lookupTables| {
      ListedBound(vk, mem, LookupTables, i);
    }
  }

  /** The two single commitments are stored under their own names. */
  lemma {:induction false} SinglesStored(vk: Key, mem: Bindings)
    requires Run(GenerateCommitments(vk), mem).Some?
    ensures var b := Run(GenerateCommitments(vk), mem).value;
      && Bound(b, "VK_LOOKUP_SELECTOR_X_SLOT", vk.lookupSelector.x)
      && Bound(b, "VK_LOOKUP_SELECTOR_Y_SLOT", vk.lookupSelector.y)
      && Bound(b, "VK_LOOKUP_TABLE_TYPE_X_SLOT", vk.lookupTableType.x)
      && Bound(b, "VK_LOOKUP_TABLE_TYPE_Y_SLOT", vk.lookupTableType.y)
  {
    hide Run, GenerateCommitments, LimbSum;
    CommitmentsStored(vk, mem);
    assert HasCell(vk, Single(LookupSelector, X)) && HasCell(vk, Single(LookupSelector, Y));
    assert HasCell(vk, Single(LookupTableType, X)) && HasCell(vk, Single(LookupTableType, Y));
    assert NameOf(Single(LookupSelector, X)) == "VK_LOOKUP_SELECTOR_X_SLOT";
    assert NameOf(Single(LookupSelector, Y)) == "VK_LOOKUP_SELECTOR_Y_SLOT";
    assert NameOf(Single(LookupTableType, X)) == "VK_LOOKUP_TABLE_TYPE_X_SLOT";
    assert NameOf(Single(LookupTableType, Y)) == "VK_LOOKUP_TABLE_TYPE_Y_SLOT";
  }

  lemma {:induction false} ConstantBound(vk: Key, c: Constant)
    requires Run(RenderAll(ConstantItems(vk)), map[]).Some? && HasConstant(vk, c)
    ensures Bound(Run(RenderAll(ConstantItems(vk)), map[]).value, ConstantName(c), ConstantLimbs(vk, c))
  {
    hide Run, RenderAll, ConstantItems, LimbSum, ConstantName;
    ConstantsDeclared(vk);
  }

  /** Non-residues and G2 points are constants under their own index; the imaginary parts come first. */
  lemma {:induction false} ConstantsBound(vk: Key, i: nat)
    requires Run(RenderAll(ConstantItems(vk)), map[]).Some?
    ensures var b := Run(RenderAll(ConstantItems(vk)), map[]).value;
      && (i < |vk.nonResidues| ==> Bound(b, "NON_RESIDUES_" + Decimal(i), vk.nonResidues[i]))
      && (i < |vk.g2Elements| ==>
            var p, lead := vk.g2Elements[i], "G2_ELEMENTS_" + Decimal(i);
            && Bound(b, lead + "_X1", p.x.c1) && Bound(b, lead + "_X2", p.x.c0)
            && Bound(b, lead + "_Y1", p.y.c1) && Bound(b, lead + "_Y2", p.y.c0))
  {
    hide Run, RenderAll, ConstantItems, Bound, Decimal, ConstantName;
    if i < |vk.nonResidues| {
      ConstantBound(vk, Residue(i));
      ConstantNameIs(Residue(i));
    }
    if i < |vk.g2Elements| {
      ConstantBound(vk, G2(i, X1));
      ConstantNameIs(G2(i, X1));
      ConstantBound(vk, G2(i, X2));
      ConstantNameIs(G2(i, X2));
      ConstantBound(vk, G2(i, Y1));
      ConstantNameIs(G2(i, Y1));
      ConstantBound(vk, G2(i, Y2));
      ConstantNameIs(G2(i, Y2));
    }
  }
}
