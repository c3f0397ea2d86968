/**
 The constants of the generated verifier: what the declared non-residues and G2 points are worth.
 */
module VerifierConstants {
  import opened Text
  import opened HexLiterals
  import opened GeneratedCode
  import opened VerifierKey

  /** A generated constant: a non-residue, or a part of a G2 point. */
  datatype Constant = Residue(index: nat) | G2(index: nat, part: G2Part)

  function ConstantName(c: Constant): string {
    match c
    case Residue(i) => Fill(NON_RESIDUES, Decimal(i))
    case G2(i, part) => Fill(G2Template(part), Decimal(i))
  }

  ghost predicate HasConstant(vk: Key, c: Constant) {
    if c.Residue? then c.index < |vk.nonResidues| else c.index < |vk.g2Elements|
  }

  /** The precompile takes the imaginary part `c1` of a coordinate before the real part `c0`. */
  function G2Limbs(e: G2Point, part: G2Part): seq<u64> {
    match part
    case X1 => e.x.c1
    case X2 => e.x.c0
    case Y1 => e.y.c1
    case Y2 => e.y.c0
  }

  ghost function ConstantLimbs(vk: Key, c: Constant): seq<u64>
    requires HasConstant(vk, c)
  {
    match c
    case Residue(i) => vk.nonResidues[i]
    case G2(i, part) => G2Limbs(vk.g2Elements[i], part)
  }

  function PartName(part: G2Part): string {
    match part
    case X1 => "_X1"
    case X2 => "_X2"
    case Y1 => "_Y1"
    case Y2 => "_Y2"
  }

  lemma {:induction false} ConstantNameIs(c: Constant)
    ensures ConstantName(c)
         == if c.Residue? then "NON_RESIDUES_" + Decimal(c.index)
            else "G2_ELEMENTS_" + Decimal(c.index) + PartName(c.part)
  {
    hide Fill;
    match c
    case Residue(i) =>
      assert NON_RESIDUES == "NON_RESIDUES_" + "{}" + "";
      FillAt("NON_RESIDUES_", "", Decimal(i));
      assert "NON_RESIDUES_" + Decimal(i) + "" == "NON_RESIDUES_" + Decimal(i);
    case G2(i, part) =>
      assert G2Template(part) == "G2_ELEMENTS_" + "{}" + PartName(part);
      FillAt("G2_ELEMENTS_", PartName(part), Decimal(i));
  }

  lemma {:induction false} FirstLetter(c: Constant)
    ensures ConstantName(c) != [] && (ConstantName(c)[0] == 'N' <==> c.Residue?)
  {
    hide ConstantName, Decimal;
    ConstantNameIs(c);
  }

  /** No two generated constants share a name. */
  lemma {:induction false} ConstantNamesInjective(c: Constant, d: Constant)
    requires ConstantName(c) == ConstantName(d)
    ensures c == d
  {
    hide ConstantName, Decimal;
    ConstantNameIs(c);
    ConstantNameIs(d);
    var n := ConstantName(c);
    if c.Residue? && d.Residue? {
      assert n[13..] == Decimal(c.index) && n[13..] == Decimal(d.index);
      DecimalInjective(c.index, d.index);
    } else if c.G2? && d.G2? {
      assert n[|n| - 3..] == PartName(c.part) && n[|n| - 3..] == PartName(d.part);
      SameMiddle("G2_ELEMENTS_", Decimal(c.index), Decimal(d.index), PartName(c.part));
      DecimalInjective(c.index, d.index);
    } else {
      FirstLetter(c);
      FirstLetter(d);
    }
  }

  lemma {:induction false} ConstantIsName(c: Constant)
    ensures IsName(ConstantName(c))
  {
    hide ConstantName, Decimal;
    ConstantNameIs(c);
  }

  ghost function ConstantItem(vk: Key, c: Constant): Item
    requires HasConstant(vk, c)
  {
    Declare(ConstantName(c), ConstantLimbs(vk, c))
  }

  function ResidueItems(items: seq<seq<u64>>): seq<Item> {
    if items == [] then []
    else ResidueItems(items[..|items| - 1]) + [Declare(ConstantName(Residue(|items| - 1)), items[|items| - 1])]
  }

  function G2Item(e: G2Point, index: nat, part: G2Part): Item {
    Declare(ConstantName(G2(index, part)), G2Limbs(e, part))
  }

  function G2Items(elements: seq<G2Point>): seq<Item> {
    if elements == [] then []
    else
      var index, e := |elements| - 1, elements[|elements| - 1];
      G2Items(elements[..index]) + [G2Item(e, index, X1), G2Item(e, index, X2), G2Item(e, index, Y1), G2Item(e, index, Y2)]
  }

  lemma {:induction false} RenderOne(p: Item)
    ensures RenderAll([p]) == Render(p)
  {
    hide Render;
    assert [p][1..] == [];
    assert RenderAll([p]) == Render(p) + RenderAll([]) == Render(p);
  }

  lemma {:induction false} ResiduesRendered(items: seq<seq<u64>>)
    ensures ExtractNonResidues(items, NON_RESIDUES) == RenderAll(ResidueItems(items))
  {
    hide FormatConst, Fill, RenderAll;
    if items == [] {
      NothingRendered();
    } else {
      var index := |items| - 1;
      ResiduesRendered(items[..index]);
      RenderConcat(ResidueItems(items[..index]), [Declare(ConstantName(Residue(index)), items[index])]);
      RenderOne(Declare(ConstantName(Residue(index)), items[index]));
    }
  }

  /** The four lines of a point. */
  function FourLines(e: G2Point, index: nat): string {
    G2Line(e.x.c1, X1, index) + G2Line(e.x.c0, X2, index) + G2Line(e.y.c1, Y1, index) + G2Line(e.y.c0, Y2, index)
  }

  function FourItems(e: G2Point, index: nat): seq<Item> {
    [G2Item(e, index, X1), G2Item(e, index, X2), G2Item(e, index, Y1), G2Item(e, index, Y2)]
  }

  lemma {:induction false} FourRendered(e: G2Point, index: nat)
    ensures RenderAll(FourItems(e, index)) == FourLines(e, index)
  {
    hide RenderAll, Render, G2Item, G2Line;
    var a, b, c, d := G2Item(e, index, X1), G2Item(e, index, X2), G2Item(e, index, Y1), G2Item(e, index, Y2);
    assert [a, b, c, d] == [a, b] + [c, d];
    RenderConcat([a, b], [c, d]);
    RenderPair(a, b);
    RenderPair(c, d);
    G2LineRendered(e, index, X1);
    G2LineRendered(e, index, X2);
    G2LineRendered(e, index, Y1);
    G2LineRendered(e, index, Y2);
    Assoc(Render(a) + Render(b), Render(c), Render(d));
  }

  lemma {:induction false} ExtractOneMore(elements: seq<G2Point>)
    requires elements != []
    ensures var index := |elements| - 1;
      && ExtractG2Elements(elements) == ExtractG2Elements(elements[..index]) + FourLines(elements[index], index)
      && G2Items(elements) == G2Items(elements[..index]) + FourItems(elements[index], index)
  {
    hide G2Item, G2Line;
  }

  lemma {:induction false} G2Rendered(elements: seq<G2Point>)
    ensures ExtractG2Elements(elements) == RenderAll(G2Items(elements))
  {
    if elements == [] {
      NothingRendered();
    } else {
      hide ExtractG2Elements, G2Items, RenderAll, FourLines, FourItems;
      var index := |elements| - 1;
      G2Rendered(elements[..index]);
      ExtractOneMore(elements);
      FourRendered(elements[index], index);
      RenderConcat(G2Items(elements[..index]), FourItems(elements[index], index));
    }
  }

  lemma {:induction false} G2LineRendered(e: G2Point, index: nat, part: G2Part)
    ensures Render(G2Item(e, index, part)) == G2Line(G2Limbs(e, part), part, index)
  {
    hide FormatConst, Fill, G2Template;
  }

  function ResidueComment(): string {
    "// non residues"
  }

  function G2Comment(): string {
    "    " + "// trusted setup g2 elements"
  }

  /** The items of the constants, in the order of the text. */
  function ConstantItems(vk: Key): seq<Item> {
    [Comment(ResidueComment())] + ResidueItems(vk.nonResidues)
    + [Blank, Comment(G2Comment())] + G2Items(vk.g2Elements)
  }

  /** The item at a place of a list is that place's own constant. */
  lemma {:induction false} ResidueAt(vk: Key, n: nat, k: nat)
    requires n <= |vk.nonResidues|
    ensures |ResidueItems(vk.nonResidues[..n])| == n
    ensures k < n ==> ResidueItems(vk.nonResidues[..n])[k] == ConstantItem(vk, Residue(k))
  {
    hide ConstantName;
    if n > 0 {
      ResidueAt(vk, n - 1, k);
      assert vk.nonResidues[..n][..n - 1] == vk.nonResidues[..n - 1];
    }
  }

  function PartAt(k: nat): G2Part {
    if k % 4 == 0 then X1 else if k % 4 == 1 then X2 else if k % 4 == 2 then Y1 else Y2
  }

  lemma {:induction false} G2At(vk: Key, n: nat, k: nat)
    requires n <= |vk.g2Elements|
    ensures |G2Items(vk.g2Elements[..n])| == 4 * n
    ensures k < 4 * n ==> G2Items(vk.g2Elements[..n])[k] == ConstantItem(vk, G2(k / 4, PartAt(k)))
  {
    hide ConstantName, G2Limbs;
    if n > 0 {
      var es := vk.g2Elements[..n];
      G2At(vk, n - 1, k);
      assert es[..n - 1] == vk.g2Elements[..n - 1] && es[n - 1] == vk.g2Elements[n - 1];
      var last := 4 * (n - 1);
      assert k >= last ==> k < last + 4 ==> k / 4 == n - 1 && k % 4 == k - last;
    }
  }

  /** Which constant stands at a place of the generated text, if any. */
  ghost function ConstantAt(vk: Key, k: nat): Option<Constant> {
    var r := |vk.nonResidues|;
    if 1 <= k <= r then Some(Residue(k - 1))
    else if k >= r + 3 then Some(G2((k - r - 3) / 4, PartAt(k - r - 3)))
    else None
  }

  lemma {:induction false} ItemAt(vk: Key, k: nat)
    requires k < |ConstantItems(vk)|
    ensures |ConstantItems(vk)| == |vk.nonResidues| + 3 + 4 * |vk.g2Elements|
    ensures var item, c := ConstantItems(vk)[k], ConstantAt(vk, k);
      if c.Some? then HasConstant(vk, c.value) && item == ConstantItem(vk, c.value)
      else item.Blank? || (item.Comment? && WellNamed(item))
  {
    hide ConstantItem, ResidueItems, G2Items, PartAt, WellNamed;
    var r, e := |vk.nonResidues|, |vk.g2Elements|;
    assert vk.nonResidues[..r] == vk.nonResidues && vk.g2Elements[..e] == vk.g2Elements;
    ResidueAt(vk, r, if k > 0 then k - 1 else 0);
    G2At(vk, e, if k >= r + 3 then k - r - 3 else 0);
    FirstHeading();
    SecondHeading();
    var items := ConstantItems(vk);
    if k == 0 {
    } else if k <= r {
      assert items[k] == ResidueItems(vk.nonResidues)[k - 1];
    } else if k >= r + 3 {
      assert items[k] == G2Items(vk.g2Elements)[k - r - 3];
    }
  }

  lemma {:induction false} FirstHeading()
    ensures WellNamed(Comment(ResidueComment()))
  {
    hide WellNamed;
    var s := "// non residues";
    assert "" + s == s;
    CommentNamed("", s);
  }

  lemma {:induction false} SecondHeading()
    ensures WellNamed(Comment(G2Comment()))
  {
    hide WellNamed;
    var s := "// trusted setup g2 elements";
    CommentNamed("    ", s);
  }

  lemma {:induction false} PlaceOf(vk: Key, c: Constant) returns (k: nat)
    requires HasConstant(vk, c)
    ensures k < |vk.nonResidues| + 3 + 4 * |vk.g2Elements| && ConstantAt(vk, k) == Some(c)
  {
    match c
    case Residue(i) =>
      k := i + 1;
    case G2(i, part) =>
      var p := match part case X1 => 0 case X2 => 1 case Y1 => 2 case Y2 => 3;
      k := |vk.nonResidues| + 3 + 4 * i + p;
  }

  lemma {:induction false} ConstantsDistinct(vk: Key)
    ensures DistinctNames(ConstantItems(vk)) && OnlyDeclares(ConstantItems(vk))
    ensures forall i :: 0 <= i < |ConstantItems(vk)| ==> WellNamed(ConstantItems(vk)[i])
  {
    hide ConstantItems, ConstantName, ConstantLimbs, ConstantAt, HasConstant, WellNamed;
    var items := ConstantItems(vk);
    forall i | 0 <= i < |items|
      ensures WellNamed(items[i]) && !items[i].Store?
    {
      ItemAt(vk, i);
      BlankIsNamed();
      if ConstantAt(vk, i).Some? {
        ConstantNamed(vk, ConstantAt(vk, i).value);
      }
    }
    forall i, j | 0 <= i < j < |items| && items[i].Declare? && items[j].Declare?
      ensures items[i].name != items[j].name
    {
      ItemAt(vk, i);
      ItemAt(vk, j);
      PlacesDistinct(vk, i, j);
      if items[i].name == items[j].name {
        ConstantNamesInjective(ConstantAt(vk, i).value, ConstantAt(vk, j).value);
      }
    }
  }

  lemma {:induction false} BlankIsNamed()
    ensures WellNamed(Blank)
  {
  }

  lemma {:induction false} ConstantNamed(vk: Key, c: Constant)
    requires HasConstant(vk, c)
    ensures WellNamed(ConstantItem(vk, c))
  {
    ConstantIsName(c);
  }

  lemma {:induction false} PlacesDistinct(vk: Key, i: nat, j: nat)
    requires i < j && ConstantAt(vk, i).Some?
    ensures ConstantAt(vk, i) != ConstantAt(vk, j)
  {
  }

  /** The text has one declaration for every constant of the key. */
  lemma {:induction false} ConstantItemsAre(vk: Key, item: Item)
    ensures item in ConstantItems(vk) && item.Declare?
       <==> exists c :: HasConstant(vk, c) && item == ConstantItem(vk, c)
  {
    hide ConstantItems, ConstantName, ConstantLimbs, ConstantAt, HasConstant;
    if item in ConstantItems(vk) && item.Declare? {
      var k :| 0 <= k < |ConstantItems(vk)| && ConstantItems(vk)[k] == item;
      ItemAt(vk, k);
      assert HasConstant(vk, ConstantAt(vk, k).value);
    }
    if c :| HasConstant(vk, c) && item == ConstantItem(vk, c) {
      var k := PlaceOf(vk, c);
      ItemCount(vk);
      ItemAt(vk, k);
    }
  }

  lemma {:induction false} ItemCount(vk: Key)
    ensures |ConstantItems(vk)| == |vk.nonResidues| + 3 + 4 * |vk.g2Elements|
  {
    hide ResidueItems, G2Items, ConstantItem, ConstantAt, HasConstant, WellNamed;
    assert |ConstantItems(vk)| > 0;
    ItemAt(vk, 0);
  }

  /**
   The declared constants. The text compiles exactly when every number is a literal that Solidity takes for a
   number: not zero, at most a word, and not of 38 to 40 significant hex digits.
   */
  lemma {:induction false} ConstantsDeclared(vk: Key)
    ensures var r := Run(RenderAll(ConstantItems(vk)), map[]);
      && (r.Some? <==> forall c :: HasConstant(vk, c) ==> Declarable(ConstantLimbs(vk, c)))
      && (r.Some? ==> forall c :: HasConstant(vk, c) ==>
            ConstantName(c) in r.value && r.value[ConstantName(c)] == LimbSum(ConstantLimbs(vk, c)))
      && (r.Some? ==> forall n :: n in r.value ==> exists c :: HasConstant(vk, c) && n == ConstantName(c))
  {
    hide ConstantItems, ConstantName, ConstantLimbs, HasConstant, Declarable, LimbSum, Run, Execute, RenderAll, WellNamed;
    var items := ConstantItems(vk);
    ConstantsDistinct(vk);
    RunIsExecute(items, map[]);
    ExecuteDeclares(items, map[]);
    forall c | HasConstant(vk, c)
      ensures ConstantItem(vk, c) in items
    {
      ConstantItemsAre(vk, ConstantItem(vk, c));
    }
    forall item | item in items && item.Declare?
      ensures exists c :: HasConstant(vk, c) && item == ConstantItem(vk, c)
    {
      ConstantItemsAre(vk, item);
    }
  }

  lemma {:induction false} ConstantsRendered(vk: Key)
    ensures RenderAll(ConstantItems(vk))
         == ResidueComment() + "\n" + ExtractNonResidues(vk.nonResidues, NON_RESIDUES)
            + ("\n" + (G2Comment() + "\n")) + ExtractG2Elements(vk.g2Elements)
  {
    hide RenderAll, ResidueItems, G2Items, ExtractNonResidues, ExtractG2Elements, ResidueComment, G2Comment;
    var a, b := [Comment(ResidueComment())], [Blank, Comment(G2Comment())];
    RenderConcat(a, ResidueItems(vk.nonResidues));
    RenderConcat(a + ResidueItems(vk.nonResidues), b);
    RenderConcat(a + ResidueItems(vk.nonResidues) + b, G2Items(vk.g2Elements));
    RenderOne(Comment(ResidueComment()));
    RenderPair(Blank, Comment(G2Comment()));
    ResiduesRendered(vk.nonResidues);
    G2Rendered(vk.g2Elements);
  }

  method GenerateResidueG2Elements(vk: Key) returns (text: string)
    ensures var r := Run(text, map[]);
      && (r.Some? <==> forall c :: HasConstant(vk, c) ==> Declarable(ConstantLimbs(vk, c)))
      && (r.Some? ==> forall c :: HasConstant(vk, c) ==>
            ConstantName(c) in r.value && r.value[ConstantName(c)] == LimbSum(ConstantLimbs(vk, c)))
      && (r.Some? ==> forall n :: n in r.value ==> exists c :: HasConstant(vk, c) && n == ConstantName(c))
  {
    hide RenderAll, ExtractNonResidues, ExtractG2Elements, Run, ConstantItems, ResidueComment, G2Comment, ConstantName,
      ConstantLimbs, HasConstant, Declarable, LimbSum;
    text := "";
    text := text + (ResidueComment() + "\n");
    text := text + ExtractNonResidues(vk.nonResidues, NON_RESIDUES);
    text := text + ("\n" + (G2Comment() + "\n"));
    text := text + ExtractG2Elements(vk.g2Elements);
    ConstantsRendered(vk);
    assert text == RenderAll(ConstantItems(vk));
    ConstantsDeclared(vk);
  }

  /** 2^148 has 38 hex digits, so no key with it among its constants has a verifier that compiles. */
  lemma {:induction false} LongConstantFails(vk: Key, i: nat)
    requires i < |vk.nonResidues| && vk.nonResidues[i] == [0, 0, 0x10_0000]
    ensures Run(RenderAll(ConstantItems(vk)), map[]).None?
  {
    hide RenderAll, ConstantItems, Run, LimbSum;
    ConstantsDeclared(vk);
    ThirtyEightDigits();
    assert HasConstant(vk, Residue(i)) && !Declarable(ConstantLimbs(vk, Residue(i)));
  }

  /** A zero constant prints as `0x` without digits, so no key with one has a verifier that compiles. */
  lemma {:induction false} ZeroConstantFails(vk: Key, i: nat)
    requires i < |vk.nonResidues| && LimbSum(vk.nonResidues[i]) == 0
    ensures Run(RenderAll(ConstantItems(vk)), map[]).None?
  {
    hide RenderAll, ConstantItems, Run, LimbSum;
    ConstantsDeclared(vk);
    assert HasConstant(vk, Residue(i)) && !Declarable(ConstantLimbs(vk, Residue(i)));
  }
}
