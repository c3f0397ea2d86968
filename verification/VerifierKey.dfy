/**
 The verifier contract generator: a verification key becomes assembly that stores its commitments
 and Solidity constants for its non-residues and G2 points.
 */
module VerifierKey {
  import opened Text
  import opened HexLiterals
  import opened GeneratedCode

  /******* The key *******/

  datatype Point = Point(x: seq<u64>, y: seq<u64>)

  datatype Fq2 = Fq2(c0: seq<u64>, c1: seq<u64>)

  datatype G2Point = G2Point(x: Fq2, y: Fq2)

  datatype Key = Key(
    gateSetup: seq<Point>,
    gateSelectors: seq<Point>,
    permutation: seq<Point>,
    lookupTables: seq<Point>,
    lookupSelector: Point,
    lookupTableType: Point,
    nonResidues: seq<seq<u64>>,
    g2Elements: seq<G2Point>)

  /******* Names *******/

  datatype CommitmentSlot = CommitmentSlot(x: string, y: string)

  datatype Family = GateSetup | GateSelectors | Permutation | LookupTables

  datatype Individual = LookupSelector | LookupTableType

  /** `template.replace("{}", text)`. */
  function Fill(template: string, text: string): string {
    if template == [] then []
    else if "{}" <= template then text + Fill(template[2..], text)
    else [template[0]] + Fill(template[1..], text)
  }

  function CommitmentsSlots(f: Family): CommitmentSlot {
    match f
    case GateSetup => CommitmentSlot("VK_GATE_SETUP_{}_X_SLOT", "VK_GATE_SETUP_{}_Y_SLOT")
    case GateSelectors => CommitmentSlot("VK_GATE_SELECTORS_{}_X_SLOT", "VK_GATE_SELECTORS_{}_Y_SLOT")
    case Permutation => CommitmentSlot("VK_PERMUTATION_{}_X_SLOT", "VK_PERMUTATION_{}_Y_SLOT")
    case LookupTables => CommitmentSlot("VK_LOOKUP_TABLE_{}_X_SLOT", "VK_LOOKUP_TABLE_{}_Y_SLOT")
  }

  function IndividualCommitments(i: Individual): CommitmentSlot {
    match i
    case LookupSelector => CommitmentSlot("VK_LOOKUP_SELECTOR_X_SLOT", "VK_LOOKUP_SELECTOR_Y_SLOT")
    case LookupTableType => CommitmentSlot("VK_LOOKUP_TABLE_TYPE_X_SLOT", "VK_LOOKUP_TABLE_TYPE_Y_SLOT")
  }

  datatype G2Part = X1 | X2 | Y1 | Y2

  function G2Template(part: G2Part): string {
    match part
    case X1 => "G2_ELEMENTS_{}_X1"
    case X2 => "G2_ELEMENTS_{}_X2"
    case Y1 => "G2_ELEMENTS_{}_Y1"
    case Y2 => "G2_ELEMENTS_{}_Y2"
  }

  const NON_RESIDUES := "NON_RESIDUES_{}"

  /******* The generator *******/

  function ExtractCommitmentSlots(items: seq<Point>, slots: CommitmentSlot): string {
    if items == [] then []
    else
      var index, item := |items| - 1, items[|items| - 1];
      ExtractCommitmentSlots(items[..index], slots)
      + (FormatMstore(ConvertListToHexadecimal(item.x), Fill(slots.x, Decimal(index)))
         + FormatMstore(ConvertListToHexadecimal(item.y), Fill(slots.y, Decimal(index))))
  }

  function ExtractIndividualCommitments(item: Point, slot: CommitmentSlot): string {
    FormatMstore(ConvertListToHexadecimal(item.x), slot.x) + FormatMstore(ConvertListToHexadecimal(item.y), slot.y)
  }

  function ExtractNonResidues(items: seq<seq<u64>>, slotName: string): string {
    if items == [] then []
    else
      var index := |items| - 1;
      ExtractNonResidues(items[..index], slotName)
      + FormatConst(ConvertListToHexadecimal(items[index]), Fill(slotName, Decimal(index)))
  }

  function G2Line(limbs: seq<u64>, part: G2Part, index: nat): string {
    FormatConst(ConvertListToHexadecimal(limbs), Fill(G2Template(part), Decimal(index)))
  }

  function ExtractG2Elements(elements: seq<G2Point>): string {
    if elements == [] then []
    else
      var index, e := |elements| - 1, elements[|elements| - 1];
      ExtractG2Elements(elements[..index])
      + (G2Line(e.x.c1, X1, index) + G2Line(e.x.c0, X2, index) + G2Line(e.y.c1, Y1, index) + G2Line(e.y.c0, Y2, index))
  }

  function Section(comment: string, lines: string): string {
    "            // " + comment + "\n" + lines
  }

  /** The six sections, with a blank line between two of them. */
  function GenerateCommitments(vk: Key): string {
    Section("gate setup commitments", ExtractCommitmentSlots(vk.gateSetup, CommitmentsSlots(GateSetup)))
    + ("\n" + Section("gate selectors commitments",
                      ExtractCommitmentSlots(vk.gateSelectors, CommitmentsSlots(GateSelectors))))
    + ("\n" + Section("permutation commitments", ExtractCommitmentSlots(vk.permutation, CommitmentsSlots(Permutation))))
    + ("\n" + Section("lookup tables commitments",
                      ExtractCommitmentSlots(vk.lookupTables, CommitmentsSlots(LookupTables))))
    + ("\n" + Section("lookup selector commitment",
                      ExtractIndividualCommitments(vk.lookupSelector, IndividualCommitments(LookupSelector))))
    + ("\n" + Section("table type commitment",
                      ExtractIndividualCommitments(vk.lookupTableType, IndividualCommitments(LookupTableType))))
  }

  /******* Names do not clash *******/

  datatype Axis = X | Y

  /** A coordinate of a commitment. */
  datatype Cell = Listed(family: Family, index: nat, axis: Axis) | Single(individual: Individual, axis: Axis)

  function OnAxis(slot: CommitmentSlot, axis: Axis): string {
    if axis.X? then slot.x else slot.y
  }

  function NameOf(cell: Cell): string {
    match cell
    case Listed(f, i, axis) => Fill(OnAxis(CommitmentsSlots(f), axis), Decimal(i))
    case Single(i, axis) => OnAxis(IndividualCommitments(i), axis)
  }

  lemma {:induction false} FillChar(c: char, template: string, text: string)
    requires c != '{'
    ensures Fill([c] + template, text) == [c] + Fill(template, text)
  {
    var s := [c] + template;
    assert s[1..] == template && s[0] == c;
    assert "{}"[0] == '{';
  }

  lemma {:induction false} FillHole(template: string, text: string)
    ensures Fill("{}" + template, text) == text + Fill(template, text)
  {
    assert ("{}" + template)[2..] == template;
  }

  lemma {:induction false} FillAt(before: string, after: string, text: string)
    requires '{' !in before && '{' !in after
    ensures Fill(before + "{}" + after, text) == before + text + after
  {
    hide Fill;
    var template := before + "{}" + after;
    if before == [] {
      assert template == "{}" + after;
      FillHole(after, text);
      FillNothing(after, text);
    } else {
      assert template == [before[0]] + (before[1..] + "{}" + after);
      FillChar(before[0], before[1..] + "{}" + after, text);
      FillAt(before[1..], after, text);
    }
  }

  lemma {:induction false} FillNothing(s: string, text: string)
    requires '{' !in s
    ensures Fill(s, text) == s
  {
    if s != [] {
      FillNothing(s[1..], text);
      assert s == [s[0]] + s[1..];
    }
  }

  function Lead(f: Family): string {
    match f
    case GateSetup => "VK_GATE_SETUP_"
    case GateSelectors => "VK_GATE_SELECTORS_"
    case Permutation => "VK_PERMUTATION_"
    case LookupTables => "VK_LOOKUP_TABLE_"
  }

  function Trail(axis: Axis): string {
    if axis.X? then "_X_SLOT" else "_Y_SLOT"
  }

  lemma {:induction false} TemplateX(f: Family)
    ensures CommitmentsSlots(f).x == Lead(f) + "{}" + Trail(X)
  {
  }

  lemma {:induction false} TemplateY(f: Family)
    ensures CommitmentsSlots(f).y == Lead(f) + "{}" + Trail(Y)
  {
  }

  lemma {:induction false} LeadAndTrail(f: Family, axis: Axis)
    ensures '{' !in Lead(f) && '{' !in Trail(axis)
  {
  }

  lemma {:induction false} ListedName(f: Family, i: nat, axis: Axis)
    ensures NameOf(Listed(f, i, axis)) == Lead(f) + Decimal(i) + Trail(axis)
  {
    hide Fill, Lead, Trail, CommitmentsSlots;
    TemplateX(f);
    TemplateY(f);
    LeadAndTrail(f, axis);
    FillAt(Lead(f), Trail(axis), Decimal(i));
  }

  lemma {:induction false} SameMiddle(a: string, s: string, t: string, b: string)
    requires a + s + b == a + t + b
    ensures s == t
  {
    assert s == (a + s + b)[|a|..|a| + |s|];
    assert t == (a + t + b)[|a|..|a| + |t|];
  }

  /** The characters of a name that tell its family and its axis. */
  lemma {:induction false} Shape(c: Cell)
    ensures var n := NameOf(c);
      && |n| >= 22 && n[|n| - 6] == (if c.axis.X? then 'X' else 'Y')
      && n[3] == (if c.Single? || c.family.LookupTables? then 'L' else if c.family.Permutation? then 'P' else 'G')
      && (c.Listed? && c.family.GateSetup? ==> n[10] == 'T')
      && (c.Listed? && c.family.GateSelectors? ==> n[10] == 'L')
      && (c.Listed? && c.family.LookupTables? ==> n[10] == 'T' && IsDigit(n[16]))
      && (c.Single? && c.individual.LookupSelector? ==> n[10] == 'S')
      && (c.Single? && c.individual.LookupTableType? ==> n[10] == 'T' && !IsDigit(n[16]))
  {
    hide Decimal;
    if c.Listed? {
      ListedName(c.family, c.index, c.axis);
      ListedShape(c.family, Decimal(c.index), c.axis);
    }
  }

  lemma {:induction false} ListedShape(f: Family, digits: string, axis: Axis)
    requires digits != [] && IsNumeral(digits)
    ensures var n := Lead(f) + digits + Trail(axis);
      && |n| >= 22 && n[|n| - 6] == (if axis.X? then 'X' else 'Y')
      && n[3] == (if f.LookupTables? then 'L' else if f.Permutation? then 'P' else 'G')
      && (f.GateSetup? ==> n[10] == 'T')
      && (f.GateSelectors? ==> n[10] == 'L')
      && (f.LookupTables? ==> n[10] == 'T' && IsDigit(n[16]))
  {
    var n := Lead(f) + digits + Trail(axis);
    var t := Trail(axis);
    assert n[|n| - 6] == t[1];
    assert |t| == 7 && |Lead(f)| >= 14;
    assert n[3] == Lead(f)[3] && n[10] == Lead(f)[10];
    assert f.LookupTables? ==> n[16] == digits[0];
  }

  /** Two coordinates never share a slot name. */
  lemma {:induction false} NamesInjective(c: Cell, d: Cell)
    requires NameOf(c) == NameOf(d)
    ensures c == d
  {
    hide NameOf, Decimal, Lead, Trail;
    Shape(c);
    Shape(d);
    if c.Listed? && d.Listed? {
      ListedName(c.family, c.index, c.axis);
      ListedName(d.family, d.index, d.axis);
      SameMiddle(Lead(c.family), Decimal(c.index), Decimal(d.index), Trail(c.axis));
      DecimalInjective(c.index, d.index);
    }
  }

  /******* Running the commitments *******/

  ghost predicate HasCell(vk: Key, c: Cell) {
    c.Listed? ==> c.index < |Points(vk, c.family)|
  }

  function Points(vk: Key, f: Family): seq<Point> {
    match f
    case GateSetup => vk.gateSetup
    case GateSelectors => vk.gateSelectors
    case Permutation => vk.permutation
    case LookupTables => vk.lookupTables
  }

  function Coordinate(p: Point, axis: Axis): seq<u64> {
    if axis.X? then p.x else p.y
  }

  /** The limbs of a coordinate of the key. */
  ghost function Limbs(vk: Key, c: Cell): seq<u64>
    requires HasCell(vk, c)
  {
    match c
    case Listed(f, i, axis) => Coordinate(Points(vk, f)[i], axis)
    case Single(i, axis) => Coordinate(if i.LookupSelector? then vk.lookupSelector else vk.lookupTableType, axis)
  }

  function FamilyItems(f: Family, points: seq<Point>): seq<Item> {
    if points == [] then []
    else
      var index, p := |points| - 1, points[|points| - 1];
      FamilyItems(f, points[..index]) + [Store(NameOf(Listed(f, index, X)), p.x), Store(NameOf(Listed(f, index, Y)), p.y)]
  }

  function SingleItems(i: Individual, p: Point): seq<Item> {
    [Store(NameOf(Single(i, X)), p.x), Store(NameOf(Single(i, Y)), p.y)]
  }

  lemma {:induction false} RenderPair(p: Item, q: Item)
    ensures RenderAll([p, q]) == Render(p) + Render(q)
  {
    hide Render;
    assert [p, q][1..] == [q] && [q][1..] == [];
    assert RenderAll([q]) == Render(q) + RenderAll([]) == Render(q);
  }

  lemma {:induction false} FamilyRendered(f: Family, points: seq<Point>)
    ensures ExtractCommitmentSlots(points, CommitmentsSlots(f)) == RenderAll(FamilyItems(f, points))
  {
    hide FormatMstore, Fill, CommitmentsSlots, RenderAll;
    if points == [] {
      NothingRendered();
    } else {
      var index, p := |points| - 1, points[|points| - 1];
      var a, b := Store(NameOf(Listed(f, index, X)), p.x), Store(NameOf(Listed(f, index, Y)), p.y);
      FamilyRendered(f, points[..index]);
      RenderConcat(FamilyItems(f, points[..index]), [a, b]);
      RenderPair(a, b);
    }
  }

  lemma {:induction false} NothingRendered()
    ensures RenderAll([]) == []
  {
  }

  /** Which items a family becomes: its own coordinates, each under its own name. */
  lemma {:induction false} FamilyStores(f: Family, points: seq<Point>, item: Item)
    ensures item in FamilyItems(f, points)
       <==> exists i, axis :: 0 <= i < |points| && item == Store(NameOf(Listed(f, i, axis)), Coordinate(points[i], axis))
  {
    hide NameOf;
    if points != [] {
      var index := |points| - 1;
      FamilyStores(f, points[..index], item);
      if item in FamilyItems(f, points[..index]) {
        var i, axis :| 0 <= i < index && item == Store(NameOf(Listed(f, i, axis)), Coordinate(points[..index][i], axis));
        assert item == Store(NameOf(Listed(f, i, axis)), Coordinate(points[i], axis));
      } else if item in FamilyItems(f, points) {
        var axis := if item == Store(NameOf(Listed(f, index, X)), points[index].x) then X else Y;
        assert item == Store(NameOf(Listed(f, index, axis)), Coordinate(points[index], axis));
      }
      if i, axis :| 0 <= i < |points| && item == Store(NameOf(Listed(f, i, axis)), Coordinate(points[i], axis)) {
        if i < index {
          assert points[..index][i] == points[i];
        }
      }
    }
  }

  function Heading(comment: string): Item {
    Comment("            // " + comment)
  }

  /** The items of a section, after a blank line. */
  function NextSection(comment: string, items: seq<Item>): seq<Item> {
    [Blank, Heading(comment)] + items
  }

  lemma {:induction false} SectionRendered(comment: string, items: seq<Item>)
    ensures RenderAll([Heading(comment)] + items) == Section(comment, RenderAll(items))
    ensures RenderAll(NextSection(comment, items)) == "\n" + Section(comment, RenderAll(items))
  {
    assert ([Heading(comment)] + items)[1..] == items;
    var all := NextSection(comment, items);
    assert all[1..] == [Heading(comment)] + items;
    assert all[0] == Blank;
  }

  lemma {:induction false} SingleRendered(i: Individual, p: Point)
    ensures ExtractIndividualCommitments(p, IndividualCommitments(i)) == RenderAll(SingleItems(i, p))
  {
    hide FormatMstore, RenderAll, IndividualCommitments;
    RenderPair(Store(NameOf(Single(i, X)), p.x), Store(NameOf(Single(i, Y)), p.y));
  }

  /** The generated commitments as items. */
  function Program(vk: Key): seq<Item> {
    [Heading("gate setup commitments")] + FamilyItems(GateSetup, vk.gateSetup)
    + NextSection("gate selectors commitments", FamilyItems(GateSelectors, vk.gateSelectors))
    + NextSection("permutation commitments", FamilyItems(Permutation, vk.permutation))
    + NextSection("lookup tables commitments", FamilyItems(LookupTables, vk.lookupTables))
    + NextSection("lookup selector commitment", SingleItems(LookupSelector, vk.lookupSelector))
    + NextSection("table type commitment", SingleItems(LookupTableType, vk.lookupTableType))
  }

  lemma {:induction false} RenderSix(a: seq<Item>, b: seq<Item>, c: seq<Item>, d: seq<Item>, e: seq<Item>, f: seq<Item>)
    ensures RenderAll(a + b + c + d + e + f)
         == RenderAll(a) + RenderAll(b) + RenderAll(c) + RenderAll(d) + RenderAll(e) + RenderAll(f)
  {
    hide RenderAll;
    RenderConcat(a, b);
    RenderConcat(a + b, c);
    RenderConcat(a + b + c, d);
    RenderConcat(a + b + c + d, e);
    RenderConcat(a + b + c + d + e, f);
  }

  lemma {:induction false} CommitmentsRendered(vk: Key)
    ensures GenerateCommitments(vk) == RenderAll(Program(vk))
  {
    hide RenderAll, Section, NextSection, FamilyItems, SingleItems, Heading, ExtractCommitmentSlots,
      ExtractIndividualCommitments, CommitmentsSlots, IndividualCommitments;
    FamilyRendered(GateSetup, vk.gateSetup);
    FamilyRendered(GateSelectors, vk.gateSelectors);
    FamilyRendered(Permutation, vk.permutation);
    FamilyRendered(LookupTables, vk.lookupTables);
    SingleRendered(LookupSelector, vk.lookupSelector);
    SingleRendered(LookupTableType, vk.lookupTableType);
    SectionRendered("gate setup commitments", FamilyItems(GateSetup, vk.gateSetup));
    SectionRendered("gate selectors commitments", FamilyItems(GateSelectors, vk.gateSelectors));
    SectionRendered("permutation commitments", FamilyItems(Permutation, vk.permutation));
    SectionRendered("lookup tables commitments", FamilyItems(LookupTables, vk.lookupTables));
    SectionRendered("lookup selector commitment", SingleItems(LookupSelector, vk.lookupSelector));
    SectionRendered("table type commitment", SingleItems(LookupTableType, vk.lookupTableType));
    RenderSix([Heading("gate setup commitments")] + FamilyItems(GateSetup, vk.gateSetup),
              NextSection("gate selectors commitments", FamilyItems(GateSelectors, vk.gateSelectors)),
              NextSection("permutation commitments", FamilyItems(Permutation, vk.permutation)),
              NextSection("lookup tables commitments", FamilyItems(LookupTables, vk.lookupTables)),
              NextSection("lookup selector commitment", SingleItems(LookupSelector, vk.lookupSelector)),
              NextSection("table type commitment", SingleItems(LookupTableType, vk.lookupTableType)));
  }

  /** The item that stores a coordinate. */
  ghost function CellItem(vk: Key, c: Cell): Item
    requires HasCell(vk, c)
  {
    Store(NameOf(c), Limbs(vk, c))
  }

  ghost predicate InSections(vk: Key, item: Item) {
    || (exists f :: item in FamilyItems(f, Points(vk, f)))
    || item in SingleItems(LookupSelector, vk.lookupSelector)
    || item in SingleItems(LookupTableType, vk.lookupTableType)
  }

  ghost predicate IsHeading(item: Item) {
    exists comment :: NoNewline(comment) && item == Heading(comment)
  }

  lemma {:induction false} GateHeadings()
    ensures IsHeading(Heading("gate setup commitments")) && IsHeading(Heading("gate selectors commitments"))
  {
    hide Heading;
    assert NoNewline("gate setup commitments") && NoNewline("gate selectors commitments");
  }

  lemma {:induction false} ListHeadings()
    ensures IsHeading(Heading("permutation commitments")) && IsHeading(Heading("lookup tables commitments"))
  {
    hide Heading;
    assert NoNewline("permutation commitments") && NoNewline("lookup tables commitments");
  }

  lemma {:induction false} SingleHeadings()
    ensures IsHeading(Heading("lookup selector commitment")) && IsHeading(Heading("table type commitment"))
  {
    hide Heading;
    assert NoNewline("lookup selector commitment") && NoNewline("table type commitment");
  }

  lemma {:induction false} HeadingIsComment(item: Item)
    requires IsHeading(item)
    ensures item.Comment? && WellNamed(item)
  {
    hide WellNamed;
    var comment :| NoNewline(comment) && item == Heading(comment);
    var code := "// " + comment;
    assert item.text == "            " + code;
    CommentNamed("            ", code);
  }

  lemma {:induction false} ProgramSections(vk: Key, item: Item)
    ensures item in Program(vk) ==> item.Blank? || IsHeading(item) || InSections(vk, item)
    ensures InSections(vk, item) ==> item in Program(vk)
  {
    hide FamilyItems, SingleItems, Heading, IsHeading;
    GateHeadings();
    ListHeadings();
    SingleHeadings();
    if item in FamilyItems(GateSetup, vk.gateSetup) {
      assert item in FamilyItems(GateSetup, Points(vk, GateSetup));
    } else if item in FamilyItems(GateSelectors, vk.gateSelectors) {
      assert item in FamilyItems(GateSelectors, Points(vk, GateSelectors));
    } else if item in FamilyItems(Permutation, vk.permutation) {
      assert item in FamilyItems(Permutation, Points(vk, Permutation));
    } else if item in FamilyItems(LookupTables, vk.lookupTables) {
      assert item in FamilyItems(LookupTables, Points(vk, LookupTables));
    }
    if f :| item in FamilyItems(f, Points(vk, f)) {
      match f case GateSetup => case GateSelectors => case Permutation => case LookupTables =>
    }
  }

  lemma {:induction false} SectionCells(vk: Key, item: Item)
    ensures InSections(vk, item) <==> exists c :: HasCell(vk, c) && item == CellItem(vk, c)
  {
    hide NameOf, FamilyItems;
    if f :| item in FamilyItems(f, Points(vk, f)) {
      FamilyStores(f, Points(vk, f), item);
      var i, axis :| 0 <= i < |Points(vk, f)|
                  && item == Store(NameOf(Listed(f, i, axis)), Coordinate(Points(vk, f)[i], axis));
      assert item == CellItem(vk, Listed(f, i, axis));
    }
    if item in SingleItems(LookupSelector, vk.lookupSelector) {
      assert item == CellItem(vk, Single(LookupSelector, X)) || item == CellItem(vk, Single(LookupSelector, Y));
    }
    if item in SingleItems(LookupTableType, vk.lookupTableType) {
      assert item == CellItem(vk, Single(LookupTableType, X)) || item == CellItem(vk, Single(LookupTableType, Y));
    }
    if c :| HasCell(vk, c) && item == CellItem(vk, c) {
      if c.Listed? {
        FamilyStores(c.family, Points(vk, c.family), item);
      } else {
        match c.individual case LookupSelector => case LookupTableType =>
      }
    }
  }

  lemma {:induction false} PartsAreNames(f: Family, axis: Axis)
    ensures IsName(Lead(f)) && IsName(Trail(axis))
  {
  }

  lemma {:induction false} SelectorNames()
    ensures var slot := IndividualCommitments(LookupSelector); IsName(slot.x) && IsName(slot.y)
  {
  }

  lemma {:induction false} TableTypeNames()
    ensures var slot := IndividualCommitments(LookupTableType); IsName(slot.x) && IsName(slot.y)
  {
  }

  lemma {:induction false} SinglesAreNames(i: Individual, axis: Axis)
    ensures IsName(NameOf(Single(i, axis)))
  {
    hide IndividualCommitments, IsName;
    SelectorNames();
    TableTypeNames();
  }

  lemma {:induction false} NamesAreNames(c: Cell)
    ensures IsName(NameOf(c))
  {
    hide NameOf, Decimal, Lead, Trail;
    match c
    case Listed(f, i, axis) =>
      ListedName(f, i, axis);
      PartsAreNames(f, axis);
    case Single(i, axis) =>
      SinglesAreNames(i, axis);
  }

  lemma {:induction false} ProgramItem(vk: Key, item: Item)
    ensures item in Program(vk) && item.Store? <==> exists c :: HasCell(vk, c) && item == CellItem(vk, c)
    ensures item in Program(vk) ==> WellNamed(item) && !item.Declare?
  {
    hide Program, InSections, NameOf, Limbs, IsName, IsHeading, HasCell;
    ProgramSections(vk, item);
    SectionCells(vk, item);
    if IsHeading(item) {
      HeadingIsComment(item);
    }
    if c :| HasCell(vk, c) && item == CellItem(vk, c) {
      NamesAreNames(c);
    }
  }

  lemma {:induction false} ProgramIsConsistent(vk: Key)
    ensures Consistent(Program(vk)) && OnlyStores(Program(vk))
    ensures forall i :: 0 <= i < |Program(vk)| ==> WellNamed(Program(vk)[i])
  {
    hide Program, NameOf, Limbs, HasCell, WellNamed;
    forall item | item in Program(vk)
      ensures WellNamed(item) && !item.Declare?
    {
      ProgramItem(vk, item);
    }
    forall p, q | p in Program(vk) && q in Program(vk) && p.Store? && q.Store? && p.name == q.name
      ensures p.limbs == q.limbs
    {
      ProgramItem(vk, p);
      ProgramItem(vk, q);
      var c :| HasCell(vk, c) && p == CellItem(vk, c);
      var d :| HasCell(vk, d) && q == CellItem(vk, d);
      NamesInjective(c, d);
    }
  }

  /**
   Running the generated commitments. They compile exactly when every coordinate is a word, and then every
   coordinate's slot holds the sum of the coordinate's own limbs and all other slots keep what they held.
   */
  lemma {:induction false} CommitmentsStored(vk: Key, mem: Bindings)
    ensures var r := Run(GenerateCommitments(vk), mem);
      && (r.Some? <==> forall c :: HasCell(vk, c) ==> Storable(Limbs(vk, c)))
      && (r.Some? ==> forall c :: HasCell(vk, c) ==>
            NameOf(c) in r.value && r.value[NameOf(c)] == LimbSum(Limbs(vk, c)))
      && (r.Some? ==> forall n :: (forall c :: HasCell(vk, c) ==> NameOf(c) != n) ==>
            (n in r.value <==> n in mem) && (n in mem ==> r.value[n] == mem[n]))
  {
    hide Program, NameOf, Limbs, HasCell, WellNamed, Storable, LimbSum, Run, Execute, GenerateCommitments, RenderAll;
    CommitmentsRendered(vk);
    ProgramIsConsistent(vk);
    RunIsExecute(Program(vk), mem);
    ExecuteStores(Program(vk), mem);
    forall c | HasCell(vk, c)
      ensures CellItem(vk, c) in Program(vk)
    {
      ProgramItem(vk, CellItem(vk, c));
    }
    forall item | item in Program(vk) && item.Store?
      ensures exists c :: HasCell(vk, c) && item == CellItem(vk, c)
    {
      ProgramItem(vk, item);
    }
  }
}
