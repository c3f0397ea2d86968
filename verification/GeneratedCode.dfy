/**
 The two kinds of generated statements, `mstore(SLOT, 0x...)` in an assembly block and
 `uint256 internal constant NAME = 0x...;` in a contract, as text and as what running the text does.
 */
module GeneratedCode {
  import opened Text
  import opened Words
  import opened HexLiterals

  /** The words that memory holds at named slots, or the values of the declared constants. */
  type Bindings = map<string, nat>

  const MSTORE := "mstore("

  const CONSTANT := "uint256 internal constant "

  /******* Reading the text *******/

  /** The part of a text before the first `c`. */
  function Before(s: string, c: char): (r: string)
    ensures r <= s && c !in r
    ensures |r| < |s| ==> s[|r|] == c
  {
    if s == [] || s[0] == c then [] else [s[0]] + Before(s[1..], c)
  }

  function Unindent(s: string): string {
    if s != [] && s[0] == ' ' then Unindent(s[1..]) else s
  }

  /** An assembly literal after its `0x`: at least one digit, and a number that fits a word. */
  predicate IsLiteral(h: string) {
    h != [] && IsHex(h) && HexValue(h) < MODULUS
  }

  /** Solidity also takes every literal of 39 to 41 hex digits for an address, well-formed or not. */
  predicate IsNumberLiteral(h: string) {
    IsLiteral(h) && !(39 <= |h| <= 41)
  }

  /** The digits between `0x` and the end of a statement. */
  function Digits(s: string, lead: string, end: string): Option<string> {
    if lead <= s && EndsWith(s, end) && |lead| + |end| <= |s| then Some(s[|lead|..|s| - |end|]) else None
  }

  /** What follows `mstore(` on its line. */
  function Mstore(code: string, mem: Bindings): Option<Bindings> {
    var slot := Before(code, ',');
    var digits := Digits(code[|slot|..], ", 0x", ")");
    if digits.Some? && IsLiteral(digits.value) then Some(mem[slot := HexValue(digits.value)]) else None
  }

  /** What follows `constant ` on its line: a name is declared once. */
  function Declaration(code: string, known: Bindings): Option<Bindings> {
    var name := Before(code, ' ');
    var digits := Digits(code[|name|..], " = 0x", ";");
    if digits.Some? && IsNumberLiteral(digits.value) && name !in known then
      Some(known[name := HexValue(digits.value)])
    else None
  }

  function Step(line: string, b: Bindings): Option<Bindings> {
    var code := Unindent(line);
    if code == [] || "//" <= code then Some(b)
    else if MSTORE <= code then Mstore(code[|MSTORE|..], b)
    else if CONSTANT <= code then Declaration(code[|CONSTANT|..], b)
    else None
  }

  /** Runs a text line by line; `None` when a line is not code that compiles. */
  function Run(text: string, b: Bindings): Option<Bindings>
    decreases |text|
  {
    if text == [] then Some(b)
    else
      var line := FirstLine(text);
      var r := Step(line, b);
      if r.None? || |line| == |text| then r else Run(text[|line| + 1..], r.value)
  }

  /******* Printing *******/

  function FormatMstore(hexValue: string, slot: string): string {
    "            mstore(" + slot + ", 0x" + hexValue + ")\n"
  }

  function FormatConst(hexValue: string, slotName: string): string {
    var hex := TrimZeros(hexValue);
    var formatted := if 1 <= |hex| < 64 then "0" + hex else hex;
    "    uint256 internal constant " + slotName + " = 0x" + formatted + ";\n"
  }

  /** A generated line, before it is printed. */
  datatype Item =
    | Blank
    | Comment(text: string)
    | Store(name: string, limbs: seq<u64>)
    | Declare(name: string, limbs: seq<u64>)

  function Render(item: Item): string {
    match item
    case Blank => "\n"
    case Comment(text) => text + "\n"
    case Store(name, limbs) => FormatMstore(ConvertListToHexadecimal(limbs), name)
    case Declare(name, limbs) => FormatConst(ConvertListToHexadecimal(limbs), name)
  }

  function RenderAll(items: seq<Item>): string {
    if items == [] then [] else Render(items[0]) + RenderAll(items[1..])
  }

  lemma {:induction false} RenderConcat(a: seq<Item>, b: seq<Item>)
    ensures RenderAll(a + b) == RenderAll(a) + RenderAll(b)
  {
    hide Render;
    if a == [] {
      assert a + b == b;
    } else {
      RenderConcat(a[1..], b);
      assert (a + b)[0] == a[0] && (a + b)[1..] == a[1..] + b;
      Assoc(Render(a[0]), RenderAll(a[1..]), RenderAll(b));
    }
  }

  /******* What a printed line does *******/

  /** Characters of identifiers. */
  predicate IsName(s: string) {
    forall i :: 0 <= i < |s| ==> s[i] !in {',', ' ', '\n'}
  }

  predicate WellNamed(item: Item) {
    match item
    case Blank => true
    case Comment(text) => NoNewline(text) && "//" <= Unindent(text)
    case Store(name, _) => IsName(name)
    case Declare(name, _) => IsName(name)
  }

  /** The limbs print as an assembly literal. */
  predicate Storable(limbs: seq<u64>) {
    limbs != [] && LimbSum(limbs) < MODULUS
  }

  /** The limbs print as a number of a constant declaration. */
  predicate Declarable(limbs: seq<u64>) {
    0 < LimbSum(limbs) < MODULUS && |Hex(LimbSum(limbs))| !in {38, 39, 40}
  }

  function Effect(item: Item, b: Bindings): Option<Bindings> {
    match item
    case Blank => Some(b)
    case Comment(_) => Some(b)
    case Store(name, limbs) => if Storable(limbs) then Some(b[name := LimbSum(limbs)]) else None
    case Declare(name, limbs) =>
      if Declarable(limbs) && name !in b then Some(b[name := LimbSum(limbs)]) else None
  }

  function Execute(items: seq<Item>, b: Bindings): Option<Bindings> {
    if items == [] then Some(b)
    else
      var r := Effect(items[0], b);
      if r.None? then r else Execute(items[1..], r.value)
  }

  lemma {:induction false} BeforeStop(s: string, c: char, t: string)
    requires c !in s && t != [] && t[0] == c
    ensures Before(s + t, c) == s
  {
    if s == [] {
      assert s + t == t;
    } else {
      BeforeStop(s[1..], c, t);
      assert (s + t)[1..] == s[1..] + t;
    }
  }

  lemma {:induction false} UnindentSpaces(s: string, t: string)
    requires forall i :: 0 <= i < |s| ==> s[i] == ' '
    requires t != [] && t[0] != ' '
    ensures Unindent(s + t) == t
  {
    if s == [] {
      assert s + t == t;
    } else {
      UnindentSpaces(s[1..], t);
      assert (s + t)[1..] == s[1..] + t;
    }
  }

  lemma {:induction false} CommentNamed(indent: string, text: string)
    requires forall i :: 0 <= i < |indent| ==> indent[i] == ' '
    requires NoNewline(text) && "//" <= text
    ensures WellNamed(Comment(indent + text))
  {
    hide Unindent;
    UnindentSpaces(indent, text);
  }

  lemma {:induction false} DigitsBetween(lead: string, h: string, end: string)
    ensures Digits(lead + h + end, lead, end) == Some(h)
  {
  }

  lemma {:induction false} MstoreLine(slot: string, h: string, b: Bindings)
    requires IsName(slot) && IsHex(h)
    ensures Step("            mstore(" + slot + ", 0x" + h + ")", b)
         == if IsLiteral(h) then Some(b[slot := HexValue(h)]) else None
  {
    hide HexValue, Unindent, Before, Digits;
    var tail := ", 0x" + h + ")";
    var code := MSTORE + (slot + tail);
    assert "            mstore(" + slot + ", 0x" + h + ")" == "            " + code;
    UnindentSpaces("            ", code);
    assert code[|MSTORE|..] == slot + tail;
    BeforeStop(slot, ',', tail);
    assert (slot + tail)[|slot|..] == tail;
    DigitsBetween(", 0x", h, ")");
  }

  function ConstantText(name: string, h: string): string {
    "    uint256 internal constant " + name + " = 0x" + h + ";"
  }

  lemma {:induction false} ConstantShape(name: string, h: string)
    ensures ConstantText(name, h) == "    " + (CONSTANT + (name + (" = 0x" + h + ";")))
  {
    assert "    uint256 internal constant " == "    " + CONSTANT;
    var tail := " = 0x" + h + ";";
    assert ConstantText(name, h) == "    uint256 internal constant " + (name + tail);
    Assoc("    ", CONSTANT, name + tail);
  }

  lemma {:induction false} ConstantLine(name: string, h: string, b: Bindings)
    requires IsName(name) && IsHex(h)
    ensures Step(ConstantText(name, h), b)
         == if IsNumberLiteral(h) && name !in b then Some(b[name := HexValue(h)]) else None
  {
    hide HexValue, Unindent, Before, Digits, IsLiteral, ConstantText;
    var tail := " = 0x" + h + ";";
    var code := CONSTANT + (name + tail);
    ConstantShape(name, h);
    UnindentSpaces("    ", code);
    assert code[|CONSTANT|..] == name + tail;
    BeforeStop(name, ' ', tail);
    assert (name + tail)[|name|..] == tail;
    DigitsBetween(" = 0x", h, ";");
  }

  lemma {:induction false} ConstantIsOneLine(name: string, h: string)
    requires IsName(name) && IsHex(h)
    ensures NoNewline(ConstantText(name, h))
  {
    HexHasNoNewline(h);
  }

  lemma {:induction false} RunLine(line: string, rest: string, b: Bindings)
    requires NoNewline(line)
    ensures var r := Step(line, b);
      Run(line + "\n" + rest, b) == if r.None? then r else Run(rest, r.value)
  {
    hide Step;
    var text := line + "\n" + rest;
    FirstLineOf(line, rest);
    assert text[|line| + 1..] == rest;
  }

  lemma {:induction false} HexHasNoNewline(h: string)
    requires IsHex(h)
    ensures NoNewline(h)
  {
  }

  lemma {:induction false} RunStore(name: string, limbs: seq<u64>, rest: string, b: Bindings)
    requires IsName(name)
    ensures var r := Effect(Store(name, limbs), b);
      Run(Render(Store(name, limbs)) + rest, b) == if r.None? then r else Run(rest, r.value)
  {
    hide HexValue, Step, Run, LimbSum;
    var h := ConvertListToHexadecimal(limbs);
    LimbsPrinted(limbs);
    HexHasNoNewline(h);
    var line := "            mstore(" + name + ", 0x" + h + ")";
    assert Render(Store(name, limbs)) + rest == line + "\n" + rest;
    MstoreLine(name, h, b);
    RunLine(line, rest, b);
  }

  /** What `format_const` makes of the digits is a number literal exactly when the number is declarable. */
  lemma {:induction false} ConstDigits(limbs: seq<u64>, h: string)
    requires var hex := TrimZeros(ConvertListToHexadecimal(limbs));
      h == if 1 <= |hex| < 64 then "0" + hex else hex
    ensures IsHex(h) && (IsNumberLiteral(h) <==> Declarable(limbs))
    ensures h != [] ==> HexValue(h) == LimbSum(limbs)
  {
    hide HexValue, LimbSum, Hex, ConvertListToHexadecimal, TrimZeros;
    var n := LimbSum(limbs);
    LimbsPrinted(limbs);
    TrimZerosIsShortest(ConvertListToHexadecimal(limbs));
    if n != 0 {
      HexRoundTrip(n);
      OneZero();
      HexConcat("0", Hex(n));
      ZeroTimes(Pow2(4 * |Hex(n)|));
      if |Hex(n)| >= 64 {
        assert h == Hex(n);
      } else {
        assert h == "0" + Hex(n);
      }
    }
  }

  /** A number of 38 hex digits, which prints with 39 and is taken for an address. */
  lemma {:induction false} ThirtyEightDigits()
    ensures !Declarable([0, 0, 0x10_0000])
  {
    hide Hex, LimbSum;
    DigitsOfShift(32);
    SumOfThree(0x10_0000);
  }

  lemma {:induction false} SumOfThree(x: u64)
    ensures LimbSum([0, 0, x]) == x * Pow2(128)
  {
    var limbs: seq<u64> := [0, 0, x];
    assert limbs[..2] == [0, 0] && limbs[..2][..1] == [0] && limbs[..2][..1][..0] == [];
    hide Pow2;
    assert LimbSum(limbs[..2][..1]) == 0 + 0 * Pow2(0) == 0;
    assert LimbSum(limbs[..2]) == 0 + 0 * Pow2(64) == 0;
  }

  lemma {:induction false} DigitsOfShift(k: nat)
    ensures |Hex(0x10_0000 * Pow2(4 * k))| == 6 + k
  {
    if k == 0 {
      assert Pow2(0) == 1;
      assert |Hex(0x10)| == 2;
      assert |Hex(0x100)| == 3;
      assert |Hex(0x1000)| == 4;
      assert |Hex(0x1_0000)| == 5;
    } else {
      DigitsOfShift(k - 1);
      FourMore(4 * (k - 1));
    }
  }

  lemma {:induction false} OneZero()
    ensures IsHex("0") && HexValue("0") == 0
  {
    assert "0"[..0] == "";
  }

  lemma {:induction false} ZeroTimes(p: nat)
    ensures 0 * p == 0
  {
  }

  lemma {:induction false} DeclareShape(name: string, limbs: seq<u64>) returns (h: string)
    ensures Render(Declare(name, limbs)) == ConstantText(name, h) + "\n"
    ensures IsHex(h) && (IsNumberLiteral(h) <==> Declarable(limbs))
    ensures h != [] ==> HexValue(h) == LimbSum(limbs)
  {
    hide HexValue, LimbSum, IsNumberLiteral, Declarable, TrimZeros, ConvertListToHexadecimal;
    var hex := TrimZeros(ConvertListToHexadecimal(limbs));
    h := if 1 <= |hex| < 64 then "0" + hex else hex;
    ConstDigits(limbs, h);
  }

  lemma {:induction false} RunDeclare(name: string, limbs: seq<u64>, rest: string, b: Bindings)
    requires IsName(name)
    ensures var r := Effect(Declare(name, limbs), b);
      Run(Render(Declare(name, limbs)) + rest, b) == if r.None? then r else Run(rest, r.value)
  {
    hide HexValue, Step, Run, Render, LimbSum, IsNumberLiteral, Declarable, ConstantText;
    var h := DeclareShape(name, limbs);
    NumberIsNotEmpty(h);
    ConstantIsOneLine(name, h);
    ConstantLine(name, h, b);
    RunLine(ConstantText(name, h), rest, b);
  }

  lemma {:induction false} NumberIsNotEmpty(h: string)
    ensures IsNumberLiteral(h) ==> h != []
  {
  }

  lemma {:induction false} RunItem(item: Item, rest: string, b: Bindings)
    requires WellNamed(item)
    ensures var r := Effect(item, b); Run(Render(item) + rest, b) == if r.None? then r else Run(rest, r.value)
  {
    match item
    case Blank =>
      assert Render(item) + rest == [] + "\n" + rest;
      RunLine([], rest, b);
    case Comment(text) =>
      assert Render(item) + rest == text + "\n" + rest;
      RunLine(text, rest, b);
    case Store(name, limbs) => RunStore(name, limbs, rest, b);
    case Declare(name, limbs) => RunDeclare(name, limbs, rest, b);
  }

  /** Running the printed text of any list of items is executing the items. */
  lemma {:induction false} RunIsExecute(items: seq<Item>, b: Bindings)
    requires forall i :: 0 <= i < |items| ==> WellNamed(items[i])
    ensures Run(RenderAll(items), b) == Execute(items, b)
  {
    hide Run, Render, Effect, WellNamed;
    if items == [] {
      NothingRuns(b);
    } else {
      var r := Effect(items[0], b);
      RunItem(items[0], RenderAll(items[1..]), b);
      if r.Some? {
        RunIsExecute(items[1..], r.value);
      }
    }
  }

  lemma {:induction false} NothingRuns(b: Bindings)
    ensures Run([], b) == Some(b)
  {
  }

  /******* Lists of items *******/

  /** Items that write one name write the same number. */
  ghost predicate Consistent(items: seq<Item>) {
    forall p, q :: p in items && q in items && p.Store? && q.Store? && p.name == q.name ==> p.limbs == q.limbs
  }

  ghost predicate OnlyStores(items: seq<Item>) {
    forall p :: p in items ==> !p.Declare?
  }

  /** `b'` is `b` with the stored names bound to their own numbers. */
  ghost predicate StoredOver(items: seq<Item>, b: Bindings, b': Bindings) {
    && (forall p :: p in items && p.Store? ==> p.name in b' && b'[p.name] == LimbSum(p.limbs))
    && (forall n :: (forall p :: p in items && p.Store? ==> p.name != n) ==>
          (n in b' <==> n in b) && (n in b ==> b'[n] == b[n]))
  }

  lemma {:induction false} ExecuteStores(items: seq<Item>, b: Bindings)
    requires Consistent(items) && OnlyStores(items)
    ensures Execute(items, b).Some? <==> forall p :: p in items && p.Store? ==> Storable(p.limbs)
    ensures Execute(items, b).Some? ==> StoredOver(items, b, Execute(items, b).value)
  {
    hide Storable, LimbSum, StoredOver;
    if items == [] {
      NothingStored(b);
    } else {
      var first, rest := items[0], items[1..];
      assert forall p :: p in items <==> p == first || p in rest;
      var r := Effect(first, b);
      if r.Some? {
        ExecuteStores(rest, r.value);
        if Execute(rest, r.value).Some? {
          StoreFirst(items, b, Execute(rest, r.value).value);
        }
      }
    }
  }

  lemma {:induction false} NothingStored(b: Bindings)
    ensures StoredOver([], b, b)
  {
  }

  lemma {:induction false} StoreFirst(items: seq<Item>, b: Bindings, b': Bindings)
    requires items != [] && Consistent(items) && OnlyStores(items)
    requires Effect(items[0], b).Some? && StoredOver(items[1..], Effect(items[0], b).value, b')
    ensures StoredOver(items, b, b')
  {
    hide Storable, LimbSum;
    var first, rest := items[0], items[1..];
    assert forall p :: p in items <==> p == first || p in rest;
    if first.Store? && forall p :: p in rest && p.Store? ==> p.name != first.name {
      assert b'[first.name] == LimbSum(first.limbs);
    }
  }

  ghost predicate OnlyDeclares(items: seq<Item>) {
    forall p :: p in items ==> !p.Store?
  }

  ghost predicate DistinctNames(items: seq<Item>) {
    forall i, j :: 0 <= i < j < |items| && items[i].Declare? && items[j].Declare? ==> items[i].name != items[j].name
  }

  /** `b'` is `b` and the declared constants. */
  ghost predicate DeclaredOver(items: seq<Item>, b: Bindings, b': Bindings) {
    && (forall p :: p in items && p.Declare? ==> p.name in b' && b'[p.name] == LimbSum(p.limbs))
    && (forall n :: n in b ==> n in b' && b'[n] == b[n])
    && (forall n :: n in b' && n !in b ==> exists p :: p in items && p.Declare? && p.name == n)
  }

  lemma {:induction false} ExecuteDeclares(items: seq<Item>, b: Bindings)
    requires DistinctNames(items) && OnlyDeclares(items)
    requires forall p :: p in items && p.Declare? ==> p.name !in b
    ensures Execute(items, b).Some? <==> forall p :: p in items && p.Declare? ==> Declarable(p.limbs)
    ensures Execute(items, b).Some? ==> DeclaredOver(items, b, Execute(items, b).value)
  {
    hide Declarable, LimbSum;
    if items != [] {
      var first, rest := items[0], items[1..];
      assert forall p :: p in items <==> p == first || p in rest;
      assert DistinctNames(rest);
      var r := Effect(first, b);
      if r.Some? {
        ExecuteDeclares(rest, r.value);
      }
    }
  }
}
