/**
 Field tables whose emitted functions do not clash, and the table of the bootloader's transactions
 as one of them.
 */
module TxTable {
  import opened Text
  import opened AbiEncoding
  import opened Yul
  import opened TxLayout
  import opened TxLayoutCorrect

  /** A field name that cannot be mistaken for an emitted name of another field or of the table. */
  predicate PlainName(f: string) {
    var c := Capitalize(f);
    !EndsWith(c, "Ptr") && !EndsWith(c, "BytesLength") && c != "DataLength"
  }

  ghost predicate NamesApart(ss: seq<Slot>) {
    && (forall i :: 0 <= i < |ss| ==> PlainName(ss[i].name))
    && (forall i, j :: 0 <= i < j < |ss| ==> Capitalize(ss[i].name) != Capitalize(ss[j].name))
  }

  datatype Kind = Value | Pointer | Length

  function Suffix(kind: Kind): string {
    match kind
    case Value => ""
    case Pointer => "Ptr"
    case Length => "BytesLength"
  }

  function Emits(f: string, kind: Kind): string {
    "get" + Capitalize(f) + Suffix(kind)
  }

  lemma {:induction false} EmittedNames(s: Slot, i: nat)
    ensures s.t.Fixed? ==> |SlotGetters(s, i)| == 1 && SlotGetters(s, i)[0].name == Emits(s.name, Value)
    ensures s.t.Dynamic? ==> |SlotGetters(s, i)| == 2 && SlotGetters(s, i)[0].name == Emits(s.name, Pointer)
                             && SlotGetters(s, i)[1].name == Emits(s.name, Length)
  {
    hide Capitalize;
    var c := Capitalize(s.name);
    assert "get" + c + "" == "get" + c;
  }

  lemma {:induction false} SameRest(a: string, b: string, p: string)
    requires "get" + a + p == "get" + b + p
    ensures a == b
  {
    var n := "get" + a + p;
    assert a == n[3..3 + |a|] && b == n[3..3 + |b|];
  }

  lemma {:induction false} KindsApart(a: string, k: Kind, b: string, l: Kind)
    requires k != l && a + Suffix(k) == b + Suffix(l)
    ensures (k.Value? && EndsWith(a, Suffix(l))) || (l.Value? && EndsWith(b, Suffix(k)))
  {
    hide EndsWith, Suffix;
    if k.Value? {
      SuffixEnds(a, b, l);
    } else if l.Value? {
      SuffixEnds(b, a, k);
    } else {
      LastOf(a, k);
      LastOf(b, l);
    }
  }

  /** Names emitted for two fields, or two kinds of one field, differ. */
  lemma {:induction false} EmitsApart(f: string, k: Kind, g: string, l: Kind)
    requires PlainName(f) && PlainName(g) && (Capitalize(f) != Capitalize(g) || k != l)
    ensures Emits(f, k) != Emits(g, l)
  {
    hide Capitalize, EndsWith;
    var a, b := Capitalize(f), Capitalize(g);
    if Emits(f, k) == Emits(g, l) {
      if k == l {
        SameRest(a, b, Suffix(k));
      } else {
        AfterGet(a, Suffix(k));
        AfterGet(b, Suffix(l));
        KindsApart(a, k, b, l);
      }
    }
  }

  lemma {:induction false} AfterGet(a: string, p: string)
    ensures ("get" + a + p)[3..] == a + p
  {
  }

  lemma {:induction false} SuffixEnds(a: string, b: string, l: Kind)
    requires !l.Value? && a + Suffix(Value) == b + Suffix(l)
    ensures EndsWith(a, Suffix(l))
  {
    assert a + "" == a;
    assert a[|b|..] == Suffix(l);
  }

  lemma {:induction false} LastOf(s: string, k: Kind)
    requires !k.Value?
    ensures var n := s + Suffix(k); n[|n| - 1] == if k.Pointer? then 'r' else 'h'
  {
  }

  lemma {:induction false} NotOfTheTable(f: string, k: Kind)
    requires PlainName(f)
    ensures Emits(f, k) != VALIDATOR && Emits(f, k) != DATA_LENGTH
  {
    hide Capitalize;
    var c, n := Capitalize(f), Emits(f, k);
    assert n[0] == 'g' && VALIDATOR[0] == 'v';
    AfterGet(c, Suffix(k));
    assert DATA_LENGTH[3..] == "DataLength";
    assert c + "" == c;
    if k.Pointer? {
      LastOf("get" + c, k);
    }
  }

  /** Every emitted getter belongs to a field. */
  lemma {:induction false} GetterOf(ss: seq<Slot>, i: nat, k: nat) returns (j: nat, kind: Kind)
    requires k < |Getters(ss, i)|
    ensures j < |ss| && Getters(ss, i)[k].name == Emits(ss[j].name, kind)
    decreases |ss|
  {
    hide SlotGetters, Emits;
    EmittedNames(ss[0], i);
    var own := |SlotGetters(ss[0], i)|;
    if k < own {
      j, kind := 0, if ss[0].t.Fixed? then Value else if k == 0 then Pointer else Length;
    } else {
      j, kind := GetterOf(ss[1..], i + 1, k - own);
      j := j + 1;
    }
  }

  lemma {:induction false} GettersDistinct(ss: seq<Slot>, i: nat)
    requires NamesApart(ss)
    ensures DistinctNames(Getters(ss, i))
    decreases |ss|
  {
    hide SlotGetters, Emits, PlainName, Capitalize;
    if ss != [] {
      var own, rest := SlotGetters(ss[0], i), Getters(ss[1..], i + 1);
      EmittedNames(ss[0], i);
      ApartRest(ss);
      GettersDistinct(ss[1..], i + 1);
      var all: seq<Def> := own + rest;
      forall a, b | 0 <= a < b < |all|
        ensures all[a].name != all[b].name
      {
        if b < |own| {
          EmitsApart(ss[0].name, Pointer, ss[0].name, Length);
        } else if a < |own| {
          var j, kind := GetterOf(ss[1..], i + 1, b - |own|);
          assert ss[1..][j] == ss[j + 1];
          var k := if ss[0].t.Fixed? then Value else if a == 0 then Pointer else Length;
          EmitsApart(ss[0].name, k, ss[j + 1].name, kind);
        } else {
          assert rest[a - |own|].name != rest[b - |own|].name;
        }
      }
    }
  }

  lemma {:induction false} ApartRest(ss: seq<Slot>)
    requires ss != [] && NamesApart(ss)
    ensures NamesApart(ss[1..])
  {
    hide PlainName, Capitalize;
    assert forall i :: 0 <= i < |ss[1..]| ==> ss[1..][i] == ss[i + 1];
  }

  /** With names apart, the emitted program defines every function once. */
  lemma {:induction false} ApartIsDistinct(ss: seq<Slot>)
    requires NamesApart(ss)
    ensures DistinctNames(Utilities(ss))
  {
    hide Getters, Utilities, Emits, PlainName, Capitalize, NamesApart;
    TableNames(ss);
    GettersDistinct(ss, 0);
    var p, n := Utilities(ss), |Getters(ss, 0)|;
    ValidatorIsNotLength();
    forall i, j | 0 <= i < j < |p|
      ensures p[i].name != p[j].name
    {
      if i < n {
        assert p[i] == p[..n][i];
        var s, kind := GetterOf(ss, 0, i);
        NamesArePlain(ss, s);
        NotOfTheTable(ss[s].name, kind);
        if j < n {
          assert p[j] == p[..n][j];
        }
      }
    }
  }

  lemma {:induction false} NamesArePlain(ss: seq<Slot>, i: nat)
    requires NamesApart(ss) && i < |ss|
    ensures PlainName(ss[i].name)
  {
  }

  lemma {:induction false} TableNames(ss: seq<Slot>)
    ensures var p, n := Utilities(ss), |Getters(ss, 0)|;
      |p| == n + 2 && p[..n] == Getters(ss, 0) && p[n].name == VALIDATOR && p[n + 1].name == DATA_LENGTH
  {
    hide Getters, FixedChecks, Dynamics, Utilities;
    UtilitiesShape(ss);
  }

  lemma {:induction false} ValidatorIsNotLength()
    ensures VALIDATOR != DATA_LENGTH
  {
    assert VALIDATOR[0] == 'v' && DATA_LENGTH[0] == 'g';
  }

  /******* The table of the bootloader *******/

  const FIRST: seq<Field> := [
    Single("txType", Uint256), Single("from", Address), Single("to", Address), Single("gasLimit", Uint32),
    Single("gasPerPubdataByteLimit", Uint32), Single("maxFeePerGas", Uint256), Single("maxPriorityFeePerGas", Uint256),
    Single("paymaster", Address)]

  const RESERVED: seq<FixedType> := [Uint256, Uint256, Uint256, Uint256, Uint256, Uint256]

  const LAST: seq<Field> := [
    Tailed("data", BytesType), Tailed("signature", BytesType), Tailed("factoryDeps", Bytes32Array),
    Tailed("paymasterInput", BytesType), Tailed("reservedDynamic", BytesType)]

  const TRANSACTION_FIELDS: seq<Field> := FIRST + [Many("reserved", RESERVED)] + LAST

  function OnlySlot(f: Field): Slot
    requires !f.Many?
  {
    if f.Single? then Slot(f.name, Fixed(f.t)) else Slot(f.name, Dynamic(f.d))
  }

  lemma {:induction false} OneEach(fs: seq<Field>)
    requires forall i :: 0 <= i < |fs| ==> !fs[i].Many?
    ensures |Slots(fs)| == |fs| && forall i :: 0 <= i < |fs| ==> Slots(fs)[i] == OnlySlot(fs[i])
  {
    if fs != [] {
      OneEach(fs[1..]);
    }
  }

  /** The head words of the transaction: eight fields, six reserved words, five pointers. */
  lemma {:induction false} TransactionSlots()
    ensures var ss := Slots(TRANSACTION_FIELDS);
      && |ss| == 19
      && (forall i :: 0 <= i < 8 ==> ss[i] == OnlySlot(FIRST[i]))
      && (forall i :: 8 <= i < 14 ==> ss[i] == Slot("reserved" + Decimal(i - 8), Fixed(Uint256)))
      && (forall i :: 14 <= i < 19 ==> ss[i] == OnlySlot(LAST[i - 14]))
  {
    hide Slots, ArraySlots, Decimal;
    var middle := [Many("reserved", RESERVED)];
    SlotsConcat(FIRST + middle, LAST);
    SlotsConcat(FIRST, middle);
    OneEach(FIRST);
    OneEach(LAST);
    OnlyRow(Many("reserved", RESERVED));
    var ss, own := Slots(TRANSACTION_FIELDS), ArraySlots("reserved", RESERVED, 0);
    forall i | 8 <= i < 14
      ensures ss[i] == Slot("reserved" + Decimal(i - 8), Fixed(Uint256))
    {
      ArraySlotsAt("reserved", RESERVED, 0, i - 8);
      assert ss[i] == own[i - 8];
    }
  }

  lemma {:induction false} OnlyRow(f: Field)
    ensures Slots([f]) == FieldSlots(f)
  {
    assert [f][1..] == [];
    assert Slots([f]) == FieldSlots(f) + [] == FieldSlots(f);
  }

  /** Length, first and last character of a name: enough to tell the fields of the transaction apart. */
  function Mark(n: string): (nat, char, char)
    requires n != []
  {
    (|n|, UpperChar(n[0]), n[|n| - 1])
  }

  lemma {:induction false} MarksTell(a: string, b: string)
    requires |a| > 1 && |b| > 1 && Mark(a) != Mark(b)
    ensures Capitalize(a) != Capitalize(b)
  {
    var c, d := Capitalize(a), Capitalize(b);
    assert c[0] == UpperChar(a[0]) && c[|c| - 1] == a[|a| - 1];
    assert d[0] == UpperChar(b[0]) && d[|d| - 1] == b[|b| - 1];
  }

  lemma {:induction false} PlainByEnd(n: string)
    requires |n| > 2 && (n[|n| - 1] !in {'r', 'h'} || n[|n| - 2..] == "er")
    ensures PlainName(n)
  {
    var c := Capitalize(n);
    assert c[|c| - 1] == n[|n| - 1] && c[|c| - 2] == n[|n| - 2];
    assert "Ptr"[2] == 'r' && "Ptr"[1] == 't' && "BytesLength"[10] == 'h' && "DataLength"[9] == 'h';
  }

  const MARKS: seq<(nat, char, char)> := [
    (6, 'T', 'e'), (4, 'F', 'm'), (2, 'T', 'o'), (8, 'G', 't'), (22, 'G', 't'), (12, 'M', 's'), (20, 'M', 's'),
    (9, 'P', 'r'), (9, 'R', '0'), (9, 'R', '1'), (9, 'R', '2'), (9, 'R', '3'), (9, 'R', '4'), (9, 'R', '5'),
    (4, 'D', 'a'), (9, 'S', 'e'), (11, 'F', 's'), (14, 'P', 't'), (15, 'R', 'c')]

  lemma {:induction false} FirstMarks(i: nat)
    requires i < 8
    ensures |FIRST[i].name| > 1 && Mark(FIRST[i].name) == MARKS[i] && PlainName(FIRST[i].name)
  {
    hide PlainName;
    var n := FIRST[i].name;
    if i == 2 {
      ShortIsPlain(n);
    } else {
      PlainByEnd(n);
    }
  }

  lemma {:induction false} ShortIsPlain(n: string)
    requires |n| == 2
    ensures PlainName(n)
  {
  }

  lemma {:induction false} ReservedMarks(i: nat)
    requires i < 6
    ensures var n := "reserved" + Decimal(i); |n| > 1 && Mark(n) == MARKS[8 + i] && PlainName(n)
  {
    hide PlainName;
    var n := "reserved" + Decimal(i);
    assert Decimal(i) == [DigitChar(i)];
    PlainByEnd(n);
  }

  lemma {:induction false} LastMarks(i: nat)
    requires i < 5
    ensures |LAST[i].name| > 1 && Mark(LAST[i].name) == MARKS[14 + i] && PlainName(LAST[i].name)
  {
    hide PlainName;
    PlainByEnd(LAST[i].name);
  }

  lemma {:induction false} MarksDiffer(i: nat, j: nat)
    requires i < j < 19
    ensures MARKS[i] != MARKS[j]
  {
  }

  lemma {:induction false} SlotMarks(i: nat)
    requires i < 19
    ensures |Slots(TRANSACTION_FIELDS)| == 19
    ensures var n := Slots(TRANSACTION_FIELDS)[i].name; |n| > 1 && Mark(n) == MARKS[i] && PlainName(n)
  {
    hide Slots, PlainName, Mark, Decimal;
    TransactionSlots();
    if i < 8 {
      FirstMarks(i);
    } else if i < 14 {
      ReservedMarks(i - 8);
    } else {
      LastMarks(i - 14);
    }
  }

  /** The transaction table can be emitted, and its functions have distinct names. */
  lemma {:induction false} TransactionTable()
    ensures Emittable(Slots(TRANSACTION_FIELDS)) && DistinctNames(Utilities(Slots(TRANSACTION_FIELDS)))
  {
    hide Slots, PlainName, Mark, Decimal, Utilities, Capitalize, DistinctNames;
    var ss := Slots(TRANSACTION_FIELDS);
    TransactionSlots();
    forall i | 0 <= i < |ss|
      ensures PlainName(ss[i].name) && ErrorFits(ss[i].name)
    {
      SlotMarks(i);
      ShortNames(i, ss[i].name);
    }
    forall i, j | 0 <= i < j < |ss|
      ensures Capitalize(ss[i].name) != Capitalize(ss[j].name)
    {
      SlotMarks(i);
      SlotMarks(j);
      MarksDiffer(i, j);
      MarksTell(ss[i].name, ss[j].name);
    }
    ApartIsDistinct(ss);
  }

  lemma {:induction false} ShortNames(i: nat, n: string)
    requires i < 19 && n != [] && Mark(n) == MARKS[i]
    ensures ErrorFits(n)
  {
    assert MARKS[i].0 <= 22;
  }
}
