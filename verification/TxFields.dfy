/**
 The emitted utilities in terms of the field table: where each field lies, by which name it is read, which
 names are too long, and what a rejected encoding is reported as.
 */
module TxFields {
  import opened Text
  import opened Words
  import opened AbiEncoding
  import opened TupleCheck
  import opened Yul
  import opened TxLayout
  import opened TxLayoutCorrect
  import opened TxTable

  /******* Places *******/

  /** How many head words a field takes. */
  function Width(f: Field): nat {
    if f.Many? then |f.ts| else 1
  }

  /** The head words before field `k`. */
  function Start(fs: seq<Field>, k: nat): nat
    requires k <= |fs|
  {
    if k == 0 then 0 else Width(fs[0]) + Start(fs[1..], k - 1)
  }

  /** The name and type of word `j` of a field: arrays number their words. */
  function WordOf(f: Field, j: nat): Slot
    requires j < Width(f)
  {
    match f
    case Single(name, t) => Slot(name, Fixed(t))
    case Many(name, ts) => Slot(name + Decimal(j), Fixed(ts[j]))
    case Tailed(name, d) => Slot(name, Dynamic(d))
  }

  lemma {:induction false} FieldSlotAt(f: Field, j: nat)
    requires j < Width(f)
    ensures |FieldSlots(f)| == Width(f) && FieldSlots(f)[j] == WordOf(f, j)
  {
    hide Decimal;
    if f.Many? {
      ArraySlotsAt(f.name, f.ts, 0, j);
    }
  }

  /** Every field lies right behind the fields before it in the table. */
  lemma {:induction false} FieldAt(fs: seq<Field>, k: nat, j: nat)
    requires k < |fs| && j < Width(fs[k])
    ensures Start(fs, k) + j < |Slots(fs)| == Start(fs, |fs|)
    ensures Slots(fs)[Start(fs, k) + j] == WordOf(fs[k], j)
  {
    hide FieldSlots, Width, WordOf;
    SlotsLength(fs);
    FieldWidth(fs[0]);
    if k == 0 {
      FieldSlotAt(fs[0], j);
    } else {
      FieldAt(fs[1..], k - 1, j);
    }
  }

  lemma {:induction false} FieldWidth(f: Field)
    ensures |FieldSlots(f)| == Width(f)
  {
  }

  lemma {:induction false} SlotsLength(fs: seq<Field>)
    ensures |Slots(fs)| == Start(fs, |fs|)
  {
    if fs != [] {
      FieldWidth(fs[0]);
      SlotsLength(fs[1..]);
    }
  }

  /** The emitted getters of a field read the head words at its place in the table. */
  lemma {:induction false} FieldAnswers(fs: seq<Field>, k: nat, j: nat, m: Memory, o: word)
    requires k < |fs| && j < Width(fs[k]) && Linkable(Slots(fs), o)
    ensures o + 32 * (Start(fs, k) + j) < MODULUS
    ensures var p, w, f := Utilities(Slots(fs)), Mload(m, o + 32 * (Start(fs, k) + j)), fs[k];
      && (f.Single? ==> Invoke(p, m, "get" + Capitalize(f.name), o) == Done(w))
      && (f.Many? ==> Invoke(p, m, "get" + Capitalize(f.name + Decimal(j)), o) == Done(w))
      && (f.Tailed? ==>
            var r := Invoke(p, m, "get" + Capitalize(f.name) + "Ptr", o);
            r.Done? && r.value == (o + w) % MODULUS)
  {
    hide Slots, Start, Utilities, Invoke, Capitalize, Decimal, DistinctNames, Mload;
    FieldAt(fs, k, j);
    UtilitiesAnswer(Slots(fs), m, o, Start(fs, k) + j);
  }

  /******* Names that are too long *******/

  /** A table is emitted exactly when no field that needs a check has a name of more than 23 characters. */
  lemma {:induction false} EmittableIff(ss: seq<Slot>)
    ensures Emittable(ss) <==> forall i :: 0 <= i < |ss| && ss[i].t != Fixed(Uint256) ==> |ss[i].name| <= 23
  {
    assert |"Encoding "| == 9;
    assert forall i :: 0 <= i < |ss| ==> (ErrorFits(ss[i].name) <==> |ss[i].name| <= 23);
  }

  /******* Bounds of the fixed types *******/

  /** The types are as wide as their names say. */
  lemma {:induction false} TypeBounds()
    ensures TypeBound(Address) == Pow256(20) && TypeBound(Uint32) == Pow256(4)
    ensures TypeBound(Uint128) == Pow256(16) && TypeBound(Uint256) == Pow256(32)
  {
    assert Pow256(4) == 0x1_0000_0000;
    assert Pow256(8) == 0x1_0000_0000 * Pow256(4);
    Pow256Add(8, 8);
    Pow256Add(16, 4);
    ModulusIsPow256();
  }

  /******* What a rejected encoding is reported as *******/

  /** Field word `j` is the first one whose number is too large for its type. */
  ghost predicate FirstTooLarge(m: Memory, o: nat, ss: seq<Slot>, i: nat, j: nat) {
    && j < |ss| && ss[j].t.Fixed? && HeadWord(m, o, i + j) >= TypeBound(ss[j].t.fixed)
    && forall k :: 0 <= k < j && ss[k].t.Fixed? ==> HeadWord(m, o, i + k) < TypeBound(ss[k].t.fixed)
  }

  lemma {:induction false} FixedReports(
    p: Program, m: Memory, o: word, env: Env, ss: seq<Slot>, i: nat) returns (j: nat)
    requires AnswersAll(p, m, o, ss, i) && InCall(env, o, 0) && !FixedFit(m, o, i, Types(ss))
    ensures FirstTooLarge(m, o, ss, i, j)
    ensures Exec(p, m, env, FixedChecks(ss)) == AssertionError("Encoding " + ss[j].name)
    decreases |ss|
  {
    hide InCall, HeadWord, Answers, FixedCheck, Exec, TypeBound;
    var s := ss[0];
    assert Answers(p, m, o, s, i + 0);
    assert Types(ss)[0] == s.t && Types(ss)[1..] == Types(ss[1..]);
    AnswersRest(p, m, o, ss, i);
    ExecConcat(p, m, env, SlotChecks(s), FixedChecks(ss[1..]));
    if s.t.Fixed? {
      FixedCheckRuns(p, m, o, env, s, i);
    } else {
      ExecNothing(p, m, env);
    }
    if s.t.Fixed? && HeadWord(m, o, i) >= TypeBound(s.t.fixed) {
      j := 0;
    } else {
      var k := FixedReports(p, m, o, Exec(p, m, env, SlotChecks(s)).value, ss[1..], i + 1);
      j := k + 1;
      LaterTooLarge(m, o, ss, i, k);
    }
  }

  lemma {:induction false} LaterTooLarge(m: Memory, o: nat, ss: seq<Slot>, i: nat, j: nat)
    requires ss != [] && FirstTooLarge(m, o, ss[1..], i + 1, j)
    requires ss[0].t.Fixed? ==> HeadWord(m, o, i) < TypeBound(ss[0].t.fixed)
    ensures FirstTooLarge(m, o, ss, i, j + 1)
  {
    hide HeadWord, TypeBound;
    var rest := ss[1..];
    assert rest[j] == ss[j + 1] && i + 1 + j == i + (j + 1);
    forall k | 0 <= k < j + 1 && ss[k].t.Fixed?
      ensures HeadWord(m, o, i + k) < TypeBound(ss[k].t.fixed)
    {
      if k > 0 {
        assert rest[k - 1] == ss[k] && i + 1 + (k - 1) == i + k;
      }
    }
  }

  /** Field word `j` is the first one whose component is not where it is expected, or not encoded as it should be. */
  ghost predicate FirstMisplaced(m: Memory, o: nat, ss: seq<Slot>, i: nat, expected: nat, j: nat) {
    && j < |ss| && ss[j].t.Dynamic?
    && var end := TailsEnd(m, o, i, Types(ss[..j]), expected);
       end.Some? && (TailPtr(m, o, i + j) == end.value ==> ValidateDynamic(ss[j].t.dynamic, m, end.value).None?)
  }

  /** What is reported for it: the field, or the check of its contents that fails. */
  function MisplacedMessage(m: Memory, o: nat, ss: seq<Slot>, i: nat, expected: nat, j: nat): string
    requires j < |ss| && ss[j].t.Dynamic?
  {
    if TailsEnd(m, o, i, Types(ss[..j]), expected) != Some(TailPtr(m, o, i + j)) then "Encoding " + ss[j].name
    else if ss[j].t.dynamic == BytesType then "validateBytes" else "validateBytes32Array"
  }

  lemma {:induction false} EndBefore(m: Memory, o: nat, ss: seq<Slot>, i: nat, expected: nat, j: nat, next: nat)
    requires j < |ss| - 1
    requires if ss[0].t.Fixed? then next == expected
             else TailPtr(m, o, i) == expected && ValidateDynamic(ss[0].t.dynamic, m, TailPtr(m, o, i)) == Some(next)
    ensures TailsEnd(m, o, i, Types(ss[..j + 1]), expected) == TailsEnd(m, o, i + 1, Types(ss[1..][..j]), next)
  {
    hide TailPtr, ValidateDynamic;
    var front := ss[..j + 1];
    assert front[0] == ss[0] && front[1..] == ss[1..][..j];
    assert Types(front)[0] == ss[0].t && Types(front)[1..] == Types(front[1..]);
  }

  lemma {:induction false} LaterMisplaced(m: Memory, o: nat, ss: seq<Slot>, i: nat, expected: nat, j: nat, next: nat)
    requires ss != [] && FirstMisplaced(m, o, ss[1..], i + 1, next, j)
    requires if ss[0].t.Fixed? then next == expected
             else TailPtr(m, o, i) == expected && ValidateDynamic(ss[0].t.dynamic, m, TailPtr(m, o, i)) == Some(next)
    ensures FirstMisplaced(m, o, ss, i, expected, j + 1)
    ensures MisplacedMessage(m, o, ss, i, expected, j + 1) == MisplacedMessage(m, o, ss[1..], i + 1, next, j)
  {
    hide TailPtr, ValidateDynamic, TailsEnd, Types;
    assert ss[1..][j] == ss[j + 1] && i + 1 + j == i + (j + 1);
    EndBefore(m, o, ss, i, expected, j, next);
  }

  lemma {:induction false} DynamicReports(
    p: Program, m: Memory, o: word, env: Env, ss: seq<Slot>, i: nat, expected: nat)
    returns (j: nat)
    requires AnswersAll(p, m, o, ss, i) && InCall(env, o, 0) && Expects(env, expected)
    requires TailsEnd(m, o, i, Types(ss), expected).None?
    ensures FirstMisplaced(m, o, ss, i, expected, j)
    ensures Exec(p, m, env, DynamicChecks(Dynamics(ss)))
         == AssertionError(MisplacedMessage(m, o, ss, i, expected, j))
    decreases |ss|
  {
    hide InCall, Expects, TailPtr, Answers, DynamicCheck, ValidateDynamic, Exec, FirstMisplaced, MisplacedMessage;
    var s := ss[0];
    assert Answers(p, m, o, s, i + 0);
    assert Types(ss)[0] == s.t && Types(ss)[1..] == Types(ss[1..]);
    AnswersRest(p, m, o, ss, i);
    if s.t.Fixed? {
      assert Dynamics(ss) == Dynamics(ss[1..]);
      var k := DynamicReports(p, m, o, env, ss[1..], i + 1, expected);
      j := k + 1;
      LaterMisplaced(m, o, ss, i, expected, k, expected);
    } else {
      assert Dynamics(ss)[0] == (s.name, s.t.dynamic) && Dynamics(ss)[1..] == Dynamics(ss[1..]);
      ExecConcat(p, m, env, DynamicCheck(s.name, s.t.dynamic), DynamicChecks(Dynamics(ss[1..])));
      DynamicCheckRuns(p, m, o, env, s, i, expected);
      var end := ValidateDynamic(s.t.dynamic, m, TailPtr(m, o, i));
      if TailPtr(m, o, i) == expected && end.Some? {
        var k := DynamicReports(p, m, o, Exec(p, m, env, DynamicCheck(s.name, s.t.dynamic)).value, ss[1..], i + 1,
                                end.value);
        j := k + 1;
        LaterMisplaced(m, o, ss, i, expected, k, end.value);
      } else {
        j := 0;
        MisplacedAtOnce(m, o, ss, i, expected);
      }
    }
  }

  lemma {:induction false} MisplacedAtOnce(m: Memory, o: nat, ss: seq<Slot>, i: nat, expected: nat)
    requires ss != [] && ss[0].t.Dynamic?
    requires TailPtr(m, o, i) == expected ==> ValidateDynamic(ss[0].t.dynamic, m, TailPtr(m, o, i)).None?
    ensures FirstMisplaced(m, o, ss, i, expected, 0)
    ensures MisplacedMessage(m, o, ss, i, expected, 0)
         == if TailPtr(m, o, i) != expected then EncodingError(ss[0].name) else DynamicValidator(ss[0].t.dynamic)
  {
    hide TailPtr, ValidateDynamic;
    assert ss[..0] == [] && Types([]) == [];
  }

  /**
   A rejected encoding is reported under the name of its first number that is too large; if there is none, under
   the name of the first component that is not where the one before it ends, or as a failed check of contents.
   */
  lemma {:induction false} ValidatorReports(ss: seq<Slot>, m: Memory, o: word) returns (j: nat)
    requires Linkable(ss, o) && !Accepts(m, o, Types(ss))
    ensures var r := Invoke(Utilities(ss), m, "validateAbiEncoding", o);
      if !FixedFit(m, o, 0, Types(ss))
      then FirstTooLarge(m, o, ss, 0, j) && r == AssertionError("Encoding " + ss[j].name)
      else FirstMisplaced(m, o, ss, 0, o + 32 * |ss|, j)
           && r == AssertionError(MisplacedMessage(m, o, ss, 0, o + 32 * |ss|, j))
  {
    hide Getters, Utilities, FixedChecks, Dynamics, TailsEnd, FixedFit, FirstTooLarge, FirstMisplaced,
         MisplacedMessage, Exec, DistinctNames;
    UtilitiesShape(ss);
    FindUnique(Utilities(ss), |Getters(ss, 0)|);
    j := ReportOfRun(ss, m, o);
  }

  lemma {:induction false} ReportOfRun(ss: seq<Slot>, m: Memory, o: word) returns (j: nat)
    requires Linkable(ss, o) && !Accepts(m, o, Types(ss))
    ensures var r := ValidatorRun(ss, m, o);
      if !FixedFit(m, o, 0, Types(ss))
      then FirstTooLarge(m, o, ss, 0, j) && r == AssertionError("Encoding " + ss[j].name)
      else FirstMisplaced(m, o, ss, 0, o + 32 * |ss|, j)
           && r == AssertionError(MisplacedMessage(m, o, ss, 0, o + 32 * |ss|, j))
  {
    hide Getters, Utilities, FixedChecks, Dynamics, DynamicChecks, TailsEnd, FixedFit, Exec, InCall, Expects, AnswersAll,
         DistinctNames, FirstTooLarge, FirstMisplaced, MisplacedMessage;
    var p := Getters(ss, 0);
    var env: Env := map[INNER := o, "ret" := 0];
    CallStarts(o);
    UtilitiesShape(ss);
    PrefixDistinct(Utilities(ss), |p|);
    GettersAnswer(p, ss, m, o);
    var start := [Let(EXPECTED, Call2("add", Id(INNER), Lit(32 * |ss|)))];
    ExecConcat(p, m, env, FixedChecks(ss), start + DynamicChecks(Dynamics(ss)));
    FixedChecksRun(p, m, o, env, ss, 0);
    if !FixedFit(m, o, 0, Types(ss)) {
      j := FixedReports(p, m, o, env, ss, 0);
    } else {
      var checked := Exec(p, m, env, FixedChecks(ss)).value;
      StartRuns(p, m, checked, o, |ss|);
      ExecConcat(p, m, checked, start, DynamicChecks(Dynamics(ss)));
      j := DynamicReports(p, m, o, Exec(p, m, checked, start).value, ss, 0, o + 32 * |ss|);
    }
  }

  /******* The bootloader's transaction *******/

  lemma {:induction false} NameIs(front: char, rest: string, name: string, capital: string)
    requires name == [front] + rest && capital == [UpperChar(front)] + rest
    ensures GetterName(name) == "get" + capital && PtrGetterName(name) == "get" + capital + "Ptr"
  {
    assert name[0] == front && name[1..] == rest;
  }

  lemma {:induction false} TxTypeName()
    ensures GetterName("txType") == "get" + "TxType"
  {
    hide GetterName, PtrGetterName;
    NameIs('t', "xType", "txType", "TxType");
  }

  lemma {:induction false} FromName()
    ensures GetterName("from") == "get" + "From"
  {
    hide GetterName, PtrGetterName;
    NameIs('f', "rom", "from", "From");
  }

  lemma {:induction false} ToName()
    ensures GetterName("to") == "get" + "To"
  {
    hide GetterName, PtrGetterName;
    NameIs('t', "o", "to", "To");
  }

  lemma {:induction false} GasLimitName()
    ensures GetterName("gasLimit") == "get" + "GasLimit"
  {
    hide GetterName, PtrGetterName;
    NameIs('g', "asLimit", "gasLimit", "GasLimit");
  }

  lemma {:induction false} GasPerPubdataByteLimitName()
    ensures GetterName("gasPerPubdataByteLimit") == "get" + "GasPerPubdataByteLimit"
  {
    hide GetterName, PtrGetterName;
    NameIs('g', "asPerPubdataByteLimit", "gasPerPubdataByteLimit", "GasPerPubdataByteLimit");
  }

  lemma {:induction false} MaxFeePerGasName()
    ensures GetterName("maxFeePerGas") == "get" + "MaxFeePerGas"
  {
    hide GetterName, PtrGetterName;
    NameIs('m', "axFeePerGas", "maxFeePerGas", "MaxFeePerGas");
  }

  lemma {:induction false} MaxPriorityFeePerGasName()
    ensures GetterName("maxPriorityFeePerGas") == "get" + "MaxPriorityFeePerGas"
  {
    hide GetterName, PtrGetterName;
    NameIs('m', "axPriorityFeePerGas", "maxPriorityFeePerGas", "MaxPriorityFeePerGas");
  }

  lemma {:induction false} PaymasterName()
    ensures GetterName("paymaster") == "get" + "Paymaster"
  {
    hide GetterName, PtrGetterName;
    NameIs('p', "aymaster", "paymaster", "Paymaster");
  }

  lemma {:induction false} DataName()
    ensures PtrGetterName("data") == "get" + "Data" + "Ptr"
  {
    hide GetterName, PtrGetterName;
    NameIs('d', "ata", "data", "Data");
  }

  lemma {:induction false} SignatureName()
    ensures PtrGetterName("signature") == "get" + "Signature" + "Ptr"
  {
    hide GetterName, PtrGetterName;
    NameIs('s', "ignature", "signature", "Signature");
  }

  lemma {:induction false} FactoryDepsName()
    ensures PtrGetterName("factoryDeps") == "get" + "FactoryDeps" + "Ptr"
  {
    hide GetterName, PtrGetterName;
    NameIs('f', "actoryDeps", "factoryDeps", "FactoryDeps");
  }

  lemma {:induction false} PaymasterInputName()
    ensures PtrGetterName("paymasterInput") == "get" + "PaymasterInput" + "Ptr"
  {
    hide GetterName, PtrGetterName;
    NameIs('p', "aymasterInput", "paymasterInput", "PaymasterInput");
  }

  lemma {:induction false} ReservedDynamicName()
    ensures PtrGetterName("reservedDynamic") == "get" + "ReservedDynamic" + "Ptr"
  {
    hide GetterName, PtrGetterName;
    NameIs('r', "eservedDynamic", "reservedDynamic", "ReservedDynamic");
  }

  /** The emitted utilities of the bootloader. */
  function TransactionUtilities(): Program {
    Utilities(Slots(TRANSACTION_FIELDS))
  }

  lemma {:induction false} WordRead(i: nat, m: Memory, o: word)
    requires i < 19 && o + 32 * 19 < MODULUS
    ensures var ss := Slots(TRANSACTION_FIELDS);
      && |ss| == 19
      && (ss[i].t.Fixed? ==>
            Invoke(TransactionUtilities(), m, GetterName(ss[i].name), o) == Done(Mload(m, o + 32 * i)))
      && (ss[i].t.Dynamic? ==>
            var r := Invoke(TransactionUtilities(), m, PtrGetterName(ss[i].name), o);
            r.Done? && r.value == (o + Mload(m, o + 32 * i)) % MODULUS)
  {
    hide Slots, Utilities, Invoke, GetterName, PtrGetterName, DistinctNames, Mload, BytesLengthGetterName, Decimal;
    TransactionSlots();
    TransactionTable();
    UtilitiesAnswer(Slots(TRANSACTION_FIELDS), m, o, i);
  }

  /** The numbers of a transaction are read from its first eight words, in this order. */
  lemma {:induction false} TransactionNumbers(m: Memory, o: word)
    requires o + 32 * 19 < MODULUS
    ensures var p := TransactionUtilities();
      && Invoke(p, m, "get" + "TxType", o) == Done(Mload(m, o + 0))
      && Invoke(p, m, "get" + "From", o) == Done(Mload(m, o + 32))
      && Invoke(p, m, "get" + "To", o) == Done(Mload(m, o + 64))
      && Invoke(p, m, "get" + "GasLimit", o) == Done(Mload(m, o + 96))
      && Invoke(p, m, "get" + "GasPerPubdataByteLimit", o) == Done(Mload(m, o + 128))
      && Invoke(p, m, "get" + "MaxFeePerGas", o) == Done(Mload(m, o + 160))
      && Invoke(p, m, "get" + "MaxPriorityFeePerGas", o) == Done(Mload(m, o + 192))
      && Invoke(p, m, "get" + "Paymaster", o) == Done(Mload(m, o + 224))
  {
    hide Slots, TransactionUtilities, Invoke, GetterName, PtrGetterName, Mload, Decimal;
    TransactionSlots();
    WordRead(0, m, o);
    TxTypeName();
    WordRead(1, m, o);
    FromName();
    WordRead(2, m, o);
    ToName();
    WordRead(3, m, o);
    GasLimitName();
    WordRead(4, m, o);
    GasPerPubdataByteLimitName();
    WordRead(5, m, o);
    MaxFeePerGasName();
    WordRead(6, m, o);
    MaxPriorityFeePerGasName();
    WordRead(7, m, o);
    PaymasterName();
  }

  /** The reserved words follow. */
  lemma {:induction false} TransactionReserved(i: nat, m: Memory, o: word)
    requires i < 6 && o + 32 * 19 < MODULUS
    ensures Invoke(TransactionUtilities(), m, "getReserved" + Decimal(i), o) == Done(Mload(m, o + 256 + 32 * i))
  {
    hide Slots, TransactionUtilities, Invoke, GetterName, PtrGetterName, Mload, Decimal;
    TransactionSlots();
    WordRead(8 + i, m, o);
    ReservedName(Decimal(i));
  }

  lemma {:induction false} ReservedName(digits: string)
    ensures GetterName("reserved" + digits) == "getReserved" + digits
  {
    hide GetterName, PtrGetterName;
    NameIs('r', "eserved" + digits, "reserved" + digits, "Reserved" + digits);
    Assoc("get", "Reserved", digits);
    assert "get" + "Reserved" == "getReserved";
  }

  /** The pointers to the dynamic parts come last. */
  lemma {:induction false} TransactionPointers(m: Memory, o: word)
    requires o + 32 * 19 < MODULUS
    ensures var r := Invoke(TransactionUtilities(), m, "get" + "Data" + "Ptr", o);
      r.Done? && r.value == (o + Mload(m, o + 448)) % MODULUS
    ensures var r := Invoke(TransactionUtilities(), m, "get" + "Signature" + "Ptr", o);
      r.Done? && r.value == (o + Mload(m, o + 480)) % MODULUS
    ensures var r := Invoke(TransactionUtilities(), m, "get" + "FactoryDeps" + "Ptr", o);
      r.Done? && r.value == (o + Mload(m, o + 512)) % MODULUS
    ensures var r := Invoke(TransactionUtilities(), m, "get" + "PaymasterInput" + "Ptr", o);
      r.Done? && r.value == (o + Mload(m, o + 544)) % MODULUS
    ensures var r := Invoke(TransactionUtilities(), m, "get" + "ReservedDynamic" + "Ptr", o);
      r.Done? && r.value == (o + Mload(m, o + 576)) % MODULUS
  {
    hide Slots, TransactionUtilities, Invoke, GetterName, PtrGetterName, Mload, Decimal;
    TransactionSlots();
    WordRead(14, m, o);
    DataName();
    WordRead(15, m, o);
    SignatureName();
    WordRead(16, m, o);
    FactoryDepsName();
    WordRead(17, m, o);
    PaymasterInputName();
    WordRead(18, m, o);
    ReservedDynamicName();
  }
}
