/**
 The generator of the bootloader's transaction utilities: from a table of fields it emits
 getters, pointer getters, length getters, the validator of the ABI encoding and the
 length of the whole encoding.
 */
module TxLayout {
  import opened Text
  import opened AbiEncoding
  import opened Yul

  /** A row of the field table: one head word, or as many as the array has elements. */
  datatype Field =
    | Single(name: string, t: FixedType)
    | Many(name: string, ts: seq<FixedType>)
    | Tailed(name: string, d: DynamicType)

  /** One head word of the encoding. */
  datatype Slot = Slot(name: string, t: SlotType)

  const INNER := "innerTxDataOffset"
  const EXPECTED := "expectedDynamicLenPtr"
  const VALIDATOR := "validateAbiEncoding"
  const DATA_LENGTH := "getDataLength"

  /******* Names *******/

  function Capitalize(s: string): string {
    if s == [] then s else [UpperChar(s[0])] + s[1..]
  }

  function GetterName(f: string): string {
    "get" + Capitalize(f)
  }

  function PtrGetterName(f: string): string {
    "get" + Capitalize(f) + "Ptr"
  }

  function BytesLengthGetterName(f: string): string {
    "get" + Capitalize(f) + "BytesLength"
  }

  function FixedValidator(t: FixedType): string {
    match t
    case Address => "validateAddress"
    case Uint256 => "validateUint256"
    case Uint128 => "validateUint128"
    case Uint32 => "validateUint32"
  }

  function DynamicValidator(d: DynamicType): string {
    match d
    case BytesType => "validateBytes"
    case Bytes32Array => "validateBytes32Array"
  }

  function EncodingError(f: string): string {
    "Encoding " + f
  }

  /** `getEncodingError` throws for messages of more than 32 characters. */
  predicate ErrorFits(f: string) {
    |EncodingError(f)| <= 32
  }

  /******* Emitted code *******/

  function MemPos(offset: nat): Expr {
    if offset == 0 then Id(INNER) else Call2("add", Id(INNER), Lit(offset))
  }

  function Getter(f: string, offset: nat): Def {
    Def(GetterName(f), INNER, [Assign("ret", Call1("mload", MemPos(offset)))])
  }

  function PtrGetter(f: string, offset: nat): Def {
    Def(PtrGetterName(f), INNER,
        [Assign("ret", Call1("mload", MemPos(offset))), Assign("ret", Call2("add", Id(INNER), Id("ret")))])
  }

  function LengthToBytes(d: DynamicType): Expr {
    match d
    case BytesType => Call1("lengthToWords", Call1("mload", Id("ptr")))
    case Bytes32Array => Call2("mul", Call1("mload", Id("ptr")), Lit(32))
  }

  function BytesLengthGetter(f: string, d: DynamicType): Def {
    Def(BytesLengthGetterName(f), INNER,
        [Let("ptr", Call1(PtrGetterName(f), Id(INNER))), Assign("ret", LengthToBytes(d))])
  }

  function ValueVar(f: string): string {
    f + "Value"
  }

  function PosVar(f: string): string {
    f + "LengthPos"
  }

  function FixedCheck(f: string, t: FixedType): seq<Stmt> {
    if t == Uint256 then []
    else
      [Let(ValueVar(f), Call1(GetterName(f), Id(INNER))),
       AssertNot(Call1("iszero", Call1(FixedValidator(t), Id(ValueVar(f)))), EncodingError(f))]
  }

  function DynamicCheck(f: string, d: DynamicType): seq<Stmt> {
    [Let(PosVar(f), Call1(PtrGetterName(f), Id(INNER))),
     AssertNot(Call1("iszero", Call2("eq", Id(PosVar(f)), Id(EXPECTED))), EncodingError(f))]
    + [Assign(EXPECTED, Call1(DynamicValidator(d), Id(PosVar(f))))]
  }

  function DynamicChecks(ds: seq<(string, DynamicType)>): seq<Stmt> {
    if ds == [] then [] else DynamicCheck(ds[0].0, ds[0].1) + DynamicChecks(ds[1..])
  }

  function Validator(fixedChecks: seq<Stmt>, fixedLen: nat, ds: seq<(string, DynamicType)>): Def {
    Def(VALIDATOR, INNER,
        fixedChecks + ([Let(EXPECTED, Call2("add", Id(INNER), Lit(fixedLen)))] + DynamicChecks(ds)))
  }

  function LengthAdders(ds: seq<(string, DynamicType)>): seq<Stmt> {
    if ds == [] then []
    else
      [Assign("ret", Call2("add", Id("ret"), Call1(BytesLengthGetterName(ds[0].0), Id(INNER))))]
      + LengthAdders(ds[1..])
  }

  function DataLength(baseLength: nat, ds: seq<(string, DynamicType)>): Def {
    Def(DATA_LENGTH, INNER, [Assign("ret", Lit(baseLength + |ds| * 32))] + LengthAdders(ds))
  }

  /******* The program as a function of the head words *******/

  function ArraySlots(name: string, ts: seq<FixedType>, i: nat): (ss: seq<Slot>)
    requires i <= |ts|
    ensures |ss| == |ts| - i
    decreases |ts| - i
  {
    if i == |ts| then [] else [Slot(name + Decimal(i), Fixed(ts[i]))] + ArraySlots(name, ts, i + 1)
  }

  function FieldSlots(f: Field): seq<Slot> {
    match f
    case Single(name, t) => [Slot(name, Fixed(t))]
    case Many(name, ts) => ArraySlots(name, ts, 0)
    case Tailed(name, d) => [Slot(name, Dynamic(d))]
  }

  function Slots(fs: seq<Field>): seq<Slot> {
    if fs == [] then [] else FieldSlots(fs[0]) + Slots(fs[1..])
  }

  function SlotGetters(s: Slot, i: nat): seq<Def> {
    match s.t
    case Fixed(_) => [Getter(s.name, 32 * i)]
    case Dynamic(d) => [PtrGetter(s.name, 32 * i), BytesLengthGetter(s.name, d)]
  }

  function Getters(ss: seq<Slot>, i: nat): seq<Def>
    decreases |ss|
  {
    if ss == [] then [] else SlotGetters(ss[0], i) + Getters(ss[1..], i + 1)
  }

  function SlotChecks(s: Slot): seq<Stmt> {
    if s.t.Fixed? then FixedCheck(s.name, s.t.fixed) else []
  }

  function FixedChecks(ss: seq<Slot>): seq<Stmt> {
    if ss == [] then [] else SlotChecks(ss[0]) + FixedChecks(ss[1..])
  }

  function SlotDynamic(s: Slot): seq<(string, DynamicType)> {
    if s.t.Dynamic? then [(s.name, s.t.dynamic)] else []
  }

  function Dynamics(ss: seq<Slot>): seq<(string, DynamicType)> {
    if ss == [] then [] else SlotDynamic(ss[0]) + Dynamics(ss[1..])
  }

  function Utilities(ss: seq<Slot>): Program {
    Getters(ss, 0)
    + [Validator(FixedChecks(ss), 32 * |ss|, Dynamics(ss))]
    + [DataLength(32 * |ss|, Dynamics(ss))]
  }

  /** No assertion message that the table needs is too long. */
  predicate Emittable(ss: seq<Slot>) {
    forall i :: 0 <= i < |ss| ==> ss[i].t == Fixed(Uint256) || ErrorFits(ss[i].name)
  }

  /******* The generator *******/

  method ValidateFixedSizeField(f: string, t: FixedType) returns (r: Result<seq<Stmt>>)
    ensures r == if t == Uint256 || ErrorFits(f) then Success(FixedCheck(f, t)) else Failure("Assertion str too long")
  {
    if t == Uint256 {
      return Success([]);
    }
    if |EncodingError(f)| > 32 {
      return Failure("Assertion str too long");
    }
    r := Success(FixedCheck(f, t));
  }

  lemma {:induction false} GettersConcat(a: seq<Slot>, b: seq<Slot>, i: nat)
    ensures Getters(a + b, i) == Getters(a, i) + Getters(b, i + |a|)
    decreases |a|
  {
    if a == [] {
      assert a + b == b;
    } else {
      assert (a + b)[1..] == a[1..] + b;
      GettersConcat(a[1..], b, i + 1);
    }
  }

  lemma {:induction false} ChecksConcat(a: seq<Slot>, b: seq<Slot>)
    ensures FixedChecks(a + b) == FixedChecks(a) + FixedChecks(b)
    ensures Dynamics(a + b) == Dynamics(a) + Dynamics(b)
  {
    if a == [] {
      assert a + b == b;
    } else {
      assert (a + b)[1..] == a[1..] + b;
      ChecksConcat(a[1..], b);
    }
  }

  lemma {:induction false} OneSlot(s: Slot, i: nat)
    ensures Getters([s], i) == SlotGetters(s, i)
    ensures FixedChecks([s]) == SlotChecks(s)
    ensures Dynamics([s]) == SlotDynamic(s)
  {
    hide SlotGetters, SlotChecks, SlotDynamic;
    assert [s][1..] == [];
    assert Getters([], i + 1) == [] && FixedChecks([]) == [] && Dynamics([]) == [];
  }

  /** What one more head word adds to every part of the output. */
  lemma {:induction false} OneMoreSlot(ss: seq<Slot>, s: Slot)
    ensures Getters(ss + [s], 0) == Getters(ss, 0) + SlotGetters(s, |ss|)
    ensures FixedChecks(ss + [s]) == FixedChecks(ss) + SlotChecks(s)
    ensures Dynamics(ss + [s]) == Dynamics(ss) + SlotDynamic(s)
  {
    hide Getters, FixedChecks, Dynamics, SlotGetters, SlotChecks, SlotDynamic;
    OneSlot(s, |ss|);
    GettersConcat(ss, [s], 0);
    ChecksConcat(ss, [s]);
  }

  lemma {:induction false} SlotsConcat(a: seq<Field>, b: seq<Field>)
    ensures Slots(a + b) == Slots(a) + Slots(b)
  {
    if a == [] {
      assert a + b == b;
    } else {
      assert (a + b)[1..] == a[1..] + b;
      SlotsConcat(a[1..], b);
    }
  }

  lemma {:induction false} ArraySlotsAt(name: string, ts: seq<FixedType>, i: nat, k: nat)
    requires i <= k < |ts|
    ensures ArraySlots(name, ts, i)[k - i] == Slot(name + Decimal(k), Fixed(ts[k]))
    decreases |ts| - i
  {
    if i < k {
      ArraySlotsAt(name, ts, i + 1, k);
    }
  }

  /** What the generator has built after the head words `ss`. */
  ghost predicate Emitted(ss: seq<Slot>, offset: nat, result: Program, checks: seq<Stmt>,
                          ds: seq<(string, DynamicType)>)
  {
    && offset == 32 * |ss| && result == Getters(ss, 0) && checks == FixedChecks(ss) && ds == Dynamics(ss)
    && forall i :: 0 <= i < |ss| && ss[i].t.Fixed? ==> ss[i].t == Fixed(Uint256) || ErrorFits(ss[i].name)
  }

  lemma {:induction false} NothingEmitted()
    ensures Emitted([], 0, [], [], []) && Slots([]) == []
  {
  }

  lemma {:induction false} EmittedFixed(
    ss: seq<Slot>, offset: nat, result: Program, checks: seq<Stmt>, ds: seq<(string, DynamicType)>, f: string,
    t: FixedType)
    requires Emitted(ss, offset, result, checks, ds) && (t == Uint256 || ErrorFits(f))
    ensures Emitted(ss + [Slot(f, Fixed(t))], offset + 32, result + [Getter(f, offset)],
                    checks + FixedCheck(f, t), ds)
  {
    OneMoreSlot(ss, Slot(f, Fixed(t)));
    hide Getters, FixedChecks, Dynamics, Getter, FixedCheck;
  }

  lemma {:induction false} EmittedDynamic(
    ss: seq<Slot>, offset: nat, result: Program, checks: seq<Stmt>, ds: seq<(string, DynamicType)>, f: string,
    d: DynamicType)
    requires Emitted(ss, offset, result, checks, ds)
    ensures Emitted(ss + [Slot(f, Dynamic(d))], offset + 32,
                    result + [PtrGetter(f, offset)] + [BytesLengthGetter(f, d)], checks, ds + [(f, d)])
  {
    OneMoreSlot(ss, Slot(f, Dynamic(d)));
    hide Getters, FixedChecks, Dynamics, PtrGetter, BytesLengthGetter;
  }

  /** `getTransactionUtils`: the loops over the table emit the program of its head words. */
  method GetTransactionUtils(fields: seq<Field>) returns (r: Result<Program>)
    ensures r.Success? <==> Emittable(Slots(fields))
    ensures r.Success? ==> r.value == Utilities(Slots(fields))
  {
    hide Getters, FixedChecks, Dynamics, Getter, FixedCheck, PtrGetter, BytesLengthGetter, Validator, DataLength,
         Slots, ArraySlots;
    var result: Program := [];
    var innerOffsetBytes := 0;
    var checks: seq<Stmt> := [];
    var dynamicFields: seq<(string, DynamicType)> := [];
    ghost var ss: seq<Slot> := [];
    NothingEmitted();
    assert fields[..0] == [];
    for n := 0 to |fields|
      invariant ss == Slots(fields[..n])
      invariant Emitted(ss, innerOffsetBytes, result, checks, dynamicFields)
    {
      ghost var before := ss;
      SlotsOneMore(fields, n);
      match fields[n]
      case Many(name, ts) =>
        ghost var arraySlots := ArraySlots(name, ts, 0);
        for i := 0 to |ts|
          invariant ss == before + arraySlots[..i]
          invariant Emitted(ss, innerOffsetBytes, result, checks, dynamicFields)
        {
          var keyName := name + Decimal(i);
          ghost var s := Slot(keyName, Fixed(ts[i]));
          ArraySlotsAt(name, ts, 0, i);
          if ts[i] == Uint256 || ErrorFits(keyName) {
            EmittedFixed(ss, innerOffsetBytes, result, checks, dynamicFields, keyName, ts[i]);
          }
          result := result + [Getter(keyName, innerOffsetBytes)];
          var check := ValidateFixedSizeField(keyName, ts[i]);
          if check.Failure? {
            SlotRemains(fields, n, before, arraySlots, i);
            return Failure(check.error);
          }
          checks := checks + check.value;
          innerOffsetBytes := innerOffsetBytes + 32;
          ss := ss + [s];
          assert arraySlots[..i + 1] == arraySlots[..i] + [s];
        }
        assert arraySlots[..|ts|] == arraySlots;
      case Single(name, t) =>
        if t == Uint256 || ErrorFits(name) {
          EmittedFixed(ss, innerOffsetBytes, result, checks, dynamicFields, name, t);
        }
        result := result + [Getter(name, innerOffsetBytes)];
        var check := ValidateFixedSizeField(name, t);
        if check.Failure? {
          SlotRemains(fields, n, before, FieldSlots(fields[n]), 0);
          return Failure(check.error);
        }
        checks := checks + check.value;
        innerOffsetBytes := innerOffsetBytes + 32;
        ss := ss + [Slot(name, Fixed(t))];
      case Tailed(name, d) =>
        EmittedDynamic(ss, innerOffsetBytes, result, checks, dynamicFields, name, d);
        result := result + [PtrGetter(name, innerOffsetBytes)];
        result := result + [BytesLengthGetter(name, d)];
        dynamicFields := dynamicFields + [(name, d)];
        innerOffsetBytes := innerOffsetBytes + 32;
        ss := ss + [Slot(name, Dynamic(d))];
    }
    assert fields[..|fields|] == fields;
    DynamicsAreSlots(ss);
    if exists i :: 0 <= i < |dynamicFields| && !ErrorFits(dynamicFields[i].0) {
      return Failure("Assertion str too long");
    }
    result := result + [Validator(checks, innerOffsetBytes, dynamicFields)];
    result := result + [DataLength(innerOffsetBytes, dynamicFields)];
    r := Success(result);
  }

  lemma {:induction false} SlotsOneMore(fields: seq<Field>, n: nat)
    requires n < |fields|
    ensures Slots(fields[..n + 1]) == Slots(fields[..n]) + FieldSlots(fields[n])
  {
    assert fields[..n + 1] == fields[..n] + [fields[n]];
    SlotsConcat(fields[..n], [fields[n]]);
    assert Slots([fields[n]]) == FieldSlots(fields[n]) + Slots([]);
  }

  /** The head words of a row keep their place in the head words of the table. */
  lemma {:induction false} SlotRemains(fields: seq<Field>, n: nat, before: seq<Slot>, own: seq<Slot>, i: nat)
    requires n < |fields| && before == Slots(fields[..n]) && own == FieldSlots(fields[n]) && i < |own|
    ensures |before| + i < |Slots(fields)| && Slots(fields)[|before| + i] == own[i]
  {
    hide Slots, FieldSlots;
    SlotsOneMore(fields, n);
    assert fields == fields[..n + 1] + fields[n + 1..];
    SlotsConcat(fields[..n + 1], fields[n + 1..]);
  }

  lemma {:induction false} DynamicsAreSlots(ss: seq<Slot>)
    ensures (exists i :: 0 <= i < |Dynamics(ss)| && !ErrorFits(Dynamics(ss)[i].0))
        <==> (exists i :: 0 <= i < |ss| && ss[i].t.Dynamic? && !ErrorFits(ss[i].name))
  {
    if ss != [] {
      DynamicsAreSlots(ss[1..]);
      var ds, rest := Dynamics(ss), Dynamics(ss[1..]);
      if k :| 0 <= k < |rest| && !ErrorFits(rest[k].0) {
        assert ds[|ds| - |rest| + k] == rest[k];
      }
      if k :| 0 <= k < |ss[1..]| && ss[1..][k].t.Dynamic? && !ErrorFits(ss[1..][k].name) {
        assert ss[k + 1] == ss[1..][k];
      }
      if ss[0].t.Dynamic? {
        assert ds[0] == (ss[0].name, ss[0].t.dynamic);
      }
    }
  }
}
