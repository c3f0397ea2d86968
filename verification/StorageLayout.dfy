/**
 The documented storage layout of Solidity, stated for whole values, and the values that the storage
 reader gives back from it.
 */
module StorageLayout {
  import opened Text
  import opened Words
  import opened SolidityStorage
  import opened StorageFacts

  /******* Kinds of primitive types *******/

  datatype Kind =
    | NumberKind
    | BoolKind
    | AddressKind
    | BytesKind
    | FixedBytesKind
    | StringKind
    | EnumKind
    | MappingKind
    | OtherKind

  function KindOf(types: TypeTable, t: string): Kind
    requires t in types
  {
    if "t_int" <= t || "t_uint" <= t then NumberKind
    else if t == "t_bool" then BoolKind
    else if t == "t_address" || t == "t_address_payable" then AddressKind
    else if t == "t_bytes_storage" then BytesKind
    else if "t_bytes" <= t then FixedBytesKind
    else if t == "t_string_storage" then StringKind
    else if "t_enum" <= t then EnumKind
    else if types[t].encoding == "mapping" then MappingKind
    else OtherKind
  }

  /** What the reader makes of each kind. */
  lemma {:induction false} PrimitiveByKind(c: Chain, types: TypeTable, slot: nat, shift: nat, t: string)
    requires t in types
    ensures var data, n := c.storage(slot), types[t].numberOfBytes;
      Primitive(c, types, slot, shift, t)
      == match KindOf(types, t)
         case NumberKind => Number(NumberAt(data, shift, types[t].typeName))
         case BoolKind => Boolean(NumberAt(data, shift, "uint8") != 0)
         case AddressKind => Data(SlotBytes(data, shift, 20))
         case BytesKind => Data(DynamicBytes(c, slot))
         case FixedBytesKind => Data(SlotBytes(data, shift, n))
         case StringKind => Utf8(DynamicBytes(c, slot))
         case EnumKind => Number(FromBytes(SlotBytes(data, shift, n)))
         case MappingKind => Undefined
         case OtherKind => Undefined
  {
    hide NumberAt, SlotBytes, DynamicBytes, FromBytes;
  }

  /******* The layout *******/

  predicate IsSigned(t: string) {
    "t_int" <= t
  }

  /** The labels of the number types name their sign and size, as the compiler prints them. */
  ghost predicate Labelled(types: TypeTable) {
    forall t :: t in types && IsNumber(t) ==>
      0 < types[t].numberOfBytes && types[t].typeName == NumberName(IsSigned(t), types[t].numberOfBytes)
  }

  /** The bytes lie in the slot and `shift` bytes follow them. */
  predicate Packed(data: SlotData, shift: nat, bytes: seq<byte>) {
    shift + |bytes| <= 32 && data[32 - shift - |bytes|..32 - shift] == bytes
  }

  /** The bytes of a number in two's complement. */
  function NumberBytesOf(v: int, n: nat): seq<byte>
    requires v + Pow256(n) >= 0
  {
    ToBytes(if v < 0 then v + Pow256(n) else v, n)
  }

  /** How a primitive value of each type lies in storage. */
  ghost predicate HoldsPrimitive(c: Chain, types: TypeTable, slot: nat, shift: nat, t: string, v: Value)
    requires t in types
  {
    var data, n := c.storage(slot), types[t].numberOfBytes;
    match KindOf(types, t)
    case NumberKind => v.Number? && InRange(IsSigned(t), n, v.n) && Packed(data, shift, NumberBytesOf(v.n, n))
    case BoolKind => v.Boolean? && Packed(data, shift, [if v.b then 1 else 0])
    case AddressKind => v.Data? && |v.bytes| == 20 && Packed(data, shift, v.bytes)
    case BytesKind => v.Data? && HoldsBytes(c, slot, v.bytes)
    case FixedBytesKind => v.Data? && |v.bytes| == n && Packed(data, shift, v.bytes)
    case StringKind => v.Utf8? && HoldsBytes(c, slot, v.bytes)
    case EnumKind => v.Number? && 0 <= v.n < Pow256(n) && Packed(data, shift, NumberBytesOf(v.n, n))
    case MappingKind => v == Undefined
    case OtherKind => v.Data? && |v.bytes| == n && Packed(data, shift, v.bytes)
  }

  /** The names by which the compiler tells arrays and structs. */
  predicate NamesArray(t: string) {
    "t_array" <= t
  }

  predicate NamesStruct(t: string) {
    "t_struct" <= t
  }

  lemma {:induction false} NamesTell(c: Chain, types: TypeTable, slot: nat, t: string)
    requires t in types
    ensures IsArray(t) <==> NamesArray(t)
    ensures IsStruct(t) <==> NamesStruct(t) && !NamesArray(t)
    ensures IsMapping(types, t) <==> types[t].encoding == "mapping" && !NamesArray(t) && !NamesStruct(t)
    ensures FirstElementSlot(c, types, slot, t) == ElementsStart(c, types, slot, t)
  {
  }

  /** Where the length of an array is kept: in its own slot, or in the name of its type. */
  ghost predicate HoldsLength(c: Chain, types: TypeTable, slot: nat, t: string, n: nat)
    requires t in types
  {
    if types[t].encoding == "dynamic_array" then n < MODULUS && c.storage(slot) == Word(n) else n == StaticLength(t)
  }

  /** Where the elements of an array start: at the hash of its slot, or in its slot. */
  function ElementsStart(c: Chain, types: TypeTable, slot: nat, t: string): nat
    requires t in types
  {
    if types[t].encoding == "dynamic_array" then c.keccak(slot) else slot
  }

  function Labels(members: seq<Member>): set<string> {
    set k | 0 <= k < |members| :: members[k].name
  }

  /** The storage of the chain is a layout of the value `v` as a variable of type `t`. */
  ghost predicate Holds(
    c: Chain, types: TypeTable, rank: map<string, nat>, slot: nat, shift: nat, t: string, v: Value)
    requires WellFormed(types, rank) && t in types
    decreases rank[t]
  {
    assert WellFormedRow(types, rank, t);
    if NamesArray(t) then
      var base, first := types[t].base, ElementsStart(c, types, slot, t);
      var size := types[base].numberOfBytes;
      && v.Elements? && HoldsLength(c, types, slot, t, |v.elems|)
      && forall i :: 0 <= i < |v.elems| ==>
           Holds(c, types, rank, first + ElementSlot(size, i), ElementShift(size, i), base, v.elems[i])
    else if NamesStruct(t) then
      var members := types[t].members;
      && v.Fields? && v.fields.Keys == Labels(members)
      && forall k :: 0 <= k < |members| ==>
           && Below(types, rank, t, members[k].t) && members[k].name in v.fields
           && Holds(c, types, rank, slot + members[k].slot, members[k].offset, members[k].t, v.fields[members[k].name])
    else
      HoldsPrimitive(c, types, slot, shift, t, v)
  }

  /******* What is read back *******/

  /** The reader takes no bytes from the last slot of a byte string that fills it. */
  predicate ReadableLength(n: nat) {
    n < 32 || n % 32 != 0
  }

  /** A primitive value that the reader gives back: not a full byte string and not of a type it does not know. */
  predicate ReadablePrimitive(types: TypeTable, t: string, v: Value)
    requires t in types
  {
    match KindOf(types, t)
    case BytesKind => v.Data? && ReadableLength(|v.bytes|)
    case StringKind => v.Utf8? && ReadableLength(|v.bytes|)
    case OtherKind => false
    case _ => true
  }

  /** Every part of the value is one that the reader gives back. */
  ghost predicate Readable(types: TypeTable, rank: map<string, nat>, t: string, v: Value)
    requires WellFormed(types, rank) && t in types
    decreases rank[t]
  {
    assert WellFormedRow(types, rank, t);
    if NamesArray(t) then
      v.Elements? && forall i :: 0 <= i < |v.elems| ==> Readable(types, rank, types[t].base, v.elems[i])
    else if NamesStruct(t) then
      var members := types[t].members;
      v.Fields? && forall k :: 0 <= k < |members| ==>
        && Below(types, rank, t, members[k].t) && members[k].name in v.fields
        && Readable(types, rank, members[k].t, v.fields[members[k].name])
    else
      ReadablePrimitive(types, t, v)
  }

  lemma {:induction false} PackedIsRead(data: SlotData, shift: nat, bytes: seq<byte>)
    requires Packed(data, shift, bytes)
    ensures SlotBytes(data, shift, |bytes|) == bytes
  {
  }

  lemma {:induction false} NumberIsRead(data: SlotData, shift: nat, isSigned: bool, n: nat, v: int)
    requires 0 < n && InRange(isSigned, n, v) && v + Pow256(n) >= 0 && Packed(data, shift, NumberBytesOf(v, n))
    ensures NumberAt(data, shift, NumberName(isSigned, n)) == v
  {
    hide ToBytes, NumberAt, NumberName, Pow256, InRange;
    PackedNumberRead(data, shift, isSigned, n, v);
  }

  lemma {:induction false} BoolIsRead(data: SlotData, shift: nat, b: bool)
    requires Packed(data, shift, [if b then 1 else 0])
    ensures NumberAt(data, shift, "uint8") != 0 <==> b
  {
    var bytes: seq<byte> := [if b then 1 else 0];
    PackedIsRead(data, shift, bytes);
    Uint8();
    OneByte(bytes[0]);
    assert bytes == [bytes[0]];
  }

  lemma {:induction false} Uint8()
    ensures NumberBytes("uint8") == 1 && !("int" <= "uint8")
  {
    NumberNameBytes(false, 1);
    assert Decimal(8) == "8";
    assert NumberName(false, 1) == "uint8";
  }

  lemma {:induction false} OneByte(b: byte)
    ensures FromBytes([b]) == b as int
  {
  }

  lemma {:induction false} EnumIsRead(data: SlotData, shift: nat, n: nat, v: int)
    requires 0 <= v < Pow256(n) && Packed(data, shift, NumberBytesOf(v, n))
    ensures FromBytes(SlotBytes(data, shift, n)) == v
  {
    hide ToBytes, FromBytes, Pow256, SlotBytes;
    PackedIsRead(data, shift, NumberBytesOf(v, n));
    FromToBytes(v, n);
  }

  /** A primitive value is read back exactly when it is readable. */
  lemma {:induction false} PrimitiveReadsBack(c: Chain, types: TypeTable, slot: nat, shift: nat, t: string, v: Value)
    requires t in types && Labelled(types) && HoldsPrimitive(c, types, slot, shift, t, v)
    ensures Primitive(c, types, slot, shift, t) == v <==> ReadablePrimitive(types, t, v)
  {
    hide NumberAt, SlotBytes, DynamicBytes, FromBytes, Primitive, HoldsBytes, KindOf, Packed, Pow256,
         NumberBytesOf, NumberName;
    PrimitiveByKind(c, types, slot, shift, t);
    var data, n := c.storage(slot), types[t].numberOfBytes;
    match KindOf(types, t)
    case NumberKind =>
      NumberKindIs(types, t);
      NumberIsRead(data, shift, IsSigned(t), n, v.n);
    case BoolKind => BoolIsRead(data, shift, v.b);
    case AddressKind => PackedIsRead(data, shift, v.bytes);
    case BytesKind => DynamicBytesInverts(c, slot, v.bytes);
    case FixedBytesKind => PackedIsRead(data, shift, v.bytes);
    case StringKind => DynamicBytesInverts(c, slot, v.bytes);
    case EnumKind => EnumIsRead(data, shift, n, v.n);
    case MappingKind =>
    case OtherKind =>
  }

  lemma {:induction false} NumberKindIs(types: TypeTable, t: string)
    requires t in types && KindOf(types, t).NumberKind?
    ensures IsNumber(t)
  {
  }

  /******* Whole values *******/

  lemma {:induction false} LengthIsRead(c: Chain, types: TypeTable, slot: nat, t: string, n: nat)
    requires t in types && HoldsLength(c, types, slot, t, n)
    ensures ArrayLength(c, types, slot, t) == n
  {
    hide ToBytes, FromBytes, Pow256, StaticLength;
    if IsDynamic(types[t]) {
      ModulusIsPow256();
      FromToBytes(n, 32);
    }
  }

  /**
   Reading gives back the value that lies in storage exactly when none of its byte strings has a positive length
   that is a multiple of 32 and none of its parts has a type that the reader does not know.
   */
  lemma {:induction false} ReadsBack(
    c: Chain, types: TypeTable, rank: map<string, nat>, slot: nat, shift: nat, t: string, v: Value)
    requires WellFormed(types, rank) && Labelled(types) && t in types && Holds(c, types, rank, slot, shift, t, v)
    ensures Variable(c, types, rank, slot, shift, t) == v <==> Readable(types, rank, t, v)
    decreases rank[t], 1
  {
    hide Labelled, HoldsPrimitive, ReadablePrimitive, Primitive, IsArray, IsStruct, NamesArray, NamesStruct;
    NamesTell(c, types, slot, t);
    if IsArray(t) {
      ArrayReadsBack(c, types, rank, slot, shift, t, v);
    } else if IsStruct(t) {
      StructReadsBack(c, types, rank, slot, shift, t, v);
    } else {
      PrimitiveReadsBack(c, types, slot, shift, t, v);
    }
  }

  lemma {:induction false} ArrayReadsBack(
    c: Chain, types: TypeTable, rank: map<string, nat>, slot: nat, shift: nat, t: string, v: Value)
    requires WellFormed(types, rank) && Labelled(types) && t in types && Holds(c, types, rank, slot, shift, t, v)
    requires IsArray(t)
    ensures Variable(c, types, rank, slot, shift, t) == v <==> Readable(types, rank, t, v)
    decreases rank[t], 0
  {
    hide Labelled, HoldsPrimitive, ReadablePrimitive, IsArray, IsStruct, NamesArray, NamesStruct, Variable, ArrayFrom,
         FirstElementSlot, ElementsStart, ArrayLength, HoldsLength, ElementSlot, ElementShift;
    NamesTell(c, types, slot, t);
    assert WellFormedRow(types, rank, t);
    var base, n, first := types[t].base, |v.elems|, FirstElementSlot(c, types, slot, t);
    var size := types[base].numberOfBytes;
    LengthIsRead(c, types, slot, t, n);
    WholeArray(c, types, rank, slot, shift, t);
    var es := ArrayFrom(c, types, rank, first, t, 0, n);
    forall i | 0 <= i < n
      ensures es[i] == v.elems[i] <==> Readable(types, rank, base, v.elems[i])
    {
      ArrayAt(c, types, rank, first, t, 0, n, i);
      ReadsBack(c, types, rank, first + ElementSlot(size, i), ElementShift(size, i), base, v.elems[i]);
    }
  }

  lemma {:induction false} StructReadsBack(
    c: Chain, types: TypeTable, rank: map<string, nat>, slot: nat, shift: nat, t: string, v: Value)
    requires WellFormed(types, rank) && Labelled(types) && t in types && Holds(c, types, rank, slot, shift, t, v)
    requires IsStruct(t)
    ensures Variable(c, types, rank, slot, shift, t) == v <==> Readable(types, rank, t, v)
    decreases rank[t], 0
  {
    hide Labelled, HoldsPrimitive, ReadablePrimitive, IsArray, IsStruct, NamesArray, NamesStruct, Variable, StructUpTo,
         Labels;
    NamesTell(c, types, slot, t);
    var members := types[t].members;
    var fs := StructUpTo(c, types, rank, slot, t, |members|);
    WholeStruct(c, types, rank, slot, shift, t);
    forall k | 0 <= k < |members|
      ensures members[k].name in fs && members[k].name in v.fields && Below(types, rank, t, members[k].t)
      ensures fs[members[k].name] == v.fields[members[k].name]
         <==> Readable(types, rank, members[k].t, v.fields[members[k].name])
    {
      StructAt(c, types, rank, slot, t, |members|, k);
      ReadsBack(c, types, rank, slot + members[k].slot, members[k].offset, members[k].t, v.fields[members[k].name]);
    }
    forall name | name in fs
      ensures name in v.fields
    {
      StructLabels(c, types, rank, slot, t, |members|, name);
    }
    FieldsEqual(members, fs, v.fields);
  }

  lemma {:induction false} FieldsEqual(members: seq<Member>, a: map<string, Value>, b: map<string, Value>)
    requires a.Keys <= b.Keys == Labels(members)
    requires forall k :: 0 <= k < |members| ==> members[k].name in a
    ensures a == b <==> forall k :: 0 <= k < |members| ==> a[members[k].name] == b[members[k].name]
  {
    assert a.Keys == b.Keys;
    if forall k :: 0 <= k < |members| ==> a[members[k].name] == b[members[k].name] {
      forall name | name in a
        ensures a[name] == b[name]
      {
        assert name in Labels(members);
      }
    }
  }

  /******* Parts *******/

  /** Where a variable lies, and its type. */
  datatype Place = Place(slot: nat, shift: nat, t: string)

  /** The documented place of an element, a member or a value of a mapping. */
  ghost predicate StepsTo(c: Chain, types: TypeTable, from: Place, step: string, to: Place)
    requires from.t in types
  {
    var info := types[from.t];
    if NamesArray(from.t) then
      && info.base in types && ElementSize(types[info.base].numberOfBytes) && IsNumeral(step)
      && var size, i := types[info.base].numberOfBytes, NumeralValue(step);
         to == Place(ElementsStart(c, types, from.slot, from.t) + ElementSlot(size, i), ElementShift(size, i), info.base)
    else if NamesStruct(from.t) then
      exists k :: 0 <= k < |info.members| && info.members[k].name == step
        && to == Place(from.slot + info.members[k].slot, info.members[k].offset, info.members[k].t)
    else
      info.encoding == "mapping" && to == Place(c.mapSlot(step, info.key, from.slot), 0, info.value)
  }

  /** The path leads from one place to the other. */
  ghost predicate Leads(c: Chain, types: TypeTable, from: Place, path: seq<string>, to: Place)
    requires from.t in types
    decreases |path|
  {
    if path == [] then to == from
    else exists mid :: StepsTo(c, types, from, path[0], mid) && mid.t in types && Leads(c, types, mid, path[1..], to)
  }

  lemma {:induction false} PartStep(
    c: Chain, types: TypeTable, rank: map<string, nat>, from: Place, params: seq<string>, to: Place)
    requires WellFormed(types, rank) && from.t in types && params != []
    requires StepsTo(c, types, from, params[|params| - 1], to) && to.t in types
    ensures Part(c, types, rank, from.slot, from.shift, from.t, params)
         == Part(c, types, rank, to.slot, to.shift, to.t, params[..|params| - 1])
  {
    hide NamesArray, NamesStruct, IsArray, IsStruct, ElementsStart, FirstElementSlot, ElementSlot, ElementShift,
         NumeralValue, Part;
    NamesTell(c, types, from.slot, from.t);
    assert WellFormedRow(types, rank, from.t);
    if IsArray(from.t) {
      PartOfElement(c, types, rank, from.slot, from.shift, from.t, params);
    } else if IsStruct(from.t) {
      PartOfField(c, types, rank, from.slot, from.shift, from.t, params);
    } else {
      PartOfValue(c, types, rank, from.slot, from.shift, from.t, params);
    }
  }

  lemma {:induction false} PartOfValue(
    c: Chain, types: TypeTable, rank: map<string, nat>, slot: nat, shift: nat, t: string, params: seq<string>)
    requires WellFormed(types, rank) && t in types && IsMapping(types, t) && params != []
    ensures types[t].value in types
    ensures Part(c, types, rank, slot, shift, t, params)
         == Part(c, types, rank, c.mapSlot(params[|params| - 1], types[t].key, slot), 0, types[t].value,
                 params[..|params| - 1])
  {
    hide Variable, Primitive, IsArray, IsStruct;
    assert WellFormedRow(types, rank, t);
  }

  /** Reading a part reads the variable at the place to which its path leads. */
  lemma {:induction false} PartIsAt(
    c: Chain, types: TypeTable, rank: map<string, nat>, from: Place, path: seq<string>, to: Place)
    requires WellFormed(types, rank) && from.t in types && Leads(c, types, from, path, to)
    ensures to.t in types
    ensures Part(c, types, rank, from.slot, from.shift, from.t, Reversed(path))
         == Success(Variable(c, types, rank, to.slot, to.shift, to.t))
    decreases |path|
  {
    hide Variable, StepsTo, WellFormed;
    if path != [] {
      hide Part;
      var mid :| StepsTo(c, types, from, path[0], mid) && mid.t in types && Leads(c, types, mid, path[1..], to);
      assert Reversed(path)[|path| - 1] == path[0] && Reversed(path)[..|path| - 1] == Reversed(path[1..]);
      PartStep(c, types, rank, from, Reversed(path), mid);
      PartIsAt(c, types, rank, mid, path[1..], to);
    }
  }

  /** A part, through arrays, structs and mappings nested in any way, is read back exactly when it is readable. */
  lemma {:induction false} PartReadsBack(
    c: Chain, types: TypeTable, rank: map<string, nat>, from: Place, path: seq<string>, to: Place, v: Value)
    requires WellFormed(types, rank) && Labelled(types) && from.t in types && Leads(c, types, from, path, to)
    requires to.t in types && Holds(c, types, rank, to.slot, to.shift, to.t, v)
    ensures Part(c, types, rank, from.slot, from.shift, from.t, Reversed(path)) == Success(v)
       <==> Readable(types, rank, to.t, v)
  {
    hide Variable, Part, Holds, Leads, Labelled, WellFormed, Readable;
    PartIsAt(c, types, rank, from, path, to);
    ReadsBack(c, types, rank, to.slot, to.shift, to.t, v);
  }

  /** The value of a mapping at a key, and every part of it, is read at the key's own slot. */
  lemma {:induction false} MappedPart(
    c: Chain, types: TypeTable, rank: map<string, nat>, slot: nat, shift: nat, t: string, key: string,
    rest: seq<string>, v: Value)
    requires WellFormed(types, rank) && Labelled(types) && t in types && IsMapping(types, t)
    requires types[t].value in types
    requires Holds(c, types, rank, c.mapSlot(key, types[t].key, slot), 0, types[t].value, v)
    requires Readable(types, rank, types[t].value, v)
    ensures Agree(Project(v, rest), Part(c, types, rank, slot, shift, t, Reversed([key] + rest)))
  {
    hide Variable, Part, Holds, Labelled, WellFormed, Readable, Project;
    var at, u, params := c.mapSlot(key, types[t].key, slot), types[t].value, Reversed([key] + rest);
    assert ([key] + rest)[0] == key && ([key] + rest)[1..] == rest;
    assert params[..|params| - 1] == Reversed(rest);
    PartOfValue(c, types, rank, slot, shift, t, params);
    ReadsBack(c, types, rank, at, 0, u, v);
    PartIsProjection(c, types, rank, at, 0, u, rest);
  }
}
