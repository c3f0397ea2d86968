/**
 The storage layout of Solidity as the storage reader understands it: which bytes of which
 slots make up a variable of a type in the compiler's type table. The functions here give the
 value that is read; `StorageReader` computes it step by step, and `StorageLayout` compares it with
 the value that the documented layout stores.
 */
module SolidityStorage {
  import opened Text
  import opened Words

  type SlotData = s: seq<byte> | |s| == 32 witness Zeros(32)

  /** What the node answers for each slot of the one contract that is read. */
  type Storage = nat -> SlotData

  datatype Member = Member(name: string, slot: nat, offset: nat, t: string)

  /** A row of the compiler's type table. */
  datatype TypeInfo = TypeInfo(
    typeName: string, numberOfBytes: nat, encoding: string, base: string, members: seq<Member>, key: string, value: string)

  type TypeTable = map<string, TypeInfo>

  /** The chain a variable is read from: its storage and the two hashes that place dynamic data. */
  datatype Chain = Chain(storage: Storage, keccak: nat -> nat, mapSlot: (string, string, nat) -> nat)

  datatype Value =
    | Undefined
    | Number(n: int)
    | Boolean(b: bool)
    | Data(bytes: seq<byte>)
    | Utf8(bytes: seq<byte>)
    | Elements(elems: seq<Value>)
    | Fields(fields: map<string, Value>)

  /******* Types *******/

  predicate IsArray(t: string) {
    "t_array" <= t
  }

  predicate IsStruct(t: string) {
    !IsArray(t) && "t_struct" <= t
  }

  predicate IsMapping(types: TypeTable, t: string) {
    !IsArray(t) && !IsStruct(t) && t in types && types[t].encoding == "mapping"
  }

  predicate IsDynamic(info: TypeInfo) {
    info.encoding == "dynamic_array"
  }

  predicate IsNumber(t: string) {
    "t_int" <= t || "t_uint" <= t
  }

  /** One more than the position of the last `c`, or zero. */
  function AfterLast(s: string, c: char): (k: nat)
    ensures k <= |s|
  {
    if s == [] then 0 else if s[|s| - 1] == c then |s| else AfterLast(s[..|s| - 1], c)
  }

  function Substring(s: string, a: nat, b: nat): string
    requires a <= |s| && b <= |s|
  {
    if a <= b then s[a..b] else s[b..a]
  }

  /** The length of a static array, which only its type's name tells: "t_array(base)6_storage". */
  function StaticLength(t: string): nat {
    var underscore := AfterLast(t, '_');
    var digits := Substring(t, AfterLast(t, ')'), if underscore == 0 then 0 else underscore - 1);
    if IsNumeral(digits) then NumeralValue(digits) else 0
  }

  /** The number of bytes of a number type, from its label: "uint128" or "int8". */
  function NumberBytes(name: string): nat {
    var bits := if "int" <= name then name[3..] else if |name| >= 4 then name[4..] else [];
    if IsNumeral(bits) then NumeralValue(bits) / 8 else 0
  }

  /**
   The table is one that the compiler produces: every mentioned type has a row of smaller rank, so that
   following the rows ends, elements are whole words or fit into one, and labels in a struct are distinct.
   */
  ghost predicate WellFormed(types: TypeTable, rank: map<string, nat>) {
    forall t :: t in types ==> t in rank && WellFormedRow(types, rank, t)
  }

  ghost predicate Below(types: TypeTable, rank: map<string, nat>, t: string, u: string) {
    t in rank && u in types && u in rank && rank[u] < rank[t]
  }

  ghost predicate WellFormedRow(types: TypeTable, rank: map<string, nat>, t: string)
    requires t in types
  {
    var info := types[t];
    && (IsArray(t) ==> Below(types, rank, t, info.base) && ElementSize(types[info.base].numberOfBytes))
    && (IsStruct(t) ==>
          && (forall k :: 0 <= k < |info.members| ==> Below(types, rank, t, info.members[k].t))
          && (forall j, k :: 0 <= j < k < |info.members| ==> info.members[j].name != info.members[k].name))
    && (IsMapping(types, t) ==> Below(types, rank, t, info.value) && "t_mapping" <= t)
  }

  /** Elements share a word or fill whole words. */
  predicate ElementSize(n: nat) {
    0 < n && (n < 32 || n % 32 == 0)
  }

  /******* Primitive values *******/

  /** `readBytes`: `n` bytes that end `shift` bytes before the end of the slot. */
  function SlotBytes(data: SlotData, shift: nat, n: nat): (s: seq<byte>)
    ensures shift + n <= 32 ==> |s| == n
  {
    if shift + n <= 32 then data[32 - shift - n..32 - shift] else []
  }

  function Signed(n: nat, bytes: nat): int {
    if bytes > 0 && n >= Pow256(bytes) / 2 then n - Pow256(bytes) else n
  }

  function NumberAt(data: SlotData, shift: nat, name: string): int {
    var bytes := NumberBytes(name);
    var n := FromBytes(SlotBytes(data, shift, bytes));
    if "int" <= name then Signed(n, bytes) else n
  }

  /** How many slots the data of a long byte string takes. */
  function SlotCount(length: nat): nat {
    (length + 31) / 32
  }

  /** The bytes that `readDynamicBytes` takes from slots `i` on, out of `n` slots of data. */
  function LongBytes(storage: Storage, first: nat, i: nat, n: nat, lastLength: nat): seq<byte>
    requires lastLength < 32
    decreases n - i
  {
    if i >= n then []
    else if i == n - 1 then storage(first + i)[..lastLength]
    else storage(first + i) + LongBytes(storage, first, i + 1, n, lastLength)
  }

  /** `readDynamicBytes`: the parity of the last byte tells short strings from long ones. */
  function DynamicBytes(c: Chain, slot: nat): seq<byte> {
    var data := c.storage(slot);
    if data[31] % 2 == 0 then
      var length := data[31] / 2;
      data[..if length <= 32 then length else 32]
    else
      var length := (FromBytes(data) - 1) / 2;
      LongBytes(c.storage, c.keccak(slot), 0, SlotCount(length), length % 32)
  }

  function Primitive(c: Chain, types: TypeTable, slot: nat, shift: nat, t: string): Value
    requires t in types
  {
    var data := c.storage(slot);
    if IsNumber(t) then Number(NumberAt(data, shift, types[t].typeName))
    else if t == "t_bool" then Boolean(NumberAt(data, shift, "uint8") != 0)
    else if t == "t_address" || t == "t_address_payable" then Data(SlotBytes(data, shift, 20))
    else if t == "t_bytes_storage" then Data(DynamicBytes(c, slot))
    else if "t_bytes" <= t then Data(SlotBytes(data, shift, types[t].numberOfBytes))
    else if t == "t_string_storage" then Utf8(DynamicBytes(c, slot))
    else if "t_enum" <= t then Number(FromBytes(SlotBytes(data, shift, types[t].numberOfBytes)))
    else Undefined
  }

  /******* Places of array elements *******/

  /** The slot of element `i`, counted from the first slot of the elements. */
  function ElementSlot(size: nat, i: nat): nat
    requires ElementSize(size)
  {
    if size < 32 then i / (32 / size) else (i * size) / 32
  }

  /** How many bytes of its slot follow element `i`. */
  function ElementShift(size: nat, i: nat): nat
    requires ElementSize(size)
  {
    if size < 32 then size * (i % (32 / size)) else 0
  }

  function ArrayLength(c: Chain, types: TypeTable, slot: nat, t: string): nat
    requires t in types
  {
    if IsDynamic(types[t]) then FromBytes(c.storage(slot)) else StaticLength(t)
  }

  function FirstElementSlot(c: Chain, types: TypeTable, slot: nat, t: string): nat
    requires t in types
  {
    if IsDynamic(types[t]) then c.keccak(slot) else slot
  }

  /******* Whole variables *******/

  /** What the reader makes of the variable of type `t` that ends `shift` bytes from the end of `slot`. */
  function Variable(c: Chain, types: TypeTable, ghost rank: map<string, nat>, slot: nat, shift: nat, t: string): Value
    requires WellFormed(types, rank) && t in types
    decreases rank[t], 1
  {
    if IsArray(t) then
      var base := types[t].base;
      assert WellFormedRow(types, rank, t);
      Elements(ArrayFrom(c, types, rank, FirstElementSlot(c, types, slot, t), t, 0, ArrayLength(c, types, slot, t)))
    else if IsStruct(t) then
      Fields(StructUpTo(c, types, rank, slot, t, |types[t].members|))
    else
      Primitive(c, types, slot, shift, t)
  }

  /** Elements `i` to `n` of an array whose elements start at `first`. */
  function ArrayFrom(c: Chain, types: TypeTable, ghost rank: map<string, nat>, first: nat, t: string, i: nat, n: nat)
    : (es: seq<Value>)
    requires WellFormed(types, rank) && t in types && IsArray(t) && i <= n
    ensures |es| == n - i
    decreases rank[t], 0, n - i
  {
    assert WellFormedRow(types, rank, t);
    var base := types[t].base;
    var size := types[base].numberOfBytes;
    if i == n then []
    else
      [Variable(c, types, rank, first + ElementSlot(size, i), ElementShift(size, i), base)]
      + ArrayFrom(c, types, rank, first, t, i + 1, n)
  }

  /** The first `n` members of a struct. */
  function StructUpTo(c: Chain, types: TypeTable, ghost rank: map<string, nat>, slot: nat, t: string, n: nat)
    : map<string, Value>
    requires WellFormed(types, rank) && t in types && IsStruct(t) && n <= |types[t].members|
    decreases rank[t], 0, n
  {
    assert WellFormedRow(types, rank, t);
    if n == 0 then map[]
    else
      var member := types[t].members[n - 1];
      assert Below(types, rank, t, types[t].members[n - 1].t);
      StructUpTo(c, types, rank, slot, t, n - 1)[
        member.name := Variable(c, types, rank, slot + member.slot, member.offset, member.t)]
  }

  /******* Parts of variables *******/

  /** The position of the member with this label, or the number of members. */
  function FindMember(members: seq<Member>, name: string): (k: nat)
    ensures k <= |members|
    ensures k < |members| ==> members[k].name == name
    ensures k == |members| ==> forall j :: 0 <= j < |members| ==> members[j].name != name
  {
    if members == [] then 0 else if members[0].name == name then 0 else 1 + FindMember(members[1..], name)
  }

  /** `readPartOfVariable`: the path is reversed, so that its next step is the last parameter. */
  function Part(c: Chain, types: TypeTable, ghost rank: map<string, nat>, slot: nat, shift: nat, t: string,
                params: seq<string>): Result<Value>
    requires WellFormed(types, rank) && t in types
    decreases rank[t]
  {
    assert WellFormedRow(types, rank, t);
    if params == [] then Success(Variable(c, types, rank, slot, shift, t))
    else
      var last, rest := params[|params| - 1], params[..|params| - 1];
      if IsArray(t) then
        if !IsNumeral(last) then Failure("index is not a number")
        else
          var i, base := NumeralValue(last), types[t].base;
          var size := types[base].numberOfBytes;
          Part(c, types, rank, FirstElementSlot(c, types, slot, t) + ElementSlot(size, i), ElementShift(size, i),
               base, rest)
      else if IsStruct(t) then
        var k := FindMember(types[t].members, last);
        if k == |types[t].members| then Failure("Invalid field name of struct")
        else
          var member := types[t].members[k];
          assert Below(types, rank, t, types[t].members[k].t);
          Part(c, types, rank, slot + member.slot, member.offset, member.t, rest)
      else if IsMapping(types, t) then
        Part(c, types, rank, c.mapSlot(last, types[t].key, slot), 0, types[t].value, rest)
      else
        Success(Primitive(c, types, slot, shift, t))
  }
}
