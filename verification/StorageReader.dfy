/**
 The storage reader itself: it asks the node slot by slot, remembers the answers in a
 cache, and walks through arrays and structs. Every method is proved to return the value
 that `SolidityStorage` describes, whatever the cache already holds.
 */
module StorageReader {
  import opened Text
  import opened Words
  import opened SolidityStorage
  import opened StorageFacts

  class Reader {
    const chain: Chain
    const types: TypeTable
    var cache: map<nat, SlotData>

    constructor (chain: Chain, types: TypeTable)
      ensures Valid() && this.chain == chain && this.types == types && cache == map[]
    {
      this.chain := chain;
      this.types := types;
      cache := map[];
    }

    /** Every remembered answer is the node's. */
    ghost predicate Valid()
      reads this
    {
      forall slot :: slot in cache ==> cache[slot] == chain.storage(slot)
    }

    method GetStorageAt(slot: nat) returns (data: SlotData)
      requires Valid()
      modifies this
      ensures Valid() && data == chain.storage(slot)
      ensures cache == old(cache)[slot := data]
    {
      if slot !in cache {
        cache := cache[slot := chain.storage(slot)];
      }
      data := cache[slot];
    }

    method ReadBytes(slot: nat, shift: nat, bytes: nat) returns (r: seq<byte>)
      requires Valid()
      modifies this
      ensures Valid() && r == SlotBytes(chain.storage(slot), shift, bytes)
    {
      var data := GetStorageAt(slot);
      r := SlotBytes(data, shift, bytes);
    }

    method ReadDynamicBytes(slot: nat) returns (r: seq<byte>)
      requires Valid()
      modifies this
      ensures Valid() && r == DynamicBytes(chain, slot)
    {
      var data := GetStorageAt(slot);
      if data[31] % 2 == 0 {
        var length := data[31] / 2;
        return data[..if length <= 32 then length else 32];
      }
      LongLength(data);
      hide FromBytes, LongBytes;
      var length := (FromBytes(data) - 1) / 2;
      var firstSlot := chain.keccak(slot);
      var slots := ReadSlots(firstSlot, length);
      r := JoinSlots(slots, length % 32, chain.storage, firstSlot);
    }

    /** The first loop of `readDynamicBytes`: the slots that `length` bytes occupy. */
    method ReadSlots(firstSlot: nat, length: nat) returns (slots: seq<SlotData>)
      requires Valid()
      modifies this
      ensures Valid() && |slots| == SlotCount(length)
      ensures forall i :: 0 <= i < |slots| ==> slots[i] == chain.storage(firstSlot + i)
    {
      slots := [];
      var slotShift := 0;
      while slotShift * 32 < length
        invariant slotShift <= SlotCount(length)
        invariant Valid() && |slots| == slotShift
        invariant forall i :: 0 <= i < |slots| ==> slots[i] == chain.storage(firstSlot + i)
      {
        var next := GetStorageAt(firstSlot + slotShift);
        slots := slots + [next];
        slotShift := slotShift + 1;
      }
    }

    /** The second loop: the last slot contributes the bytes that are left. */
    static method JoinSlots(slots: seq<SlotData>, lastLength: nat, ghost storage: Storage, ghost firstSlot: nat)
      returns (hex: seq<byte>)
      requires lastLength < 32 && forall i :: 0 <= i < |slots| ==> slots[i] == storage(firstSlot + i)
      ensures hex == LongBytes(storage, firstSlot, 0, |slots|, lastLength)
    {
      hex := [];
      ghost var goal := LongBytes(storage, firstSlot, 0, |slots|, lastLength);
      assert [] + goal == goal;
      for i := 0 to |slots|
        invariant goal == hex + LongBytes(storage, firstSlot, i, |slots|, lastLength)
      {
        ghost var rest := LongBytes(storage, firstSlot, i + 1, |slots|, lastLength);
        if i == |slots| - 1 {
          hex := hex + slots[i][..lastLength];
        } else {
          assert hex + (slots[i] + rest) == (hex + slots[i]) + rest;
          hex := hex + slots[i];
        }
      }
    }

    method ReadNumber(slot: nat, shift: nat, typeLabel: string) returns (n: int)
      requires Valid()
      modifies this
      ensures Valid() && n == NumberAt(chain.storage(slot), shift, typeLabel)
    {
      var data := GetStorageAt(slot);
      n := NumberAt(data, shift, typeLabel);
    }

    method ReadPrimitive(slot: nat, shift: nat, t: string) returns (v: Value)
      requires Valid() && t in types
      modifies this
      ensures Valid() && v == Primitive(chain, types, slot, shift, t)
    {
      if IsNumber(t) {
        var n := ReadNumber(slot, shift, types[t].typeName);
        return Number(n);
      }
      if t == "t_bool" {
        var n := ReadNumber(slot, shift, "uint8");
        return Boolean(n != 0);
      }
      if t == "t_address" || t == "t_address_payable" {
        var bytes := ReadBytes(slot, shift, 20);
        return Data(bytes);
      }
      if t == "t_bytes_storage" {
        var bytes := ReadDynamicBytes(slot);
        return Data(bytes);
      }
      if "t_bytes" <= t {
        var bytes := ReadBytes(slot, shift, types[t].numberOfBytes);
        return Data(bytes);
      }
      if t == "t_string_storage" {
        var bytes := ReadDynamicBytes(slot);
        return Utf8(bytes);
      }
      if "t_enum" <= t {
        var bytes := ReadBytes(slot, shift, types[t].numberOfBytes);
        return Number(FromBytes(bytes));
      }
      v := Undefined;
    }

    method ReadStruct(slot: nat, t: string, ghost rank: map<string, nat>) returns (r: map<string, Value>)
      requires Valid() && WellFormed(types, rank) && t in types && IsStruct(t)
      modifies this
      ensures Valid() && r == StructUpTo(chain, types, rank, slot, t, |types[t].members|)
      decreases rank[t], 0
    {
      hide Variable;
      assert WellFormedRow(types, rank, t);
      r := map[];
      for i := 0 to |types[t].members|
        invariant Valid() && r == StructUpTo(chain, types, rank, slot, t, i)
      {
        var member := types[t].members[i];
        assert Below(types, rank, t, types[t].members[i].t);
        var v := ReadVariable(slot + member.slot, member.offset, member.t, rank);
        r := r[member.name := v];
      }
    }

    /** `readArray`: small elements by a running slot and shift, large ones slot after slot. */
    method ReadArray(slot: nat, t: string, ghost rank: map<string, nat>) returns (r: seq<Value>)
      requires Valid() && WellFormed(types, rank) && t in types && IsArray(t)
      modifies this
      ensures Valid()
      ensures r == ArrayFrom(chain, types, rank, FirstElementSlot(chain, types, slot, t), t, 0,
                             ArrayLength(chain, types, slot, t))
      decreases rank[t], 1
    {
      hide ArrayFrom, NumberAt, StaticLength, FromBytes;
      assert WellFormedRow(types, rank, t);
      var length;
      var baseType := types[t].base;
      var place := slot;
      if IsDynamic(types[t]) {
        Uint256IsWholeSlot(chain.storage(slot));
        length := ReadNumber(slot, 0, "uint256");
        place := chain.keccak(slot);
      } else {
        length := StaticLength(t);
      }
      if types[baseType].numberOfBytes < 32 {
        r := ReadPackedElements(place, t, length, rank);
      } else {
        r := ReadWholeElements(place, t, length, rank);
      }
    }

    /** The loop of `readArray` for elements that share a slot. */
    method ReadPackedElements(first: nat, t: string, length: nat, ghost rank: map<string, nat>) returns (r: seq<Value>)
      requires Valid() && WellFormed(types, rank) && t in types && IsArray(t)
      requires types[t].base in types && types[types[t].base].numberOfBytes < 32
      modifies this
      ensures Valid() && r == ArrayFrom(chain, types, rank, first, t, 0, length)
      decreases rank[t], 0
    {
      hide Variable, ElementSlot, ElementShift, ArrayFrom, WalkPlace;
      assert WellFormedRow(types, rank, t);
      var baseType := types[t].base;
      var baseBytes: int := types[baseType].numberOfBytes;
      ghost var all := ArrayFrom(chain, types, rank, first, t, 0, length);
      var place := first;
      var shift: int := -baseBytes;
      r := [];
      for i := 0 to length
        invariant Valid() && r == all[..i]
        invariant i == 0 ==> place == first && shift == -baseBytes
        invariant i > 0 ==> (place - first, shift) == WalkPlace(baseBytes, i - 1)
      {
        WalkNext(baseBytes, i);
        shift := shift + baseBytes;
        if shift + baseBytes > 32 {
          shift := 0;
          place := place + 1;
        }
        WalkIsDivision(baseBytes, i);
        ArrayAt(chain, types, rank, first, t, 0, length, i);
        var v := ReadVariable(place, shift, baseType, rank);
        r := r + [v];
      }
      assert all[..length] == all;
    }

    /** The loop of `readArray` for elements of whole slots. */
    method ReadWholeElements(first: nat, t: string, length: nat, ghost rank: map<string, nat>) returns (r: seq<Value>)
      requires Valid() && WellFormed(types, rank) && t in types && IsArray(t)
      requires types[t].base in types && types[types[t].base].numberOfBytes >= 32
      modifies this
      ensures Valid() && r == ArrayFrom(chain, types, rank, first, t, 0, length)
      decreases rank[t], 0
    {
      hide Variable, ElementSlot, ElementShift, ArrayFrom;
      assert WellFormedRow(types, rank, t);
      var baseType := types[t].base;
      var baseBytes := types[baseType].numberOfBytes;
      ghost var all := ArrayFrom(chain, types, rank, first, t, 0, length);
      var place := first;
      r := [];
      LargeElement(baseBytes, 0);
      for i := 0 to length
        invariant Valid() && r == all[..i]
        invariant place == first + ElementSlot(baseBytes, i)
      {
        LargeNext(baseBytes, i);
        ArrayAt(chain, types, rank, first, t, 0, length, i);
        var v := ReadVariable(place, 0, baseType, rank);
        r := r + [v];
        place := place + baseBytes / 32;
      }
      assert all[..length] == all;
    }

    method ReadVariable(slot: nat, shift: nat, t: string, ghost rank: map<string, nat>) returns (v: Value)
      requires Valid() && WellFormed(types, rank) && t in types
      modifies this
      ensures Valid() && v == Variable(chain, types, rank, slot, shift, t)
      decreases rank[t], 2
    {
      if IsArray(t) {
        var elems := ReadArray(slot, t, rank);
        return Elements(elems);
      }
      if IsStruct(t) {
        var fields := ReadStruct(slot, t, rank);
        return Fields(fields);
      }
      v := ReadPrimitive(slot, shift, t);
    }

    method ReadPartOfStruct(slot: nat, shift: nat, t: string, params: seq<string>, ghost rank: map<string, nat>)
      returns (r: Result<Value>)
      requires Valid() && WellFormed(types, rank) && t in types && params != [] && IsStruct(t)
      modifies this
      ensures Valid() && r == Part(chain, types, rank, slot, shift, t, params)
      decreases rank[t], 0
    {
      hide Variable, Part;
      assert WellFormedRow(types, rank, t);
      PartOfField(chain, types, rank, slot, shift, t, params);
      var last, rest := params[|params| - 1], params[..|params| - 1];
      var k := FindMember(types[t].members, last);
      if k == |types[t].members| {
        return Failure("Invalid field name of struct");
      }
      var member := types[t].members[k];
      assert Below(types, rank, t, types[t].members[k].t);
      r := ReadPartOfVariable(slot + member.slot, member.offset, member.t, rest, rank);
    }

    /** `readPartOfArray`: the element's place by division and remainder. */
    method ReadPartOfArray(slot: nat, shift: nat, t: string, params: seq<string>, ghost rank: map<string, nat>)
      returns (r: Result<Value>)
      requires Valid() && WellFormed(types, rank) && t in types && params != [] && IsArray(t)
      modifies this
      ensures Valid() && r == Part(chain, types, rank, slot, shift, t, params)
      decreases rank[t], 0
    {
      hide Variable, NumeralValue, ElementSlot, ElementShift, Part;
      assert WellFormedRow(types, rank, t);
      PartOfElement(chain, types, rank, slot, shift, t, params);
      var last, rest := params[|params| - 1], params[..|params| - 1];
      if !IsNumeral(last) {
        return Failure("index is not a number");
      }
      var index, baseType := NumeralValue(last), types[t].base;
      var place := if IsDynamic(types[t]) then chain.keccak(slot) else slot;
      var baseBytes := types[baseType].numberOfBytes;
      if baseBytes < 32 {
        SmallElement(baseBytes, index);
        var inOne := 32 / baseBytes;
        place := place + index / inOne;
        var elementShift := baseBytes * (index % inOne);
        r := ReadPartOfVariable(place, elementShift, baseType, rest, rank);
      } else {
        LargeElement(baseBytes, index);
        place := place + (index * baseBytes) / 32;
        r := ReadPartOfVariable(place, 0, baseType, rest, rank);
      }
    }

    method ReadPartOfMap(slot: nat, shift: nat, t: string, params: seq<string>, ghost rank: map<string, nat>)
      returns (r: Result<Value>)
      requires Valid() && WellFormed(types, rank) && t in types && params != [] && IsMapping(types, t)
      modifies this
      ensures Valid() && r == Part(chain, types, rank, slot, shift, t, params)
      decreases rank[t], 0
    {
      hide Variable;
      assert WellFormedRow(types, rank, t);
      var key := params[|params| - 1];
      var place := chain.mapSlot(key, types[t].key, slot);
      r := ReadPartOfVariable(place, 0, types[t].value, params[..|params| - 1], rank);
    }

    method ReadPartOfVariable(slot: nat, shift: nat, t: string, params: seq<string>, ghost rank: map<string, nat>)
      returns (r: Result<Value>)
      requires Valid() && WellFormed(types, rank) && t in types
      modifies this
      ensures Valid() && r == Part(chain, types, rank, slot, shift, t, params)
      decreases rank[t], 3
    {
      hide Variable;
      if params == [] {
        var v := ReadVariable(slot, shift, t, rank);
        return Success(v);
      }
      if IsArray(t) {
        r := ReadPartOfArray(slot, shift, t, params, rank);
      } else if IsStruct(t) {
        r := ReadPartOfStruct(slot, shift, t, params, rank);
      } else if IsMapping(types, t) {
        r := ReadPartOfMap(slot, shift, t, params, rank);
      } else {
        var v := ReadPrimitive(slot, shift, t);
        r := Success(v);
      }
    }
  }

  lemma {:induction false} LongLength(data: SlotData)
    requires data[31] % 2 == 1
    ensures FromBytes(data) > 0
  {
    assert FromBytes(data) == 256 * FromBytes(data[..31]) + data[31];
  }

  lemma {:induction false} Uint256IsWholeSlot(data: SlotData)
    ensures NumberAt(data, 0, "uint256") == FromBytes(data)
  {
    assert "uint256"[4..] == "256";
    assert "256"[..2] == "25" && "25"[..1] == "2" && "2"[..0] == "";
    assert NumeralValue("2") == 2;
    assert NumeralValue("25") == 25;
    assert NumeralValue("256") == 256;
    assert !("int" <= "uint256") by { assert "uint256"[0] != "int"[0]; }
    assert data[0..32] == data;
  }

  lemma {:induction false} SmallElement(size: nat, i: nat)
    requires 0 < size < 32
    ensures var k := 32 / size;
      && k > 0 && i / k >= 0 && size * (i % k) >= 0
      && ElementSlot(size, i) == i / k && ElementShift(size, i) == size * (i % k)
  {
    PerSlot(size);
  }

  lemma {:induction false} LargeElement(size: nat, i: nat)
    requires ElementSize(size) && size >= 32
    ensures i * size >= 0 && ElementSlot(size, i) == i * (size / 32) == (i * size) / 32
    ensures ElementShift(size, i) == 0
  {
    WholeWords(size, i);
  }

  lemma {:induction false} LargeNext(size: nat, i: nat)
    requires ElementSize(size) && size >= 32
    ensures ElementSlot(size, i + 1) == ElementSlot(size, i) + size / 32 && ElementShift(size, i) == 0
  {
    LargeElement(size, i);
    LargeElement(size, i + 1);
    NextMultiple(i, size / 32);
  }

  lemma {:induction false} NextMultiple(i: nat, n: nat)
    ensures (i + 1) * n == i * n + n
  {
  }
}
