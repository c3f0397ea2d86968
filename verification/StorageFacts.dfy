/**
 What the storage reader's two ways of finding data have to do with each other and with
 how Solidity lays data out.
 */
module StorageFacts {
  import opened Text
  import opened Words
  import opened SolidityStorage

  /******* The running walk over small elements *******/

  /**
   The slot (from the first) and the shift at which the loop of `readArray` reads element `i`: it moves on
   by the size of an element and starts the next slot when the element would not fit.
   */
  function WalkPlace(size: nat, i: nat): (nat, nat) {
    if i == 0 then (0, 0)
    else
      var (slot, shift) := WalkPlace(size, i - 1);
      if shift + size + size > 32 then (slot + 1, 0) else (slot, shift + size)
  }

  lemma {:induction false} WalkNext(size: nat, i: nat)
    ensures WalkPlace(size, i)
         == if i == 0 then (0, 0)
            else
              var (slot, shift) := WalkPlace(size, i - 1);
              if shift + size + size > 32 then (slot + 1, 0) else (slot, shift + size)
  {
  }

  lemma {:induction false} PerSlot(size: nat)
    requires 0 < size < 32
    ensures var k := 32 / size; k > 0 && k * size <= 32 < k * size + size
  {
  }

  /** Counting on by one, in quotient and remainder. */
  lemma {:induction false} NextRemainder(i: nat, k: nat)
    requires k > 0
    ensures var q, r := i / k, i % k;
      if r + 1 < k then (i + 1) / k == q && (i + 1) % k == r + 1 else (i + 1) / k == q + 1 && (i + 1) % k == 0
  {
    var q, r := i / k, i % k;
    assert i == q * k + r && (q + 1) * k == q * k + k;
    if r + 1 < k {
      RemainderIs(i + 1, q, k, r + 1);
    } else {
      RemainderIs(i + 1, q + 1, k, 0);
    }
  }

  lemma {:induction false} NextFits(size: nat, k: nat, r: nat)
    requires size > 0 && k * size <= 32 < k * size + size && r < k
    ensures size * (r + 1) == size * r + size
    ensures size * r + size + size > 32 <==> r + 1 == k
  {
    assert r + 1 == k ==> size * r + size == k * size;
    assert r + 2 <= k ==> size * (r + 2) <= size * k;
    assert size * (r + 2) == size * r + size + size;
  }

  /** The walk finds every element where division and remainder place it. */
  lemma {:induction false} WalkIsDivision(size: nat, i: nat)
    requires 0 < size < 32
    ensures WalkPlace(size, i) == (ElementSlot(size, i), ElementShift(size, i))
  {
    hide ElementSlot, ElementShift;
    if i == 0 {
      FirstPlace(size);
    } else {
      WalkIsDivision(size, i - 1);
      NextPlace(size, i - 1);
    }
  }

  lemma {:induction false} FirstPlace(size: nat)
    requires 0 < size < 32
    ensures ElementSlot(size, 0) == ElementShift(size, 0) == 0
  {
    PerSlot(size);
    RemainderIs(0, 0, 32 / size, 0);
  }

  lemma {:induction false} NextPlace(size: nat, i: nat)
    requires 0 < size < 32
    ensures var slot, shift := ElementSlot(size, i), ElementShift(size, i);
      if shift + size + size > 32 then ElementSlot(size, i + 1) == slot + 1 && ElementShift(size, i + 1) == 0
      else ElementSlot(size, i + 1) == slot && ElementShift(size, i + 1) == shift + size
  {
    var k := 32 / size;
    PerSlot(size);
    NextRemainder(i, k);
    NextFits(size, k, i % k);
  }

  /** No element smaller than a word straddles two slots. */
  lemma {:induction false} NoStraddle(size: nat, i: nat)
    requires 0 < size < 32
    ensures ElementShift(size, i) + size <= 32
  {
    var k := 32 / size;
    PerSlot(size);
    var r := i % k;
    assert size * r + size == size * (r + 1);
    assert size * (r + 1) <= size * k;
  }

  /** Byte `b`, counted from the end of slot `slot`, belongs to element `i`. */
  ghost predicate Occupies(size: nat, i: nat, slot: nat, b: nat)
    requires ElementSize(size)
  {
    if size < 32 then slot == ElementSlot(size, i) && ElementShift(size, i) <= b < ElementShift(size, i) + size
    else ElementSlot(size, i) <= slot < ElementSlot(size, i) + size / 32 && b < 32
  }

  /** Distinct elements occupy disjoint bytes. */
  lemma {:induction false} ElementsDisjoint(size: nat, i: nat, j: nat, slot: nat, b: nat)
    requires ElementSize(size) && Occupies(size, i, slot, b) && Occupies(size, j, slot, b)
    ensures i == j
  {
    if size < 32 {
      SmallDisjoint(size, i, j, b);
    } else {
      LargeDisjoint(size, i, j, slot);
    }
  }

  lemma {:induction false} SmallDisjoint(size: nat, i: nat, j: nat, b: nat)
    requires 0 < size < 32 && ElementSlot(size, i) == ElementSlot(size, j)
    requires ElementShift(size, i) <= b < ElementShift(size, i) + size
    requires ElementShift(size, j) <= b < ElementShift(size, j) + size
    ensures i == j
  {
    var k := 32 / size;
    PerSlot(size);
    BandsApart(size, i % k, j % k, b);
    SameDivision(i, j, k);
  }

  lemma {:induction false} SameDivision(i: nat, j: nat, k: nat)
    requires k > 0 && i / k == j / k && i % k == j % k
    ensures i == j
  {
    assert i == (i / k) * k + i % k && j == (j / k) * k + j % k;
  }

  lemma {:induction false} LargeDisjoint(size: nat, i: nat, j: nat, slot: nat)
    requires size >= 32 && size % 32 == 0
    requires ElementSlot(size, i) <= slot < ElementSlot(size, i) + size / 32
    requires ElementSlot(size, j) <= slot < ElementSlot(size, j) + size / 32
    ensures i == j
  {
    var n := size / 32;
    WholeWords(size, i);
    WholeWords(size, j);
    Commute(i, n);
    Commute(j, n);
    BandsApart(n, i, j, slot);
  }

  lemma {:induction false} Commute(i: nat, n: nat)
    ensures i * n == n * i
  {
  }

  lemma {:induction false} WholeWords(size: nat, i: nat)
    requires size % 32 == 0
    ensures (i * size) / 32 == i * (size / 32)
  {
    var n := size / 32;
    assert i * size == (i * n) * 32;
    RemainderIs(i * size, i * n, 32, 0);
  }

  lemma {:induction false} BandsApart(size: nat, r: nat, s: nat, b: nat)
    requires size * r <= b < size * r + size && size * s <= b < size * s + size
    ensures r == s
  {
    if r < s {
      BandsApartAt(size, r, s);
    } else if s < r {
      BandsApartAt(size, s, r);
    }
  }

  lemma {:induction false} BandsApartAt(size: nat, r: nat, s: nat)
    requires r < s
    ensures size * s >= size * r + size
  {
    var d := s - r - 1;
    assert size * (r + 1 + d) == size * r + size + size * d;
  }

  /******* Packed numbers *******/

  /** The name of a number type of `n` bytes. */
  function NumberName(isSigned: bool, n: nat): string {
    (if isSigned then "int" else "uint") + Decimal(8 * n)
  }

  lemma {:induction false} NumberNameBytes(isSigned: bool, n: nat)
    ensures NumberBytes(NumberName(isSigned, n)) == n
    ensures "int" <= NumberName(isSigned, n) <==> isSigned
  {
    hide Decimal, NumeralValue;
    var digits, name := Decimal(8 * n), NumberName(isSigned, n);
    DecimalRoundTrip(8 * n);
    if isSigned {
      assert name[3..] == digits;
    } else {
      assert name[4..] == digits && name[0] == 'u';
    }
  }

  /** The least and the first number beyond the greatest of a type. */
  predicate InRange(isSigned: bool, n: nat, v: int) {
    if isSigned then -(Pow256(n) / 2) <= v < Pow256(n) / 2 else 0 <= v < Pow256(n)
  }

  /** A number that lies packed in a slot, in two's complement if it is signed, is read as itself. */
  lemma {:induction false} PackedNumberRead(data: SlotData, shift: nat, isSigned: bool, n: nat, v: int)
    requires 0 < n && shift + n <= 32 && InRange(isSigned, n, v)
    requires data[32 - shift - n..32 - shift] == ToBytes(if v < 0 then v + Pow256(n) else v, n)
    ensures NumberAt(data, shift, NumberName(isSigned, n)) == v
  {
    hide ToBytes, FromBytes, NumberName, Pow256;
    assert Pow256(n) % 2 == 0 by { EvenPower(n); }
    NumberNameBytes(isSigned, n);
    FromToBytes(if v < 0 then v + Pow256(n) else v, n);
  }

  lemma {:induction false} EvenPower(n: nat)
    requires n > 0
    ensures Pow256(n) % 2 == 0
  {
    assert Pow256(n) == 2 * (128 * Pow256(n - 1));
  }

  /******* Byte strings *******/

  /** The 32 bytes that slot `i` of the data of a long byte string holds. */
  function Chunk(bytes: seq<byte>, i: nat): SlotData
    requires 32 * i <= |bytes|
  {
    if 32 * i + 32 <= |bytes| then bytes[32 * i..32 * i + 32]
    else bytes[32 * i..] + Zeros(32 - (|bytes| - 32 * i))
  }

  /** Storage holds a byte string in the encoding that Solidity documents for `bytes` and `string`. */
  ghost predicate HoldsBytes(c: Chain, slot: nat, bytes: seq<byte>) {
    if |bytes| < 32 then
      c.storage(slot) == bytes + Zeros(31 - |bytes|) + [2 * |bytes|]
    else
      && 2 * |bytes| + 1 < MODULUS
      && c.storage(slot) == Word(2 * |bytes| + 1)
      && forall i: nat :: 32 * i < |bytes| ==> c.storage(c.keccak(slot) + i) == Chunk(bytes, i)
  }

  lemma {:induction false} LongBytesAre(storage: Storage, first: nat, i: nat, bytes: seq<byte>)
    requires |bytes| >= 32 && i < SlotCount(|bytes|)
    requires forall j: nat :: 32 * j < |bytes| ==> storage(first + j) == Chunk(bytes, j)
    ensures LongBytes(storage, first, i, SlotCount(|bytes|), |bytes| % 32)
         == if |bytes| % 32 == 0 then bytes[32 * i..|bytes| - 32] else bytes[32 * i..]
    decreases |bytes| - i
  {
    assert storage(first + i) == Chunk(bytes, i);
    if i + 1 < SlotCount(|bytes|) {
      LongBytesAre(storage, first, i + 1, bytes);
    }
  }

  lemma {:induction false} LengthWord(length: nat)
    requires 2 * length + 1 < MODULUS
    ensures FromBytes(Word(2 * length + 1)) == 2 * length + 1
    ensures Word(2 * length + 1)[31] % 2 == 1
  {
    hide ToBytes, FromBytes, Pow256;
    ModulusIsPow256();
    FromToBytes(2 * length + 1, 32);
    ToBytesLast(2 * length + 1, 32);
  }

  lemma {:induction false} ShortBytesRead(c: Chain, slot: nat, bytes: seq<byte>)
    requires HoldsBytes(c, slot, bytes) && |bytes| < 32
    ensures DynamicBytes(c, slot) == bytes
  {
    hide LongBytes, FromBytes, Zeros;
    var data := c.storage(slot);
    assert data[31] == 2 * |bytes|;
    assert data[..|bytes|] == bytes;
  }

  lemma {:induction false} LongBytesRead(c: Chain, slot: nat, bytes: seq<byte>)
    requires HoldsBytes(c, slot, bytes) && |bytes| >= 32
    ensures DynamicBytes(c, slot) == if |bytes| % 32 == 0 then bytes[..|bytes| - 32] else bytes
  {
    hide LongBytes, FromBytes, Word, Chunk;
    LengthWord(|bytes|);
    assert (FromBytes(c.storage(slot)) - 1) / 2 == |bytes|;
    LongBytesAre(c.storage, c.keccak(slot), 0, bytes);
    assert bytes[0..] == bytes && bytes[0..|bytes| - 32] == bytes[..|bytes| - 32];
  }

  /** What `readDynamicBytes` makes of an encoded byte string, for every length. */
  lemma {:induction false} DynamicBytesRead(c: Chain, slot: nat, bytes: seq<byte>)
    requires HoldsBytes(c, slot, bytes)
    ensures DynamicBytes(c, slot)
         == if |bytes| >= 32 && |bytes| % 32 == 0 then bytes[..|bytes| - 32] else bytes
  {
    hide HoldsBytes, DynamicBytes;
    if |bytes| < 32 {
      ShortBytesRead(c, slot, bytes);
    } else {
      LongBytesRead(c, slot, bytes);
    }
  }

  /** Reading inverts the encoding exactly for the lengths below 32 and those that are no multiple of 32. */
  lemma {:induction false} DynamicBytesInverts(c: Chain, slot: nat, bytes: seq<byte>)
    requires HoldsBytes(c, slot, bytes)
    ensures DynamicBytes(c, slot) == bytes <==> |bytes| < 32 || |bytes| % 32 != 0
  {
    hide DynamicBytes, HoldsBytes;
    DynamicBytesRead(c, slot, bytes);
  }

  /** The encoding of 32 bytes is read back as the empty string. */
  lemma {:induction false} ThirtyTwoBytesLost(c: Chain, slot: nat)
    requires forall s: nat :: c.storage(s) == if s == slot then Word(65) else Zeros(32)
    requires c.keccak(slot) != slot
    ensures HoldsBytes(c, slot, Zeros(32)) && DynamicBytes(c, slot) == []
  {
    forall i: nat | 32 * i < 32
      ensures c.storage(c.keccak(slot) + i) == Chunk(Zeros(32), i)
    {
      assert Chunk(Zeros(32), i) == Zeros(32);
    }
    assert 65 == 2 * |Zeros(32)| + 1;
    DynamicBytesRead(c, slot, Zeros(32));
    assert Zeros(32)[..0] == [];
  }

  function LoneWord(s: nat): SlotData {
    if s == 0 then Word(65) else Zeros(32)
  }

  /** There is such a storage. */
  lemma {:induction false} BytesCanBeLost()
    ensures exists c: Chain, slot: nat :: HoldsBytes(c, slot, Zeros(32)) && DynamicBytes(c, slot) == []
  {
    hide HoldsBytes, DynamicBytes;
    var c := Chain(LoneWord, _ => 1, (_, _, _) => 0);
    ThirtyTwoBytesLost(c, 0);
  }

  /** Storage with one byte string in it, at slot 0, and its data from slot 1 on. */
  function Storing(bytes: seq<byte>, s: nat): SlotData
    requires 2 * |bytes| + 1 < MODULUS
  {
    if s == 0 then (if |bytes| < 32 then bytes + Zeros(31 - |bytes|) + [2 * |bytes|] else Word(2 * |bytes| + 1))
    else if 32 * (s - 1) <= |bytes| then Chunk(bytes, s - 1) else Zeros(32)
  }

  /** Every byte string can be held. */
  lemma {:induction false} BytesCanBeHeld(bytes: seq<byte>)
    requires 2 * |bytes| + 1 < MODULUS
    ensures exists c: Chain :: HoldsBytes(c, 0, bytes)
  {
    hide Chunk, Word, Zeros;
    var c := Chain((s: nat) => Storing(bytes, s), _ => 1, (_, _, _) => 0);
    forall i: nat | 32 * i < |bytes|
      ensures c.storage(c.keccak(0) + i) == Chunk(bytes, i)
    {
    }
    assert HoldsBytes(c, 0, bytes);
  }

  /******* Names of static arrays *******/

  lemma {:induction false} AfterLastOf(s: string, c: char, t: string)
    requires c !in t
    ensures AfterLast(s + [c] + t, c) == |s| + 1
  {
    if t == [] {
      assert s + [c] + t == s + [c];
    } else {
      var t' := t[..|t| - 1];
      assert (s + [c] + t)[..|s| + |t|] == s + [c] + t';
      AfterLastOf(s, c, t');
    }
  }

  /** The length in the name of a static array type is the one the compiler printed. */
  lemma {:induction false} StaticLengthPrinted(base: string, n: nat)
    ensures StaticLength("t_array(" + base + ")" + Decimal(n) + "_storage") == n
  {
    hide Decimal, NumeralValue, AfterLast;
    var digits := Decimal(n);
    var t := "t_array(" + base + ")" + digits + "_storage";
    var front := "t_array(" + base;
    DecimalRoundTrip(n);
    assert t == front + [')'] + (digits + "_storage");
    AfterLastOf(front, ')', digits + "_storage");
    assert t == (front + ")" + digits) + ['_'] + "storage";
    AfterLastOf(front + ")" + digits, '_', "storage");
    assert t[|front| + 1..|front| + 1 + |digits|] == digits;
  }

  /******* A part of a variable is the projection of the whole *******/

  function Reversed(s: seq<string>): (r: seq<string>)
    ensures |r| == |s|
  {
    if s == [] then [] else Reversed(s[1..]) + [s[0]]
  }

  datatype Projection = Found(value: Value) | NoField | OutOfRange | NoWhole

  /** Follows a path into a value that was read whole. */
  function Project(v: Value, path: seq<string>): Projection
    decreases |path|
  {
    if path == [] then Found(v)
    else
      match v
      case Elements(es) =>
        if IsNumeral(path[0]) && NumeralValue(path[0]) < |es| then Project(es[NumeralValue(path[0])], path[1..])
        else OutOfRange
      case Fields(fs) => if path[0] in fs then Project(fs[path[0]], path[1..]) else NoField
      case Undefined => NoWhole
      case _ => Found(v)
  }

  lemma {:induction false} ArrayAt(
    c: Chain, types: TypeTable, rank: map<string, nat>, first: nat, t: string, i: nat, n: nat, k: nat)
    requires WellFormed(types, rank) && t in types && IsArray(t) && i <= k < n
    ensures WellFormedRow(types, rank, t)
    ensures var base := types[t].base;
      var size := types[base].numberOfBytes;
      ArrayFrom(c, types, rank, first, t, i, n)[k - i]
      == Variable(c, types, rank, first + ElementSlot(size, k), ElementShift(size, k), base)
    decreases n - i
  {
    hide Variable, ElementSlot, ElementShift;
    assert WellFormedRow(types, rank, t);
    if i < k {
      ArrayAt(c, types, rank, first, t, i + 1, n, k);
    }
  }

  lemma {:induction false} StructAt(
    c: Chain, types: TypeTable, rank: map<string, nat>, slot: nat, t: string, n: nat, k: nat)
    requires WellFormed(types, rank) && t in types && IsStruct(t) && k < n <= |types[t].members|
    ensures WellFormedRow(types, rank, t) && Below(types, rank, t, types[t].members[k].t)
    ensures var member, fields := types[t].members[k], StructUpTo(c, types, rank, slot, t, n);
      && member.name in fields
      && fields[member.name] == Variable(c, types, rank, slot + member.slot, member.offset, member.t)
    decreases n
  {
    hide Variable;
    assert WellFormedRow(types, rank, t);
    assert Below(types, rank, t, types[t].members[k].t);
    if k < n - 1 {
      StructAt(c, types, rank, slot, t, n - 1, k);
      assert types[t].members[k].name != types[t].members[n - 1].name;
    }
  }

  lemma {:induction false} StructLabels(
    c: Chain, types: TypeTable, rank: map<string, nat>, slot: nat, t: string, n: nat, name: string)
    requires WellFormed(types, rank) && t in types && IsStruct(t) && n <= |types[t].members|
    requires name in StructUpTo(c, types, rank, slot, t, n)
    ensures exists k :: 0 <= k < n && types[t].members[k].name == name
  {
    hide Variable;
    assert WellFormedRow(types, rank, t);
    if n > 0 && types[t].members[n - 1].name != name {
      StructLabels(c, types, rank, slot, t, n - 1, name);
    }
  }

  /** The part that was read is the one projected out of the whole, and unknown fields are reported. */
  predicate Agree(whole: Projection, part: Result<Value>) {
    && (whole.Found? ==> part == Success(whole.value))
    && (whole.NoField? ==> part == Failure("Invalid field name of struct"))
  }

  lemma {:induction false} WholeStruct(
    c: Chain, types: TypeTable, rank: map<string, nat>, slot: nat, shift: nat, t: string)
    requires WellFormed(types, rank) && t in types && IsStruct(t)
    ensures Variable(c, types, rank, slot, shift, t)
         == Fields(StructUpTo(c, types, rank, slot, t, |types[t].members|))
  {
    hide StructUpTo;
  }

  lemma {:induction false} WholeArray(
    c: Chain, types: TypeTable, rank: map<string, nat>, slot: nat, shift: nat, t: string)
    requires WellFormed(types, rank) && t in types && IsArray(t)
    ensures Variable(c, types, rank, slot, shift, t)
         == Elements(ArrayFrom(c, types, rank, FirstElementSlot(c, types, slot, t), t, 0,
                               ArrayLength(c, types, slot, t)))
  {
    hide ArrayFrom, FirstElementSlot, ArrayLength;
  }

  lemma {:induction false} MappingsAreUndefined(
    c: Chain, types: TypeTable, rank: map<string, nat>, slot: nat, shift: nat, t: string)
    requires WellFormed(types, rank) && t in types && IsMapping(types, t)
    ensures Variable(c, types, rank, slot, shift, t) == Undefined
  {
    hide ArrayFrom, StructUpTo, Primitive;
    assert WellFormedRow(types, rank, t);
    assert t[2] == 'm';
    MappingIsNotPrimitive(c, types, slot, shift, t);
  }

  lemma {:induction false} MappingIsNotPrimitive(c: Chain, types: TypeTable, slot: nat, shift: nat, t: string)
    requires t in types && |t| > 2 && t[2] == 'm'
    ensures Primitive(c, types, slot, shift, t) == Undefined
  {
    hide DynamicBytes, SlotBytes, NumberAt;
  }

  lemma {:induction false} PartOfElement(
    c: Chain, types: TypeTable, rank: map<string, nat>, slot: nat, shift: nat, t: string, params: seq<string>)
    requires WellFormed(types, rank) && t in types && params != [] && IsArray(t)
    ensures types[t].base in types
    ensures var last, rest := params[|params| - 1], params[..|params| - 1];
      Part(c, types, rank, slot, shift, t, params)
      == if !IsNumeral(last) then Failure("index is not a number")
         else
           var i, base := NumeralValue(last), types[t].base;
           var size := types[base].numberOfBytes;
           Part(c, types, rank, FirstElementSlot(c, types, slot, t) + ElementSlot(size, i), ElementShift(size, i), base,
                rest)
  {
    hide ElementSlot, ElementShift, FirstElementSlot, Variable, NumeralValue, IsNumeral;
    assert WellFormedRow(types, rank, t);
  }

  lemma {:induction false} PartOfField(
    c: Chain, types: TypeTable, rank: map<string, nat>, slot: nat, shift: nat, t: string, params: seq<string>)
    requires WellFormed(types, rank) && t in types && params != [] && IsStruct(t)
    ensures var last, rest, members := params[|params| - 1], params[..|params| - 1], types[t].members;
      var k := FindMember(members, last);
      && (k < |members| ==> members[k].t in types)
      && Part(c, types, rank, slot, shift, t, params)
         == if k == |members| then Failure("Invalid field name of struct")
            else Part(c, types, rank, slot + members[k].slot, members[k].offset, members[k].t, rest)
  {
    hide Variable, FindMember;
    assert WellFormedRow(types, rank, t);
    var k := FindMember(types[t].members, params[|params| - 1]);
    if k < |types[t].members| {
      assert Below(types, rank, t, types[t].members[k].t);
    }
  }

  /** Reading a part by its path gives what reading the whole variable and following the path gives. */
  lemma {:induction false} PartIsProjection(
    c: Chain, types: TypeTable, rank: map<string, nat>, slot: nat, shift: nat, t: string, path: seq<string>)
    requires WellFormed(types, rank) && t in types
    ensures Agree(Project(Variable(c, types, rank, slot, shift, t), path),
                  Part(c, types, rank, slot, shift, t, Reversed(path)))
    decreases |path|
  {
    if path != [] {
      assert WellFormedRow(types, rank, t);
      if IsArray(t) {
        PartOfArray(c, types, rank, slot, shift, t, path);
      } else if IsStruct(t) {
        PartOfStruct(c, types, rank, slot, shift, t, path);
      } else if IsMapping(types, t) {
        MappingsAreUndefined(c, types, rank, slot, shift, t);
      }
    }
  }

  lemma {:induction false} PartOfArray(
    c: Chain, types: TypeTable, rank: map<string, nat>, slot: nat, shift: nat, t: string, path: seq<string>)
    requires WellFormed(types, rank) && t in types && path != [] && IsArray(t)
    ensures Agree(Project(Variable(c, types, rank, slot, shift, t), path),
                  Part(c, types, rank, slot, shift, t, Reversed(path)))
    decreases |path|, 0
  {
    hide ElementSlot, ElementShift, FirstElementSlot, ArrayLength, ArrayFrom, Variable, Part, NumeralValue;
    PartOfElement(c, types, rank, slot, shift, t, Reversed(path));
    WholeArray(c, types, rank, slot, shift, t);
    assert WellFormedRow(types, rank, t);
    var step, rest := path[0], path[1..];
    assert Reversed(path)[..|path| - 1] == Reversed(rest);
    var base := types[t].base;
    var size := types[base].numberOfBytes;
    var first, n := FirstElementSlot(c, types, slot, t), ArrayLength(c, types, slot, t);
    if IsNumeral(step) && NumeralValue(step) < n {
      var i := NumeralValue(step);
      ArrayAt(c, types, rank, first, t, 0, n, i);
      PartIsProjection(c, types, rank, first + ElementSlot(size, i), ElementShift(size, i), base, rest);
    }
  }

  lemma {:induction false} PartOfStruct(
    c: Chain, types: TypeTable, rank: map<string, nat>, slot: nat, shift: nat, t: string, path: seq<string>)
    requires WellFormed(types, rank) && t in types && path != [] && IsStruct(t)
    ensures Agree(Project(Variable(c, types, rank, slot, shift, t), path),
                  Part(c, types, rank, slot, shift, t, Reversed(path)))
    decreases |path|, 0
  {
    hide StructUpTo, Variable, Part;
    PartOfField(c, types, rank, slot, shift, t, Reversed(path));
    WholeStruct(c, types, rank, slot, shift, t);
    assert WellFormedRow(types, rank, t);
    var step, rest := path[0], path[1..];
    assert Reversed(path)[..|path| - 1] == Reversed(rest);
    var members := types[t].members;
    var k := FindMember(members, step);
    if k < |members| {
      StructAt(c, types, rank, slot, t, |members|, k);
      PartIsProjection(c, types, rank, slot + members[k].slot, members[k].offset, members[k].t, rest);
    } else if step in StructUpTo(c, types, rank, slot, t, |members|) {
      StructLabels(c, types, rank, slot, t, |members|, step);
    }
  }
}
