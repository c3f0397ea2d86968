/**
 The ABI encoding of a tuple of words, byte strings and word arrays, as the Solidity
 Contract ABI Specification defines it in "Formal Specification of the Encoding", and
 the bootloader functions that check one component of such an encoding in memory.
 */
module AbiEncoding {
  import opened Text
  import opened Words

  datatype FixedType = Address | Uint256 | Uint128 | Uint32

  datatype DynamicType = BytesType | Bytes32Array

  /** The type of one head word of the tuple. */
  datatype SlotType = Fixed(fixed: FixedType) | Dynamic(dynamic: DynamicType)

  datatype Value = Num(n: nat) | Blob(data: seq<byte>) | WordList(words: seq<nat>)

  /** The first number that does not fit the type. */
  function TypeBound(t: FixedType): (b: nat)
    ensures 0 < b <= MODULUS
  {
    match t
    case Address => 0x1_0000_0000_0000_0000_0000_0000_0000_0000_0000_0000
    case Uint256 => MODULUS
    case Uint128 => 0x1_0000_0000_0000_0000_0000_0000_0000_0000
    case Uint32 => 0x1_0000_0000
  }

  ghost predicate HasType(t: SlotType, v: Value) {
    match t
    case Fixed(f) => v.Num? && v.n < TypeBound(f)
    case Dynamic(BytesType) => v.Blob? && |v.data| < MODULUS
    case Dynamic(Bytes32Array) =>
      v.WordList? && |v.words| < MODULUS && forall i :: 0 <= i < |v.words| ==> v.words[i] < MODULUS
  }

  ghost predicate HasTypes(ts: seq<SlotType>, vs: seq<Value>) {
    |ts| == |vs| && forall i :: 0 <= i < |ts| ==> HasType(ts[i], vs[i])
  }

  /******* Encoding *******/

  /** How many zero bytes fill up the last word of `n` bytes. */
  function Padding(n: nat): (p: nat)
    ensures p < 32 && (n + p) % 32 == 0
  {
    (32 - n % 32) % 32
  }

  function WordsToBytes(ws: seq<nat>): (s: seq<byte>)
    ensures |s| == 32 * |ws|
  {
    if ws == [] then [] else Word(ws[0]) + WordsToBytes(ws[1..])
  }

  /** What a component contributes after all head words. */
  function Tail(v: Value): seq<byte> {
    match v
    case Num(_) => []
    case Blob(data) => Word(|data|) + (data + Zeros(Padding(|data|)))
    case WordList(words) => Word(|words|) + WordsToBytes(words)
  }

  function Tails(vs: seq<Value>): seq<byte> {
    if vs == [] then [] else Tail(vs[0]) + Tails(vs[1..])
  }

  /** The head words, when the first tail starts `offset` bytes after the tuple. */
  function Heads(vs: seq<Value>, offset: nat): (s: seq<byte>)
    ensures |s| == 32 * |vs|
  {
    if vs == [] then []
    else Word(if vs[0].Num? then vs[0].n else offset) + Heads(vs[1..], offset + |Tail(vs[0])|)
  }

  function Encode(vs: seq<Value>): (s: seq<byte>)
    ensures |s| == 32 * |vs| + |Tails(vs)|
  {
    Heads(vs, 32 * |vs|) + Tails(vs)
  }

  /** Memory holds the encoding of the tuple `vs` at `o`, clear of the end of the address space. */
  ghost predicate HoldsEncoding(m: Memory, o: nat, vs: seq<Value>) {
    o + |Encode(vs)| < MODULUS && Slice(m, o, |Encode(vs)|) == Encode(vs)
  }

  /******* The bootloader's checks *******/

  /** `lengthRoundedByWords`; its addition is unchecked. */
  function LengthRoundedByWords(len: nat): Option<nat> {
    SafeMul(Add(len, 31) / 32, 32)
  }

  /** `validateBytes`: the address after the byte string at `ptr`, or `None` for an assertion error. */
  function ValidateBytes(m: Memory, ptr: nat): Option<nat>
    requires ptr < MODULUS
  {
    var length := Mload(m, ptr);
    var lastWordBytes := length % 32;
    if lastWordBytes == 0 then
      match SafeAdd(length, 32)
      case None => None
      case Some(n) => SafeAdd(ptr, n)
    else
      var zeroBytes := 32 - lastWordBytes;
      var mask := Pow2(zeroBytes * 8) - 1;
      match LengthRoundedByWords(length)
      case None => None
      case Some(fullLen) =>
        match SafeAdd(32, fullLen)
        case None => None
        case Some(n) =>
          match SafeAdd(ptr, n)
          case None => None
          case Some(bytesEnd) =>
            if BitAnd(Mload(m, bytesEnd - 32), mask) != 0 then None else Some(bytesEnd)
  }

  /** `validateBytes32Array`: the address after the array at `ptr`, or `None` for an assertion error. */
  function ValidateBytes32Array(m: Memory, ptr: nat): Option<nat>
    requires ptr < MODULUS
  {
    match SafeMul(Mload(m, ptr), 32)
    case None => None
    case Some(size) =>
      match SafeAdd(32, size)
      case None => None
      case Some(n) => SafeAdd(ptr, n)
  }

  function ValidateDynamic(t: DynamicType, m: Memory, ptr: nat): Option<nat>
    requires ptr < MODULUS
  {
    match t
    case BytesType => ValidateBytes(m, ptr)
    case Bytes32Array => ValidateBytes32Array(m, ptr)
  }

  /** The component that memory holds at `ptr`, whatever its padding. */
  function ReadDynamic(t: DynamicType, m: Memory, ptr: nat): (v: Value)
    ensures HasType(Dynamic(t), v)
  {
    match t
    case BytesType => Blob(Slice(m, ptr + 32, Mload(m, ptr)))
    case Bytes32Array => WordList(ReadWords(m, ptr + 32, Mload(m, ptr)))
  }

  function ReadWords(m: Memory, a: nat, n: nat): (ws: seq<nat>)
    ensures |ws| == n && forall i :: 0 <= i < n ==> ws[i] < MODULUS
    decreases n
  {
    if n == 0 then [] else [Mload(m, a)] + ReadWords(m, a + 32, n - 1)
  }

  /******* A component is accepted exactly when it is canonically encoded *******/

  lemma {:induction false} RoundUp(len: nat)
    ensures (len + 31) / 32 * 32 == len + Padding(len)
  {
    var q, r := len / 32, len % 32;
    assert len == 32 * q + r;
  }

  lemma {:induction false} RoundedLength(len: nat)
    requires len < MODULUS
    ensures LengthRoundedByWords(len)
         == Some(if len + 31 < MODULUS then len + Padding(len) else 0)
  {
    hide SafeMul, Padding, Add;
    AddWraps(len, 31);
    var sum := Add(len, 31);
    if len + 31 < MODULUS {
      RoundUp(len);
      assert sum / 32 * 32 <= sum;
    } else {
      assert sum / 32 == 0;
    }
  }

  lemma {:induction false} AddWraps(x: nat, y: nat)
    requires x < MODULUS && y < MODULUS
    ensures Add(x, y) == if x + y < MODULUS then x + y else x + y - MODULUS
  {
  }

  /** The mask of `validateBytes` keeps the low-order bytes of a word. */
  lemma {:induction false} MaskKeepsLowBytes(x: nat, z: nat)
    ensures BitAnd(x, Pow2(z * 8) - 1) == x % Pow256(z)
  {
    BitAndMask(x, z * 8);
    Pow256IsPow2(z);
  }

  lemma {:induction false} RemainderNearModulus(z: nat)
    requires 0 < z < 32
    ensures (MODULUS - z) % Pow256(z) > 0
  {
    ModulusIsPow256();
    Pow256Add(32 - z, z);
    Pow256Exceeds(z);
    RemainderBelowMultiple(Pow256(32 - z), Pow256(z), z);
  }

  lemma {:induction false} RemainderBelowMultiple(q: int, p: int, z: int)
    requires 0 < z < p
    ensures (q * p - z) % p == p - z
  {
    assert (q - 1) * p == q * p - p;
    RemainderIs(q * p - z, q - 1, p, p - z);
  }

  /** A length within 31 of 2^256 wraps in `lengthRoundedByWords`, and the mask still rejects it. */
  lemma {:induction false} HugeLengthRejected(m: Memory, ptr: nat)
    requires ptr < MODULUS
    requires Mload(m, ptr) + 31 >= MODULUS
    ensures ValidateBytes(m, ptr) == None
  {
    hide BitAnd, Pow2, Pow256, LengthRoundedByWords, FromBytes, Slice;
    var length := Mload(m, ptr);
    var z := MODULUS - length;
    RoundedLength(length);
    assert length % 32 == 32 - z;
    RemainderNearModulus(z);
    MaskKeepsLowBytes(length, z);
  }

  /** Testing the last word against the mask tests the padding bytes. */
  lemma {:induction false} MaskTestsPadding(m: Memory, a: nat, pad: nat)
    requires pad <= 32 <= a + pad
    ensures BitAnd(Mload(m, a + pad - 32), Pow2(pad * 8) - 1) == 0 <==> Slice(m, a, pad) == Zeros(pad)
  {
    var last := Slice(m, a + pad - 32, 32);
    assert last[32 - pad..] == Slice(m, a, pad);
    LowBytes(last, pad);
    FromBytesZero(last[32 - pad..]);
    MaskKeepsLowBytes(Mload(m, a + pad - 32), pad);
  }

  /** Memory at `ptr` is the encoding of `v`, and its end is an address. */
  ghost predicate HoldsTail(m: Memory, ptr: nat, v: Value) {
    ptr + |Tail(v)| < MODULUS && Slice(m, ptr, |Tail(v)|) == Tail(v)
  }

  lemma {:induction false} HoldsBlob(m: Memory, ptr: nat)
    ensures var length := Mload(m, ptr);
      HoldsTail(m, ptr, Blob(Slice(m, ptr + 32, length)))
      <==> (&& ptr + 32 + length + Padding(length) < MODULUS
            && Slice(m, ptr + 32 + length, Padding(length)) == Zeros(Padding(length)))
  {
    hide Slice, FromBytes, Word, Zeros, Padding;
    var length := Mload(m, ptr);
    var data := Slice(m, ptr + 32, length);
    var pad := Padding(length);
    SliceConcat(m, ptr, Word(length), data + Zeros(pad));
    SliceConcat(m, ptr + 32, data, Zeros(pad));
    MloadIsWord(m, ptr, length);
  }

  lemma {:induction false} ValidateBytesPadded(m: Memory, ptr: nat)
    requires ptr < MODULUS && Mload(m, ptr) % 32 != 0 && Mload(m, ptr) + 31 < MODULUS
    ensures var length := Mload(m, ptr);
      var pad := Padding(length);
      var bytesEnd := ptr + 32 + length + pad;
      ValidateBytes(m, ptr)
      == if bytesEnd < MODULUS && Slice(m, bytesEnd - pad, pad) == Zeros(pad) then Some(bytesEnd) else None
  {
    hide BitAnd, Pow2, LengthRoundedByWords, FromBytes, Slice, Zeros;
    var length := Mload(m, ptr);
    var pad := Padding(length);
    var bytesEnd := ptr + 32 + length + pad;
    RoundedLength(length);
    assert pad == 32 - length % 32;
    MaskTestsPadding(m, bytesEnd - pad, pad);
    var mask := Pow2(pad * 8) - 1;
    assert ValidateBytes(m, ptr)
        == if bytesEnd < MODULUS && BitAnd(Mload(m, bytesEnd - 32), mask) == 0 then Some(bytesEnd) else None;
  }

  lemma {:induction false} ValidateBytesWhole(m: Memory, ptr: nat)
    requires ptr < MODULUS && Mload(m, ptr) % 32 == 0
    ensures var bytesEnd := ptr + 32 + Mload(m, ptr);
      ValidateBytes(m, ptr) == if bytesEnd < MODULUS then Some(bytesEnd) else None
  {
    hide BitAnd, Pow2, LengthRoundedByWords, FromBytes, Slice;
  }

  lemma {:induction false} BlobTail(m: Memory, ptr: nat)
    ensures var length := Mload(m, ptr);
      |Tail(Blob(Slice(m, ptr + 32, length)))| == 32 + length + Padding(length)
  {
    hide Padding, FromBytes, Zeros, Word;
  }

  lemma {:induction false} PaddingOf(n: nat)
    ensures Padding(n) == if n % 32 == 0 then 0 else 32 - n % 32
    ensures Zeros(0) == []
  {
  }

  lemma {:induction false} ValidateBytesExact(m: Memory, ptr: nat)
    requires ptr < MODULUS
    ensures var v := ReadDynamic(BytesType, m, ptr);
      ValidateBytes(m, ptr) == if HoldsTail(m, ptr, v) then Some(ptr + |Tail(v)|) else None
  {
    hide ValidateBytes, HoldsTail, Tail, Padding, Mload, Slice, Zeros;
    var length := Mload(m, ptr);
    HoldsBlob(m, ptr);
    BlobTail(m, ptr);
    PaddingOf(length);
    if length + 31 >= MODULUS {
      HugeLengthRejected(m, ptr);
      assert length % 32 != 0;
    } else if length % 32 != 0 {
      ValidateBytesPadded(m, ptr);
    } else {
      ValidateBytesWhole(m, ptr);
      assert |Slice(m, ptr + 32 + length, 0)| == 0;
    }
  }

  lemma {:induction false} ReadWordsBytes(m: Memory, a: nat, n: nat)
    ensures Slice(m, a, 32 * n) == WordsToBytes(ReadWords(m, a, n))
    decreases n
  {
    if n > 0 {
      ReadWordsBytes(m, a + 32, n - 1);
      var ws := ReadWords(m, a, n);
      MloadIsWord(m, a, ws[0]);
      SliceConcat(m, a, Word(ws[0]), WordsToBytes(ws[1..]));
    }
  }

  lemma {:induction false} WordsAreRead(m: Memory, a: nat, ws: seq<nat>)
    requires forall i :: 0 <= i < |ws| ==> ws[i] < MODULUS
    requires Slice(m, a, 32 * |ws|) == WordsToBytes(ws)
    ensures ReadWords(m, a, |ws|) == ws
    decreases |ws|
  {
    if ws != [] {
      SliceConcat(m, a, Word(ws[0]), WordsToBytes(ws[1..]));
      MloadIsWord(m, a, ws[0]);
      WordsAreRead(m, a + 32, ws[1..]);
    }
  }

  lemma {:induction false} ValidateWordsExact(m: Memory, ptr: nat)
    requires ptr < MODULUS
    ensures var v := ReadDynamic(Bytes32Array, m, ptr);
      ValidateBytes32Array(m, ptr) == if HoldsTail(m, ptr, v) then Some(ptr + |Tail(v)|) else None
  {
    hide Slice, ReadWords, WordsToBytes, FromBytes, Word;
    var length := Mload(m, ptr);
    var words := ReadWords(m, ptr + 32, length);
    ReadWordsBytes(m, ptr + 32, length);
    MloadIsWord(m, ptr, length);
    SliceConcat(m, ptr, Word(length), WordsToBytes(words));
  }

  /** The bootloader accepts a component exactly when it is the canonical encoding of what it reads as. */
  lemma {:induction false} ValidateExact(t: DynamicType, m: Memory, ptr: nat)
    requires ptr < MODULUS
    ensures var v := ReadDynamic(t, m, ptr);
      ValidateDynamic(t, m, ptr) == if HoldsTail(m, ptr, v) then Some(ptr + |Tail(v)|) else None
  {
    hide ValidateBytes, ValidateBytes32Array, HoldsTail, Tail, Slice, ReadWords;
    match t
    case BytesType => ValidateBytesExact(m, ptr);
    case Bytes32Array => ValidateWordsExact(m, ptr);
  }

  /** Reading a component that lies canonically encoded in memory gives back its value. */
  lemma {:induction false} ReadInvertsTail(t: DynamicType, m: Memory, ptr: nat, v: Value)
    requires HasType(Dynamic(t), v)
    requires Slice(m, ptr, |Tail(v)|) == Tail(v)
    ensures ReadDynamic(t, m, ptr) == v
  {
    match v
    case Blob(data) =>
      SliceConcat(m, ptr, Word(|data|), data + Zeros(Padding(|data|)));
      SliceConcat(m, ptr + 32, data, Zeros(Padding(|data|)));
      MloadIsWord(m, ptr, |data|);
    case WordList(words) =>
      SliceConcat(m, ptr, Word(|words|), WordsToBytes(words));
      MloadIsWord(m, ptr, |words|);
      WordsAreRead(m, ptr + 32, words);
  }
}
