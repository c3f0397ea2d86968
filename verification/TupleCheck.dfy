/**
 What the generated validator checks about a whole tuple in memory, and why passing it is
 the same as being the canonical, tightly packed encoding of the tuple read back.
 */
module TupleCheck {
  import opened Text
  import opened Words
  import opened AbiEncoding

  /** The word at head position `i` of the tuple at `o`. */
  function HeadWord(m: Memory, o: nat, i: nat): (w: nat)
    ensures w < MODULUS
  {
    Mload(m, Add(o, 32 * i))
  }

  /** Where the dynamic component of head position `i` is said to lie. */
  function TailPtr(m: Memory, o: nat, i: nat): (p: nat)
    ensures p < MODULUS
  {
    Add(o, HeadWord(m, o, i))
  }

  /** Every fixed head word from position `i` on fits its type. */
  predicate FixedFit(m: Memory, o: nat, i: nat, ts: seq<SlotType>)
    decreases |ts|
  {
    ts == [] ||
    (&& (ts[0].Fixed? ==> HeadWord(m, o, i) < TypeBound(ts[0].fixed))
     && FixedFit(m, o, i + 1, ts[1..]))
  }

  /** The end of the tails from head position `i` on, each required to start where the previous ended. */
  function TailsEnd(m: Memory, o: nat, i: nat, ts: seq<SlotType>, expected: nat): Option<nat>
    decreases |ts|
  {
    if ts == [] then Some(expected)
    else if ts[0].Fixed? then TailsEnd(m, o, i + 1, ts[1..], expected)
    else if TailPtr(m, o, i) != expected then None
    else
      match ValidateDynamic(ts[0].dynamic, m, TailPtr(m, o, i))
      case None => None
      case Some(end) => TailsEnd(m, o, i + 1, ts[1..], end)
  }

  /** The values that the head words and pointers from position `i` on lead to. */
  function ReadTuple(m: Memory, o: nat, i: nat, ts: seq<SlotType>): (vs: seq<Value>)
    ensures |vs| == |ts|
    decreases |ts|
  {
    if ts == [] then []
    else
      [ReadSlot(m, o, i, ts[0])] + ReadTuple(m, o, i + 1, ts[1..])
  }

  function ReadSlot(m: Memory, o: nat, i: nat, t: SlotType): Value {
    match t
    case Fixed(_) => Num(HeadWord(m, o, i))
    case Dynamic(d) => ReadDynamic(d, m, TailPtr(m, o, i))
  }

  /** Memory holds the head words of `vs` from position `i` on and their tails from `expected` on. */
  ghost predicate HoldsFrom(m: Memory, o: nat, i: nat, vs: seq<Value>, expected: nat) {
    && o <= expected && expected + |Tails(vs)| < MODULUS
    && Slice(m, o + 32 * i, 32 * |vs|) == Heads(vs, expected - o)
    && Slice(m, expected, |Tails(vs)|) == Tails(vs)
  }

  lemma {:induction false} HoldsFromUnfold(m: Memory, o: nat, i: nat, vs: seq<Value>, expected: nat)
    requires vs != [] && o <= expected < MODULUS && o + 32 * i + 32 < MODULUS
    requires vs[0].Num? ==> vs[0].n < MODULUS
    ensures var v := vs[0];
      HoldsFrom(m, o, i, vs, expected)
      <==> (&& HeadWord(m, o, i) == (if v.Num? then v.n else expected - o)
            && Slice(m, expected, |Tail(v)|) == Tail(v)
            && HoldsFrom(m, o, i + 1, vs[1..], expected + |Tail(v)|))
  {
    hide Word, Slice, Tail, Tails, Heads, Mload;
    var v := vs[0];
    var head := if v.Num? then v.n else expected - o;
    EncodingCons(vs, expected - o);
    SliceConcat(m, o + 32 * i, Word(head), Heads(vs[1..], expected - o + |Tail(v)|));
    SliceConcat(m, expected, Tail(v), Tails(vs[1..]));
    MloadIsWord(m, o + 32 * i, head);
  }

  lemma {:induction false} EncodingCons(vs: seq<Value>, offset: nat)
    requires vs != []
    ensures Heads(vs, offset)
         == Word(if vs[0].Num? then vs[0].n else offset) + Heads(vs[1..], offset + |Tail(vs[0])|)
    ensures Tails(vs) == Tail(vs[0]) + Tails(vs[1..])
  {
    hide Word, Tail;
  }

  lemma {:induction false} TailPtrIs(m: Memory, o: nat, i: nat, expected: nat)
    requires o <= expected < MODULUS
    ensures TailPtr(m, o, i) == expected <==> HeadWord(m, o, i) == expected - o
  {
  }

  lemma {:induction false} TailOfNum(v: Value)
    requires v.Num?
    ensures Tail(v) == []
  {
  }

  lemma {:induction false} AcceptedIsHeld(m: Memory, o: nat, i: nat, ts: seq<SlotType>, expected: nat)
    requires o + 32 * (i + |ts|) <= expected < MODULUS
    requires FixedFit(m, o, i, ts) && TailsEnd(m, o, i, ts, expected).Some?
    ensures var vs := ReadTuple(m, o, i, ts);
      && HasTypes(ts, vs) && HoldsFrom(m, o, i, vs, expected)
      && TailsEnd(m, o, i, ts, expected) == Some(expected + |Tails(vs)|)
    decreases |ts|
  {
    hide Word, Slice, Tail, Mload, ValidateDynamic, ReadDynamic, Heads;
    if ts != [] {
      var vs := ReadTuple(m, o, i, ts);
      if ts[0].Dynamic? {
        ValidateExact(ts[0].dynamic, m, expected);
        TailPtrIs(m, o, i, expected);
      } else {
        TailOfNum(vs[0]);
      }
      AcceptedIsHeld(m, o, i + 1, ts[1..], expected + |Tail(vs[0])|);
      HoldsFromUnfold(m, o, i, vs, expected);
      assert vs[1..] == ReadTuple(m, o, i + 1, ts[1..]);
    }
  }

  lemma {:induction false} HeldIsAccepted(m: Memory, o: nat, i: nat, ts: seq<SlotType>, vs: seq<Value>, expected: nat)
    requires o + 32 * (i + |ts|) <= expected
    requires HasTypes(ts, vs) && HoldsFrom(m, o, i, vs, expected)
    ensures FixedFit(m, o, i, ts)
    ensures TailsEnd(m, o, i, ts, expected) == Some(expected + |Tails(vs)|)
    ensures ReadTuple(m, o, i, ts) == vs
    decreases |ts|
  {
    hide Word, Slice, Tail, Mload, ValidateDynamic, ReadDynamic, Heads;
    if ts != [] {
      HoldsFromUnfold(m, o, i, vs, expected);
      assert HasType(ts[0], vs[0]);
      if ts[0].Dynamic? {
        TailPtrIs(m, o, i, expected);
        ReadInvertsTail(ts[0].dynamic, m, expected, vs[0]);
        ValidateExact(ts[0].dynamic, m, expected);
      } else {
        TailOfNum(vs[0]);
      }
      HeldIsAccepted(m, o, i + 1, ts[1..], vs[1..], expected + |Tail(vs[0])|);
    }
  }

  lemma {:induction false} HoldsFromStart(m: Memory, o: nat, vs: seq<Value>)
    requires o + 32 * |vs| < MODULUS
    ensures HoldsFrom(m, o, 0, vs, o + 32 * |vs|) <==> HoldsEncoding(m, o, vs)
  {
    SliceConcat(m, o, Heads(vs, 32 * |vs|), Tails(vs));
  }

  /** The tuple passes: fixed words fit, and the tails follow the head words without gap. */
  predicate Accepts(m: Memory, o: nat, ts: seq<SlotType>) {
    FixedFit(m, o, 0, ts) && TailsEnd(m, o, 0, ts, Add(o, 32 * |ts|)).Some?
  }

  /** Passing is being the canonical encoding of the tuple that is read back. */
  lemma {:induction false} AcceptsIffCanonical(m: Memory, o: nat, ts: seq<SlotType>)
    requires o + 32 * |ts| < MODULUS
    ensures var vs := ReadTuple(m, o, 0, ts);
      Accepts(m, o, ts) <==> HasTypes(ts, vs) && HoldsEncoding(m, o, vs)
  {
    hide HoldsFrom, HoldsEncoding, FixedFit, TailsEnd, ReadTuple, HasTypes;
    var vs := ReadTuple(m, o, 0, ts);
    HoldsFromStart(m, o, vs);
    if Accepts(m, o, ts) {
      AcceptedIsHeld(m, o, 0, ts, o + 32 * |ts|);
    } else if HasTypes(ts, vs) && HoldsEncoding(m, o, vs) {
      HeldIsAccepted(m, o, 0, ts, vs, o + 32 * |ts|);
      assert false;
    }
  }

  /** The encoding of any well-typed tuple passes, and reading it back gives that tuple. */
  lemma {:induction false} EncodingAccepted(m: Memory, o: nat, ts: seq<SlotType>, vs: seq<Value>)
    requires HasTypes(ts, vs) && HoldsEncoding(m, o, vs)
    ensures Accepts(m, o, ts)
    ensures ReadTuple(m, o, 0, ts) == vs
    ensures TailsEnd(m, o, 0, ts, o + 32 * |ts|) == Some(o + |Encode(vs)|)
  {
    hide HoldsFrom, FixedFit, TailsEnd, ReadTuple, Slice, Tails, Heads;
    HoldsFromStart(m, o, vs);
    HeldIsAccepted(m, o, 0, ts, vs, o + 32 * |ts|);
  }

  /******* Where the components lie *******/

  /** The distance from the start of the tuple to the tail of component `j`. */
  function TailOffset(vs: seq<Value>, j: nat): nat
    requires j <= |vs|
  {
    32 * |vs| + |Tails(vs[..j])|
  }

  /** The tails follow the head words and each other without gap or overlap, and end with the encoding. */
  lemma {:induction false} TailsConsecutive(vs: seq<Value>, j: nat)
    requires j < |vs|
    ensures TailOffset(vs, 0) == 32 * |vs|
    ensures TailOffset(vs, j + 1) == TailOffset(vs, j) + |Tail(vs[j])|
    ensures TailOffset(vs, |vs|) == |Encode(vs)|
  {
    hide Tail, Heads;
    assert vs[..|vs|] == vs;
    TailsSnoc(vs[..j], vs[j]);
    assert vs[..j + 1] == vs[..j] + [vs[j]];
  }

  lemma {:induction false} TailsSnoc(vs: seq<Value>, v: Value)
    ensures Tails(vs + [v]) == Tails(vs) + Tail(v)
  {
    hide Tail;
    if vs == [] {
      assert [v][1..] == [] && vs + [v] == [v];
    } else {
      assert (vs + [v])[1..] == vs[1..] + [v];
      TailsSnoc(vs[1..], v);
    }
  }

  lemma {:induction false} HeldAt(m: Memory, o: nat, i: nat, vs: seq<Value>, expected: nat, j: nat)
    requires j < |vs| && o + 32 * (i + |vs|) <= expected
    requires HoldsFrom(m, o, i, vs, expected)
    requires forall k :: 0 <= k < |vs| && vs[k].Num? ==> vs[k].n < MODULUS
    ensures vs[j].Num? ==> HeadWord(m, o, i + j) == vs[j].n
    ensures var ptr := expected + |Tails(vs[..j])|;
      && ptr + |Tail(vs[j])| < MODULUS && Slice(m, ptr, |Tail(vs[j])|) == Tail(vs[j])
      && (!vs[j].Num? ==> TailPtr(m, o, i + j) == ptr)
    decreases |vs|
  {
    hide HeadWord, Tail, Slice, Heads;
    var v := vs[0];
    HoldsFromUnfold(m, o, i, vs, expected);
    if j == 0 {
      assert vs[..0] == [];
      TailPtrIs(m, o, i, expected);
    } else {
      HeldAt(m, o, i + 1, vs[1..], expected + |Tail(v)|, j - 1);
      assert vs[..j][1..] == vs[1..][..j - 1];
    }
  }

  lemma {:induction false} NumsFit(ts: seq<SlotType>, vs: seq<Value>)
    requires HasTypes(ts, vs)
    ensures forall k :: 0 <= k < |vs| && vs[k].Num? ==> vs[k].n < MODULUS
  {
    forall k | 0 <= k < |vs| && vs[k].Num?
      ensures vs[k].n < MODULUS
    {
      assert HasType(ts[k], vs[k]);
    }
  }

  /** Where component `j` of a tuple lies when memory holds the encoding of the tuple. */
  lemma {:induction false} HeldInTuple(m: Memory, o: nat, ts: seq<SlotType>, vs: seq<Value>, j: nat)
    requires HasTypes(ts, vs) && HoldsEncoding(m, o, vs) && j < |vs|
    ensures vs[j].Num? ==> HeadWord(m, o, j) == vs[j].n
    ensures var ptr := o + TailOffset(vs, j);
      ptr < MODULUS && HoldsTail(m, ptr, vs[j]) && (!vs[j].Num? ==> TailPtr(m, o, j) == ptr)
  {
    hide HoldsFrom, HeadWord, TailPtr, Tail, Slice, HasTypes, Tails, Heads;
    NumsFit(ts, vs);
    HoldsFromStart(m, o, vs);
    HeldAt(m, o, 0, vs, o + 32 * |vs|, j);
  }
}
