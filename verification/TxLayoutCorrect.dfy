/**
 Correctness of the generated transaction utilities, for every field table whose emitted
 functions have distinct names (a Yul program with two functions of one name is rejected).
 */
module TxLayoutCorrect {
  import opened Words
  import opened AbiEncoding
  import opened TupleCheck
  import opened Yul
  import opened TxLayout

  function Types(ss: seq<Slot>): (ts: seq<SlotType>)
    ensures |ts| == |ss|
  {
    if ss == [] then [] else [ss[0].t] + Types(ss[1..])
  }

  /** A call environment: the argument and the result variable have these values. */
  predicate InCall(env: Env, o: nat, ret: nat) {
    INNER in env && env[INNER] == o && "ret" in env && env["ret"] == ret
  }

  /******* Names never clash inside the emitted bodies *******/

  lemma {:induction false} GettersAreNotPrimitive(f: string)
    ensures !IsPrimitive1(GetterName(f)) && !IsPrimitive1(PtrGetterName(f)) && !IsPrimitive1(BytesLengthGetterName(f))
  {
    forall n | n in {GetterName(f), PtrGetterName(f), BytesLengthGetterName(f)}
      ensures n[0] == 'g' && !IsPrimitive1(n)
    {
    }
  }

  lemma {:induction false} LocalsApart(f: string)
    ensures ValueVar(f) != INNER && ValueVar(f) != "ret"
    ensures PosVar(f) != INNER && PosVar(f) != "ret" && PosVar(f) != EXPECTED
    ensures EXPECTED != INNER && EXPECTED != "ret" && INNER != "ret" && "ptr" != INNER && "ptr" != "ret"
  {
    assert ValueVar(f)[|f| + 4] == 'e' && INNER[|INNER| - 1] == 't';
    assert PosVar(f)[|f| + 8] == 's' && EXPECTED[|EXPECTED| - 1] == 'r';
    assert "ptr"[0] != "ret"[0];
  }

  /******* What the emitted getters answer *******/

  lemma {:induction false} MemPosMeans(p: Program, m: Memory, env: Env, offset: nat, o: nat)
    requires INNER in env && env[INNER] == o && offset < MODULUS
    ensures Eval(p, m, env, MemPos(offset)) == Done(Add(o, offset))
    ensures Eval(p, m, env, Call1("mload", MemPos(offset))) == Done(Mload(m, Add(o, offset)))
  {
    hide Mload;
    assert Eval(p, m, env, Id(INNER)) == Done(o);
    assert Eval(p, m, env, Lit(offset)) == Done(offset);
  }

  lemma {:induction false} GetterMeans(p: Program, m: Memory, o: word, k: nat, f: string, offset: nat)
    requires DistinctNames(p) && k < |p| && p[k] == Getter(f, offset) && offset < MODULUS
    ensures Invoke(p, m, GetterName(f), o) == Done(Mload(m, Add(o, offset)))
  {
    hide Mload, Add, MemPos, GetterName, Eval;
    FindUnique(p, k);
    LocalsApart(f);
    var env: Env := map[INNER := o, "ret" := 0];
    MemPosMeans(p[..k], m, env, offset, o);
    ExecSingle(p[..k], m, env, p[k].body[0]);
  }

  lemma {:induction false} PtrGetterMeans(p: Program, m: Memory, o: word, k: nat, f: string, offset: nat)
    requires DistinctNames(p) && k < |p| && p[k] == PtrGetter(f, offset) && offset < MODULUS
    ensures Invoke(p, m, PtrGetterName(f), o) == Done(Add(o, Mload(m, Add(o, offset))))
  {
    hide Mload, MemPos, PtrGetterName;
    FindUnique(p, k);
    LocalsApart(f);
    var env: Env := map[INNER := o, "ret" := 0];
    MemPosMeans(p[..k], m, env, offset, o);
    ExecTwo(p[..k], m, env, p[k].body[0], p[k].body[1]);
    var env2 := env["ret" := Mload(m, Add(o, offset))];
    assert ExecOne(p[..k], m, env, p[k].body[0]) == Done(env2);
    assert Eval(p[..k], m, env2, Id(INNER)) == Done(o);
    assert Eval(p[..k], m, env2, Id("ret")) == Done(Mload(m, Add(o, offset)));
  }

  /** The number of bytes after the length word of a dynamic component, as its length getter computes it. */
  function PaddedSize(d: DynamicType, length: word): Outcome<word> {
    match d
    case BytesType => Checked(LengthRoundedByWords(length), "lengthToWords")
    case Bytes32Array => assert length * 32 >= 0; Done(Mul(length, 32))
  }

  lemma {:induction false} LengthGetterMeans(
    p: Program, m: Memory, o: word, k: nat, f: string, d: DynamicType, ptr: word)
    requires DistinctNames(p) && k < |p| && p[k] == BytesLengthGetter(f, d)
    requires Invoke(p[..k], m, PtrGetterName(f), o) == Done(ptr)
    ensures Invoke(p, m, BytesLengthGetterName(f), o) == PaddedSize(d, Mload(m, ptr))
  {
    hide Mload, PtrGetterName, BytesLengthGetterName, LengthRoundedByWords, Mul;
    FindUnique(p, k);
    LocalsApart(f);
    GettersAreNotPrimitive(f);
    var q := p[..k];
    var env: Env := map[INNER := o, "ret" := 0];
    var env2 := env["ptr" := ptr];
    assert Eval(q, m, env, Id(INNER)) == Done(o);
    assert ExecOne(q, m, env, p[k].body[0]) == Done(env2);
    ExecTwo(q, m, env, p[k].body[0], p[k].body[1]);
    assert Eval(q, m, env2, Id("ptr")) == Done(ptr);
    assert Eval(q, m, env2, Call1("mload", Id("ptr"))) == Done(Mload(m, ptr));
    assert Eval(q, m, env2, Lit(32)) == Done(32);
    assert Eval(q, m, env2, LengthToBytes(d)) == PaddedSize(d, Mload(m, ptr));
  }

  /** The getters of the head word `s` at position `i` answer what the tuple holds there. */
  ghost predicate Answers(p: Program, m: Memory, o: word, s: Slot, i: nat) {
    match s.t
    case Fixed(_) => Invoke(p, m, GetterName(s.name), o) == Done(HeadWord(m, o, i))
    case Dynamic(d) =>
      && Invoke(p, m, PtrGetterName(s.name), o) == Done(TailPtr(m, o, i))
      && Invoke(p, m, BytesLengthGetterName(s.name), o) == PaddedSize(d, Mload(m, TailPtr(m, o, i)))
  }

  ghost predicate AnswersAll(p: Program, m: Memory, o: word, ss: seq<Slot>, i: nat) {
    forall j :: 0 <= j < |ss| ==> Answers(p, m, o, ss[j], i + j)
  }

  lemma {:induction false} SlotPlace(ss: seq<Slot>, j: nat) returns (k: nat)
    requires j < |ss|
    ensures var own, all := SlotGetters(ss[j], j), Getters(ss, 0);
      k + |own| <= |all| && all[k..k + |own|] == own
  {
    hide SlotGetters, Getters;
    k := |Getters(ss[..j], 0)|;
    assert ss == (ss[..j] + [ss[j]]) + ss[j + 1..];
    GettersConcat(ss[..j] + [ss[j]], ss[j + 1..], 0);
    OneMoreSlot(ss[..j], ss[j]);
  }

  lemma {:induction false} PrefixDistinct(p: Program, k: nat)
    requires DistinctNames(p) && k <= |p|
    ensures DistinctNames(p[..k])
  {
  }

  /** Every getter answers correctly in any program that starts with the getters of the table. */
  lemma {:induction false} GettersAnswer(p: Program, ss: seq<Slot>, m: Memory, o: word)
    requires DistinctNames(p) && Getters(ss, 0) <= p && 32 * |ss| < MODULUS
    ensures AnswersAll(p, m, o, ss, 0)
  {
    forall j | 0 <= j < |ss|
      ensures Answers(p, m, o, ss[j], 0 + j)
    {
      GetterAnswers(p, ss, j, m, o);
    }
  }

  lemma {:induction false} GetterAnswers(p: Program, ss: seq<Slot>, j: nat, m: Memory, o: word)
    requires DistinctNames(p) && Getters(ss, 0) <= p && j < |ss| && 32 * |ss| < MODULUS
    ensures Answers(p, m, o, ss[j], j)
  {
    hide Getters, Invoke, Getter, PtrGetter, BytesLengthGetter;
    var k := SlotPlace(ss, j);
    var s := ss[j];
    var own := SlotGetters(s, j);
    assert p[k..k + |own|] == Getters(ss, 0)[k..k + |own|];
    assert p[k] == own[0];
    if s.t.Fixed? {
      GetterMeans(p, m, o, k, s.name, 32 * j);
    } else {
      assert p[k + 1] == own[1];
      PtrGetterMeans(p, m, o, k, s.name, 32 * j);
      PrefixDistinct(p, k + 1);
      PtrGetterMeans(p[..k + 1], m, o, k, s.name, 32 * j);
      LengthGetterMeans(p, m, o, k + 1, s.name, s.t.dynamic, TailPtr(m, o, j));
    }
  }

  /******* The validator *******/

  lemma {:induction false} FixedCheckRuns(p: Program, m: Memory, o: word, env: Env, s: Slot, i: nat)
    requires s.t.Fixed? && Answers(p, m, o, s, i) && InCall(env, o, 0)
    ensures var r := Exec(p, m, env, FixedCheck(s.name, s.t.fixed));
      if HeadWord(m, o, i) < TypeBound(s.t.fixed) then r.Done? && InCall(r.value, o, 0)
      else r == AssertionError(EncodingError(s.name))
  {
    hide HeadWord, Invoke, GetterName, ValueVar, EncodingError;
    LocalsApart(s.name);
    GettersAreNotPrimitive(s.name);
    var body := FixedCheck(s.name, s.t.fixed);
    if s.t.fixed != Uint256 {
      var x := HeadWord(m, o, i);
      var env2 := env[ValueVar(s.name) := x];
      assert Eval(p, m, env, Id(INNER)) == Done(o);
      assert ExecOne(p, m, env, body[0]) == Done(env2);
      ExecTwo(p, m, env, body[0], body[1]);
      var v := Id(ValueVar(s.name));
      assert Eval(p, m, env2, v) == Done(x);
      FixedValidatorMeans(p, m, env2, s.t.fixed, v, x);
    }
  }

  lemma {:induction false} FixedValidatorMeans(p: Program, m: Memory, env: Env, t: FixedType, e: Expr, x: word)
    requires t != Uint256 && Eval(p, m, env, e) == Done(x)
    ensures Eval(p, m, env, Call1("iszero", Call1(FixedValidator(t), e))) == Done(Bit(x >= TypeBound(t)))
  {
    hide Invoke;
    assert IsPrimitive1(FixedValidator(t));
    assert Eval(p, m, env, Call1(FixedValidator(t), e)) == Primitive1(m, FixedValidator(t), x);
    assert Primitive1(m, FixedValidator(t), x) == Done(Bit(x < TypeBound(t)));
  }

  lemma {:induction false} FixedChecksRun(p: Program, m: Memory, o: word, env: Env, ss: seq<Slot>, i: nat)
    requires AnswersAll(p, m, o, ss, i) && InCall(env, o, 0)
    ensures var r := Exec(p, m, env, FixedChecks(ss));
      if FixedFit(m, o, i, Types(ss)) then r.Done? && InCall(r.value, o, 0) else r.AssertionError?
    decreases |ss|
  {
    hide InCall, HeadWord, Answers, FixedCheck;
    if ss != [] {
      var s := ss[0];
      assert Answers(p, m, o, s, i + 0);
      assert Types(ss)[0] == s.t && Types(ss)[1..] == Types(ss[1..]);
      AnswersRest(p, m, o, ss, i);
      ExecConcat(p, m, env, SlotChecks(s), FixedChecks(ss[1..]));
      if s.t.Fixed? {
        FixedCheckRuns(p, m, o, env, s, i);
      }
      var r := Exec(p, m, env, SlotChecks(s));
      if r.Done? {
        FixedChecksRun(p, m, o, r.value, ss[1..], i + 1);
      }
    }
  }

  lemma {:induction false} AnswersRest(p: Program, m: Memory, o: word, ss: seq<Slot>, i: nat)
    requires ss != [] && AnswersAll(p, m, o, ss, i)
    ensures AnswersAll(p, m, o, ss[1..], i + 1)
  {
    hide Answers;
    forall j | 0 <= j < |ss[1..]|
      ensures Answers(p, m, o, ss[1..][j], i + 1 + j)
    {
      assert Answers(p, m, o, ss[j + 1], i + (j + 1));
    }
  }

  /** The pointer at which the validator expects the next dynamic component. */
  predicate Expects(env: Env, expected: nat) {
    EXPECTED in env && env[EXPECTED] == expected
  }

  lemma {:induction false} DynamicCheckRuns(p: Program, m: Memory, o: word, env: Env, s: Slot, i: nat, expected: nat)
    requires s.t.Dynamic? && Answers(p, m, o, s, i) && InCall(env, o, 0) && Expects(env, expected)
    ensures var ptr := TailPtr(m, o, i);
      var end := ValidateDynamic(s.t.dynamic, m, ptr);
      var r := Exec(p, m, env, DynamicCheck(s.name, s.t.dynamic));
      if ptr == expected && end.Some?
      then r.Done? && InCall(r.value, o, 0) && Expects(r.value, end.value)
      else r == AssertionError(if ptr != expected then EncodingError(s.name) else DynamicValidator(s.t.dynamic))
  {
    hide TailPtr, Invoke, PtrGetterName, PosVar, EncodingError, BytesLengthGetterName, PaddedSize, ValidateBytes,
         ValidateBytes32Array;
    LocalsApart(s.name);
    GettersAreNotPrimitive(s.name);
    var ptr := TailPtr(m, o, i);
    var body := DynamicCheck(s.name, s.t.dynamic);
    var env2 := env[PosVar(s.name) := ptr];
    assert Eval(p, m, env, Id(INNER)) == Done(o);
    assert ExecOne(p, m, env, body[0]) == Done(env2);
    ExecConcat(p, m, env, [body[0], body[1]], [body[2]]);
    ExecTwo(p, m, env, body[0], body[1]);
    var pos := Id(PosVar(s.name));
    assert Eval(p, m, env2, pos) == Done(ptr) && Eval(p, m, env2, Id(EXPECTED)) == Done(expected);
    assert Eval(p, m, env2, Call2("eq", pos, Id(EXPECTED))) == Done(Bit(ptr == expected));
    assert Eval(p, m, env2, body[1].cond) == Done(Bit(ptr != expected));
    if ptr == expected {
      ExecSingle(p, m, env2, body[2]);
      DynamicValidatorMeans(p, m, env2, s.t.dynamic, pos, ptr);
    }
  }

  lemma {:induction false} DynamicValidatorMeans(p: Program, m: Memory, env: Env, d: DynamicType, e: Expr, ptr: word)
    requires Eval(p, m, env, e) == Done(ptr)
    ensures var end := ValidateDynamic(d, m, ptr);
      (end.Some? ==> end.value < MODULUS) &&
      Eval(p, m, env, Call1(DynamicValidator(d), e)) == Checked(end, DynamicValidator(d))
  {
    hide Invoke, ValidateBytes, ValidateBytes32Array, Tail, Slice, ReadDynamic;
    ValidateExact(d, m, ptr);
    assert IsPrimitive1(DynamicValidator(d));
  }

  lemma {:induction false} DynamicChecksRun(
    p: Program, m: Memory, o: word, env: Env, ss: seq<Slot>, i: nat, expected: nat)
    requires AnswersAll(p, m, o, ss, i) && InCall(env, o, 0) && Expects(env, expected)
    ensures var end := TailsEnd(m, o, i, Types(ss), expected);
      var r := Exec(p, m, env, DynamicChecks(Dynamics(ss)));
      if end.Some? then r.Done? && InCall(r.value, o, 0) && Expects(r.value, end.value) else r.AssertionError?
    decreases |ss|
  {
    hide InCall, Expects, TailPtr, Answers, DynamicCheck, ValidateDynamic;
    if ss != [] {
      var s := ss[0];
      assert Answers(p, m, o, s, i + 0);
      assert Types(ss)[0] == s.t && Types(ss)[1..] == Types(ss[1..]);
      AnswersRest(p, m, o, ss, i);
      if s.t.Fixed? {
        assert Dynamics(ss) == Dynamics(ss[1..]);
        DynamicChecksRun(p, m, o, env, ss[1..], i + 1, expected);
      } else {
        assert Dynamics(ss)[0] == (s.name, s.t.dynamic) && Dynamics(ss)[1..] == Dynamics(ss[1..]);
        ExecConcat(p, m, env, DynamicCheck(s.name, s.t.dynamic), DynamicChecks(Dynamics(ss[1..])));
        DynamicCheckRuns(p, m, o, env, s, i, expected);
        var r := Exec(p, m, env, DynamicCheck(s.name, s.t.dynamic));
        if r.Done? {
          DynamicChecksRun(p, m, o, r.value, ss[1..], i + 1, ValidateDynamic(s.t.dynamic, m, TailPtr(m, o, i)).value);
        }
      }
    }
  }

  /******* Main results *******/

  /** The emitted functions have distinct names and the head words do not reach past the address space. */
  ghost predicate Linkable(ss: seq<Slot>, o: nat) {
    DistinctNames(Utilities(ss)) && o + 32 * |ss| < MODULUS
  }

  /** The state in which the body of the emitted validator ends. */
  function ValidatorRun(ss: seq<Slot>, m: Memory, o: word): Outcome<Env> {
    Exec(Getters(ss, 0), m, map[INNER := o, "ret" := 0],
         Validator(FixedChecks(ss), 32 * |ss|, Dynamics(ss)).body)
  }

  lemma {:induction false} UtilitiesShape(ss: seq<Slot>)
    ensures var p, n := Utilities(ss), |Getters(ss, 0)|;
      && |p| == n + 2 && p[..n] == Getters(ss, 0)
      && p[n] == Validator(FixedChecks(ss), 32 * |ss|, Dynamics(ss))
      && p[n + 1] == DataLength(32 * |ss|, Dynamics(ss))
  {
    hide Getters, Validator, DataLength;
  }

  lemma {:induction false} DynamicPartRuns(p: Program, m: Memory, o: word, env: Env, ss: seq<Slot>)
    requires AnswersAll(p, m, o, ss, 0) && InCall(env, o, 0) && o + 32 * |ss| < MODULUS
    ensures var start := [Let(EXPECTED, Call2("add", Id(INNER), Lit(32 * |ss|)))];
      var r, end := Exec(p, m, env, start + DynamicChecks(Dynamics(ss))), TailsEnd(m, o, 0, Types(ss), o + 32 * |ss|);
      if end.Some? then r.Done? && InCall(r.value, o, 0) && Expects(r.value, end.value) else r.AssertionError?
  {
    hide AnswersAll, InCall, Expects, DynamicChecks, Dynamics, TailsEnd, Exec;
    var start := [Let(EXPECTED, Call2("add", Id(INNER), Lit(32 * |ss|)))];
    StartRuns(p, m, env, o, |ss|);
    ExecConcat(p, m, env, start, DynamicChecks(Dynamics(ss)));
    DynamicChecksRun(p, m, o, Exec(p, m, env, start).value, ss, 0, o + 32 * |ss|);
  }

  lemma {:induction false} ValidatorRuns(ss: seq<Slot>, m: Memory, o: word)
    requires Linkable(ss, o)
    ensures var r, end := ValidatorRun(ss, m, o), TailsEnd(m, o, 0, Types(ss), o + 32 * |ss|);
      if Accepts(m, o, Types(ss))
      then r.Done? && InCall(r.value, o, 0) && Expects(r.value, end.value)
      else r.AssertionError?
  {
    hide Getters, Utilities, FixedChecks, Dynamics, DynamicChecks, TailsEnd, FixedFit, Exec, InCall, Expects, AnswersAll,
         DistinctNames;
    var p := Getters(ss, 0);
    var env: Env := map[INNER := o, "ret" := 0];
    CallStarts(o);
    UtilitiesShape(ss);
    PrefixDistinct(Utilities(ss), |p|);
    GettersAnswer(p, ss, m, o);
    var start := [Let(EXPECTED, Call2("add", Id(INNER), Lit(32 * |ss|)))];
    ExecConcat(p, m, env, FixedChecks(ss), start + DynamicChecks(Dynamics(ss)));
    FixedChecksRun(p, m, o, env, ss, 0);
    var r := Exec(p, m, env, FixedChecks(ss));
    if r.Done? {
      DynamicPartRuns(p, m, o, r.value, ss);
    }
  }

  lemma {:induction false} CallStarts(o: word)
    ensures InCall(map[INNER := o, "ret" := 0], o, 0)
  {
    LocalsApart("");
  }

  lemma {:induction false} StartRuns(p: Program, m: Memory, env: Env, o: word, n: nat)
    requires InCall(env, o, 0) && o + 32 * n < MODULUS
    ensures var r := Exec(p, m, env, [Let(EXPECTED, Call2("add", Id(INNER), Lit(32 * n)))]);
      r.Done? && InCall(r.value, o, 0) && Expects(r.value, o + 32 * n)
  {
    LocalsApart("");
    var s := Let(EXPECTED, Call2("add", Id(INNER), Lit(32 * n)));
    ExecSingle(p, m, env, s);
    assert Eval(p, m, env, Id(INNER)) == Done(o);
    assert Eval(p, m, env, Lit(32 * n)) == Done(32 * n);
  }

  /** Calling the emitted validator by name runs that body and returns zero: it never assigns its result. */
  lemma {:induction false} ValidatorReturns(ss: seq<Slot>, m: Memory, o: word)
    requires Linkable(ss, o)
    ensures var r := Invoke(Utilities(ss), m, VALIDATOR, o);
      if Accepts(m, o, Types(ss)) then r == Done(0) else r.AssertionError?
  {
    hide Getters, Utilities, Accepts, TailsEnd, FixedChecks, Dynamics;
    UtilitiesShape(ss);
    FindUnique(Utilities(ss), |Getters(ss, 0)|);
    ValidatorRuns(ss, m, o);
  }

  /** The emitted validator accepts memory exactly when it holds the encoding of some well-typed tuple. */
  lemma {:induction false} ValidatorExact(ss: seq<Slot>, m: Memory, o: word)
    requires Linkable(ss, o)
    ensures Invoke(Utilities(ss), m, VALIDATOR, o) == Done(0)
       <==> exists vs :: HasTypes(Types(ss), vs) && HoldsEncoding(m, o, vs)
    ensures var r := Invoke(Utilities(ss), m, VALIDATOR, o); r.Done? || r.AssertionError?
  {
    hide Invoke, Utilities, Accepts, HoldsEncoding, HasTypes, ReadTuple, Linkable;
    assert o + 32 * |Types(ss)| < MODULUS by { assert Linkable(ss, o); HeadFits(ss, o); }
    ValidatorReturns(ss, m, o);
    AcceptsIffCanonical(m, o, Types(ss));
    forall vs | HasTypes(Types(ss), vs) && HoldsEncoding(m, o, vs)
      ensures Accepts(m, o, Types(ss))
    {
      EncodingAccepted(m, o, Types(ss), vs);
    }
  }

  lemma {:induction false} HeadFits(ss: seq<Slot>, o: nat)
    requires Linkable(ss, o)
    ensures o + 32 * |ss| < MODULUS
  {
  }

  lemma {:induction false} TailSize(d: DynamicType, v: Value)
    requires HasType(Dynamic(d), v)
    ensures match d
      case BytesType => v.Blob? && |Tail(v)| == 32 + |v.data| + Padding(|v.data|)
      case Bytes32Array => v.WordList? && |Tail(v)| == 32 + 32 * |v.words|
  {
    hide Word, Padding;
  }

  /** On a canonically encoded component the length getter answers the size of what follows its length word. */
  lemma {:induction false} PaddedSizeIs(d: DynamicType, m: Memory, ptr: word, v: Value)
    requires HasType(Dynamic(d), v) && HoldsTail(m, ptr, v)
    ensures 32 <= |Tail(v)| < MODULUS
    ensures PaddedSize(d, Mload(m, ptr)) == Done(|Tail(v)| - 32)
  {
    hide Slice, Mload, LengthRoundedByWords, Tail, Padding, ReadWords, HasType;
    ReadInvertsTail(d, m, ptr, v);
    TailSize(d, v);
    if d.BytesType? {
      RoundedLength(|v.data|);
    }
  }

  function Adder(name: string): Stmt {
    Assign("ret", Call2("add", Id("ret"), Call1(BytesLengthGetterName(name), Id(INNER))))
  }

  lemma {:induction false} LengthAdderRuns(
    p: Program, m: Memory, o: word, env: Env, s: Slot, i: nat, ret: nat, size: nat)
    requires s.t.Dynamic? && Answers(p, m, o, s, i) && InCall(env, o, ret)
    requires PaddedSize(s.t.dynamic, Mload(m, TailPtr(m, o, i))) == Done(size) && ret + size < MODULUS
    ensures var r := Exec(p, m, env, [Adder(s.name)]);
      r.Done? && InCall(r.value, o, ret + size)
  {
    hide Invoke, TailPtr, Mload, PaddedSize, PtrGetterName, BytesLengthGetterName;
    LocalsApart(s.name);
    GettersAreNotPrimitive(s.name);
    var call := Call1(BytesLengthGetterName(s.name), Id(INNER));
    ExecSingle(p, m, env, Assign("ret", Call2("add", Id("ret"), call)));
    assert Eval(p, m, env, Id(INNER)) == Done(o) && Eval(p, m, env, Id("ret")) == Done(ret);
    assert Eval(p, m, env, call) == Done(size);
  }

  lemma {:induction false} AddersCons(ss: seq<Slot>)
    requires ss != []
    ensures var rest := Dynamics(ss[1..]);
      && (ss[0].t.Fixed? ==> Dynamics(ss) == rest)
      && (ss[0].t.Dynamic? ==>
            |Dynamics(ss)| == |rest| + 1 && LengthAdders(Dynamics(ss)) == [Adder(ss[0].name)] + LengthAdders(rest))
  {
    hide BytesLengthGetterName;
    var s, rest := ss[0], Dynamics(ss[1..]);
    if s.t.Dynamic? {
      assert Dynamics(ss)[0] == (s.name, s.t.dynamic) && Dynamics(ss)[1..] == rest;
    }
  }

  lemma {:induction false} TypesCons(ss: seq<Slot>, vs: seq<Value>)
    requires ss != [] && HasTypes(Types(ss), vs)
    ensures vs != [] && HasType(ss[0].t, vs[0]) && HasTypes(Types(ss[1..]), vs[1..])
  {
    hide HasType;
    assert Types(ss)[0] == ss[0].t && Types(ss)[1..] == Types(ss[1..]);
  }

  lemma {:induction false} LengthAddersRun(
    p: Program, m: Memory, o: word, env: Env, ss: seq<Slot>, i: nat, vs: seq<Value>, expected: nat, ret: nat)
    requires AnswersAll(p, m, o, ss, i) && InCall(env, o, ret)
    requires HasTypes(Types(ss), vs) && HoldsFrom(m, o, i, vs, expected) && o + 32 * (i + |ss|) <= expected
    requires ret + |Tails(vs)| < MODULUS + 32 * |Dynamics(ss)|
    ensures 32 * |Dynamics(ss)| <= |Tails(vs)|
    ensures var r := Exec(p, m, env, LengthAdders(Dynamics(ss)));
      r.Done? && InCall(r.value, o, ret + |Tails(vs)| - 32 * |Dynamics(ss)|)
    decreases |ss|
  {
    hide InCall, Answers, Exec, Tail, HeadWord, Mload, PaddedSize, Slice, Heads, BytesLengthGetterName;
    if ss == [] {
      ExecNothing(p, m, env);
    } else {
      var s, v := ss[0], vs[0];
      assert Answers(p, m, o, s, i + 0);
      TypesCons(ss, vs);
      AnswersRest(p, m, o, ss, i);
      HoldsFromUnfold(m, o, i, vs, expected);
      AddersCons(ss);
      hide AnswersAll, HoldsFrom, Dynamics, LengthAdders, Types, HasTypes, Adder;
      if s.t.Fixed? {
        TailOfNum(v);
        LengthAddersRun(p, m, o, env, ss[1..], i + 1, vs[1..], expected, ret);
      } else {
        TailPtrIs(m, o, i, expected);
        PaddedSizeIs(s.t.dynamic, m, expected, v);
        DynamicsCount(ss[1..], vs[1..]);
        LengthAdderRuns(p, m, o, env, s, i, ret, |Tail(v)| - 32);
        ExecConcat(p, m, env, [Adder(s.name)], LengthAdders(Dynamics(ss[1..])));
        LengthAddersRun(p, m, o, Exec(p, m, env, [Adder(s.name)]).value, ss[1..], i + 1, vs[1..],
                        expected + |Tail(v)|, ret + |Tail(v)| - 32);
      }
    }
  }

  lemma {:induction false} ExecNothing(p: Program, m: Memory, env: Env)
    ensures Exec(p, m, env, []) == Done(env)
  {
  }

  lemma {:induction false} DynamicsCount(ss: seq<Slot>, vs: seq<Value>)
    requires HasTypes(Types(ss), vs)
    ensures 32 * |Dynamics(ss)| <= |Tails(vs)|
  {
    if ss != [] {
      assert Types(ss)[0] == ss[0].t && Types(ss)[1..] == Types(ss[1..]);
      assert HasType(ss[0].t, vs[0]);
      DynamicsCount(ss[1..], vs[1..]);
    }
  }

  /** On an accepted image the emitted `getDataLength` is the size of the whole encoding. */
  lemma {:induction false} DataLengthExact(ss: seq<Slot>, m: Memory, o: word, vs: seq<Value>)
    requires Linkable(ss, o) && HasTypes(Types(ss), vs) && HoldsEncoding(m, o, vs)
    ensures |Encode(vs)| < MODULUS
    ensures Invoke(Utilities(ss), m, DATA_LENGTH, o) == Done(|Encode(vs)|)
  {
    hide Getters, Utilities, Dynamics, LengthAdders, AnswersAll, Validator, HasTypes, Types, HoldsFrom, HoldsEncoding,
         Encode, DistinctNames, Exec;
    var p, n := Utilities(ss), |Getters(ss, 0)|;
    UtilitiesShape(ss);
    FindUnique(p, n + 1);
    GettersAnswerBefore(ss, m, o);
    StartOfTails(ss, m, o, vs);
    DataLengthRuns(p[..n + 1], ss, m, o, vs);
  }

  lemma {:induction false} GettersAnswerBefore(ss: seq<Slot>, m: Memory, o: word)
    requires Linkable(ss, o)
    ensures var p, n := Utilities(ss), |Getters(ss, 0)|; |p| == n + 2 && AnswersAll(p[..n + 1], m, o, ss, 0)
  {
    hide Getters, Utilities, Answers, AnswersAll, DistinctNames, Validator, DataLength;
    var p, n := Utilities(ss), |Getters(ss, 0)|;
    UtilitiesShape(ss);
    PrefixDistinct(p, n + 1);
    assert p[..n + 1][..n] == p[..n];
    GettersAnswer(p[..n + 1], ss, m, o);
  }

  lemma {:induction false} StartOfTails(ss: seq<Slot>, m: Memory, o: word, vs: seq<Value>)
    requires HasTypes(Types(ss), vs) && HoldsEncoding(m, o, vs)
    ensures HoldsFrom(m, o, 0, vs, o + 32 * |ss|)
    ensures |Encode(vs)| == 32 * |ss| + |Tails(vs)| < MODULUS
  {
    hide HasTypes, Types, Slice, Heads, Tails, HoldsFrom;
    SameLength(ss, vs);
    HoldsFromStart(m, o, vs);
  }

  lemma {:induction false} DataLengthRuns(p: Program, ss: seq<Slot>, m: Memory, o: word, vs: seq<Value>)
    requires AnswersAll(p, m, o, ss, 0) && HasTypes(Types(ss), vs)
    requires HoldsFrom(m, o, 0, vs, o + 32 * |ss|) && 32 * |ss| + |Tails(vs)| < MODULUS
    ensures var r := Exec(p, m, map[INNER := o, "ret" := 0], DataLength(32 * |ss|, Dynamics(ss)).body);
      r.Done? && InCall(r.value, o, 32 * |ss| + |Tails(vs)|)
  {
    hide Dynamics, LengthAdders, AnswersAll, Types, Tails, HoldsFrom, HasTypes;
    DynamicsCount(ss, vs);
    LocalsApart("");
    var base := 32 * |ss| + |Dynamics(ss)| * 32;
    var env: Env := map[INNER := o, "ret" := 0];
    ExecConcat(p, m, env, [Assign("ret", Lit(base))], LengthAdders(Dynamics(ss)));
    ExecSingle(p, m, env, Assign("ret", Lit(base)));
    LengthAddersRun(p, m, o, env["ret" := base], ss, 0, vs, o + 32 * |ss|, base);
  }

  lemma {:induction false} SameLength(ss: seq<Slot>, vs: seq<Value>)
    requires HasTypes(Types(ss), vs)
    ensures |vs| == |ss|
  {
  }

  /** The getters of head word `j` answer, in the emitted program, for the tuple `vs` that memory holds. */
  lemma {:induction false} SlotHolds(ss: seq<Slot>, m: Memory, o: word, vs: seq<Value>, j: nat)
    requires Linkable(ss, o) && HasTypes(Types(ss), vs) && HoldsEncoding(m, o, vs) && j < |ss|
    ensures j < |vs| && Answers(Utilities(ss), m, o, ss[j], j) && HasType(ss[j].t, vs[j])
    ensures vs[j].Num? ==> HeadWord(m, o, j) == vs[j].n
    ensures var ptr := o + TailOffset(vs, j);
      ptr < MODULUS && HoldsTail(m, ptr, vs[j]) && (!vs[j].Num? ==> TailPtr(m, o, j) == ptr)
  {
    hide Utilities, Answers, HeadWord, TailPtr, HoldsTail, HasType, Types, HoldsEncoding, TailOffset;
    UtilitiesAnswer(ss, m, o, j);
    TypesAt(ss, j);
    assert HasType(Types(ss)[j], vs[j]);
    HeldInTuple(m, o, Types(ss), vs, j);
  }

  lemma {:induction false} UtilitiesAnswer(ss: seq<Slot>, m: Memory, o: word, j: nat)
    requires Linkable(ss, o) && j < |ss|
    ensures Answers(Utilities(ss), m, o, ss[j], j)
  {
    hide Getters, Utilities, Answers;
    UtilitiesShape(ss);
    GettersAnswer(Utilities(ss), ss, m, o);
    assert Answers(Utilities(ss), m, o, ss[j], 0 + j);
  }

  /** The getter of a fixed field gives back the encoded number. */
  lemma {:induction false} FixedGetterInverts(ss: seq<Slot>, m: Memory, o: word, vs: seq<Value>, j: nat)
    requires Linkable(ss, o) && HasTypes(Types(ss), vs) && HoldsEncoding(m, o, vs)
    requires j < |ss| && ss[j].t.Fixed?
    ensures vs[j].Num? && vs[j].n < MODULUS
    ensures Invoke(Utilities(ss), m, GetterName(ss[j].name), o) == Done(vs[j].n)
  {
    hide Utilities, Invoke, Linkable, HasTypes, HoldsEncoding, HoldsTail, TailOffset, GetterName;
    SlotHolds(ss, m, o, vs, j);
  }

  /**
   The pointer getter of a dynamic field leads to the encoding of its component, at the place the packed
   tails give it, and its length getter gives the size of what follows the length word there.
   */
  lemma {:induction false} DynamicGettersInvert(ss: seq<Slot>, m: Memory, o: word, vs: seq<Value>, j: nat)
    requires Linkable(ss, o) && HasTypes(Types(ss), vs) && HoldsEncoding(m, o, vs)
    requires j < |ss| && ss[j].t.Dynamic?
    ensures var ptr, v := o + TailOffset(vs, j), vs[j];
      && ptr < MODULUS && 32 <= |Tail(v)| < MODULUS
      && Invoke(Utilities(ss), m, PtrGetterName(ss[j].name), o) == Done(ptr)
      && Slice(m, ptr, |Tail(v)|) == Tail(v) && ReadDynamic(ss[j].t.dynamic, m, ptr) == v
      && Invoke(Utilities(ss), m, BytesLengthGetterName(ss[j].name), o) == Done(|Tail(v)| - 32)
  {
    hide Utilities, Invoke, Linkable, HasTypes, HoldsEncoding, TailOffset, PtrGetterName, BytesLengthGetterName, Tail,
         Slice, ReadDynamic, PaddedSize, Mload, HasType;
    SlotHolds(ss, m, o, vs, j);
    var ptr := o + TailOffset(vs, j);
    var d := ss[j].t.dynamic;
    DynamicIsNotNum(d, vs[j]);
    PaddedSizeIs(d, m, ptr, vs[j]);
    ReadInvertsTail(d, m, ptr, vs[j]);
  }

  lemma {:induction false} DynamicIsNotNum(d: DynamicType, v: Value)
    requires HasType(Dynamic(d), v)
    ensures !v.Num?
  {
  }

  lemma {:induction false} TypesAt(ss: seq<Slot>, j: nat)
    requires j < |ss|
    ensures Types(ss)[j] == ss[j].t
  {
    if j > 0 {
      TypesAt(ss[1..], j - 1);
    }
  }

  /** The validator's last expected pointer is the start offset plus the emitted `getDataLength`. */
  lemma {:induction false} FinalPointer(ss: seq<Slot>, m: Memory, o: word)
    requires Linkable(ss, o)
    requires Invoke(Utilities(ss), m, VALIDATOR, o).Done?
    ensures var r, n := ValidatorRun(ss, m, o), Invoke(Utilities(ss), m, DATA_LENGTH, o);
      r.Done? && n.Done? && Expects(r.value, o + n.value)
  {
    hide Invoke, Utilities, HoldsEncoding, HasTypes, TailsEnd, ReadTuple, Accepts, Encode, Expects, InCall;
    var ts := Types(ss);
    ValidatorReturns(ss, m, o);
    ValidatorRuns(ss, m, o);
    AcceptsIffCanonical(m, o, ts);
    var vs := ReadTuple(m, o, 0, ts);
    EncodingAccepted(m, o, ts, vs);
    DataLengthExact(ss, m, o, vs);
  }
}
