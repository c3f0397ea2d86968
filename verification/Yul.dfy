/**
 The fragment of Yul that the transaction-layout generator emits, and its meaning over
 the bootloader's memory. A call refers to a primitive or to a function defined earlier
 in the program, which is how all emitted code calls.
 */
module Yul {
  import opened Text
  import opened Words
  import opened AbiEncoding

  datatype Expr =
    | Lit(n: nat)
    | Id(name: string)
    | Call1(f: string, arg: Expr)
    | Call2(f: string, left: Expr, right: Expr)

  datatype Stmt =
    | Let(name: string, value: Expr)
    | Assign(name: string, value: Expr)
    | AssertNot(cond: Expr, message: string) // if cond { assertionError(message) }

  /** `function name(param) -> ret { body }` */
  datatype Def = Def(name: string, param: string, body: seq<Stmt>)

  type Program = seq<Def>

  type word = n: nat | n < MODULUS

  type Env = map<string, word>

  datatype Outcome<+T> = Done(value: T) | AssertionError(message: string) | Undefined(name: string)

  function Bit(b: bool): word {
    if b then 1 else 0
  }

  function Checked(r: Option<nat>, f: string): Outcome<word>
    requires r.Some? ==> r.value < MODULUS
  {
    if r.Some? then Done(r.value) else AssertionError(f)
  }

  predicate IsPrimitive1(f: string) {
    f in {"mload", "iszero", "lengthToWords", "validateAddress", "validateUint128", "validateUint32",
          "validateBytes", "validateBytes32Array"}
  }

  predicate IsPrimitive2(f: string) {
    f in {"add", "mul", "eq"}
  }

  function Primitive1(m: Memory, f: string, x: word): Outcome<word>
    requires IsPrimitive1(f)
  {
    if f == "mload" then Done(Mload(m, x))
    else if f == "iszero" then Done(Bit(x == 0))
    else if f == "lengthToWords" then Checked(LengthRoundedByWords(x), f)
    else if f == "validateAddress" then Done(Bit(x < TypeBound(Address)))
    else if f == "validateUint128" then Done(Bit(x < TypeBound(Uint128)))
    else if f == "validateUint32" then Done(Bit(x < TypeBound(Uint32)))
    else if f == "validateBytes" then Checked(ValidateBytes(m, x), f)
    else Checked(ValidateBytes32Array(m, x), f)
  }

  function Primitive2(f: string, x: word, y: word): word
    requires IsPrimitive2(f)
  {
    if f == "add" then Add(x, y) else if f == "mul" then (assert x * y >= 0; Mul(x, y)) else Bit(x == y)
  }

  /** The position of the function named `f`, or the length of the program if there is none. */
  function Find(p: Program, f: string): (k: nat)
    ensures k <= |p|
    ensures k < |p| ==> p[k].name == f
  {
    if p == [] then 0 else if p[0].name == f then 0 else 1 + Find(p[1..], f)
  }

  function Eval(p: Program, m: Memory, env: Env, e: Expr): Outcome<word>
    decreases |p|, 1, e
  {
    match e
    case Lit(n) => if n < MODULUS then Done(n) else Undefined("literal")
    case Id(x) => if x in env then Done(env[x]) else Undefined(x)
    case Call1(f, arg) =>
      (match Eval(p, m, env, arg)
       case Done(x) => if IsPrimitive1(f) then Primitive1(m, f, x) else Invoke(p, m, f, x)
       case bad => bad)
    case Call2(f, left, right) =>
      (match Eval(p, m, env, left)
       case Done(x) =>
         (match Eval(p, m, env, right)
          case Done(y) => if IsPrimitive2(f) then Done(Primitive2(f, x, y)) else Undefined(f)
          case bad => bad)
       case bad => bad)
  }

  /** Calls the function named `f`; its result variable starts as zero. */
  function Invoke(p: Program, m: Memory, f: string, x: word): Outcome<word>
    decreases |p|, 0
  {
    var k := Find(p, f);
    if k == |p| then Undefined(f)
    else
      match Exec(p[..k], m, map[p[k].param := x, "ret" := 0], p[k].body)
      case Done(env) => if "ret" in env then Done(env["ret"]) else Undefined("ret")
      case AssertionError(message) => AssertionError(message)
      case Undefined(name) => Undefined(name)
  }

  function ExecOne(p: Program, m: Memory, env: Env, s: Stmt): Outcome<Env>
    decreases |p|, 2
  {
    match s
    case AssertNot(cond, message) =>
      (match Eval(p, m, env, cond)
       case Done(x) => if x != 0 then AssertionError(message) else Done(env)
       case AssertionError(msg) => AssertionError(msg)
       case Undefined(name) => Undefined(name))
    case _ =>
      match Eval(p, m, env, s.value)
      case Done(x) => Done(env[s.name := x])
      case AssertionError(msg) => AssertionError(msg)
      case Undefined(name) => Undefined(name)
  }

  function Exec(p: Program, m: Memory, env: Env, body: seq<Stmt>): Outcome<Env>
    decreases |p|, 3, |body|
  {
    if body == [] then Done(env)
    else
      var r := ExecOne(p, m, env, body[0]);
      if r.Done? then Exec(p, m, r.value, body[1..]) else r
  }

  /******* Laws *******/

  ghost predicate DistinctNames(p: Program) {
    forall i, j :: 0 <= i < j < |p| ==> p[i].name != p[j].name
  }

  lemma {:induction false} FindUnique(p: Program, k: nat)
    requires DistinctNames(p) && k < |p|
    ensures Find(p, p[k].name) == k
  {
    if k > 0 {
      assert p[0].name != p[k].name;
      FindUnique(p[1..], k - 1);
    }
  }

  lemma {:induction false} ExecConcat(p: Program, m: Memory, env: Env, a: seq<Stmt>, b: seq<Stmt>)
    ensures var r := Exec(p, m, env, a);
      Exec(p, m, env, a + b) == if r.Done? then Exec(p, m, r.value, b) else r
    decreases |a|
  {
    hide ExecOne;
    if a == [] {
      assert a + b == b;
    } else {
      assert (a + b)[0] == a[0] && (a + b)[1..] == a[1..] + b;
      var first := ExecOne(p, m, env, a[0]);
      if first.Done? {
        ExecConcat(p, m, first.value, a[1..], b);
      }
    }
  }

  lemma {:induction false} ExecSingle(p: Program, m: Memory, env: Env, s: Stmt)
    ensures Exec(p, m, env, [s]) == ExecOne(p, m, env, s)
  {
    hide ExecOne;
    var r := ExecOne(p, m, env, s);
    assert r.Done? ==> Exec(p, m, r.value, [s][1..]) == r;
  }

  lemma {:induction false} ExecTwo(p: Program, m: Memory, env: Env, s: Stmt, t: Stmt)
    ensures var r := ExecOne(p, m, env, s);
      Exec(p, m, env, [s, t]) == if r.Done? then ExecOne(p, m, r.value, t) else r
  {
    hide ExecOne, Exec;
    assert [s, t] == [s] + [t];
    ExecConcat(p, m, env, [s], [t]);
    ExecSingle(p, m, env, s);
    var r := ExecOne(p, m, env, s);
    if r.Done? {
      ExecSingle(p, m, r.value, t);
    }
  }
}
