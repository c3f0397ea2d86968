/**
 256-bit words, byte-addressed memory and the checked arithmetic of the bootloader.
 */
module Words {
  import opened Text

  type byte = b: nat | b < 256

  /** 2^256: `add`, `mul` and `sub` of Yul wrap around at this number. */
  const MODULUS: nat := 0x1_0000_0000_0000_0000_0000_0000_0000_0000_0000_0000_0000_0000_0000_0000_0000_0000

  function Pow256(n: nat): (p: nat)
    ensures p > 0
  {
    if n == 0 then 1 else 256 * Pow256(n - 1)
  }

  function Pow2(n: nat): (p: nat)
    ensures p > 0
  {
    if n == 0 then 1 else 2 * Pow2(n - 1)
  }

  lemma {:induction false} ModulusIsPow256()
    ensures Pow256(32) == MODULUS
  {
    assert Pow256(2) == 0x1_0000;
    assert Pow256(4) == 0x1_0000_0000 by { Pow256Add(2, 2); }
    assert Pow256(8) == 0x1_0000_0000_0000_0000 by { Pow256Add(4, 4); }
    Pow256Add(8, 8);
    Pow256Add(16, 16);
  }

  lemma {:induction false} Pow256Add(a: nat, b: nat)
    ensures Pow256(a + b) == Pow256(a) * Pow256(b)
  {
    if a > 0 {
      Pow256Add(a - 1, b);
      calc {
        Pow256(a + b);
        256 * Pow256(a - 1 + b);
        256 * (Pow256(a - 1) * Pow256(b));
        (256 * Pow256(a - 1)) * Pow256(b);
      }
    }
  }

  lemma {:induction false} Pow256IsPow2(n: nat)
    ensures Pow256(n) == Pow2(8 * n)
  {
    if n > 0 {
      Pow256IsPow2(n - 1);
      var k := 8 * (n - 1);
      assert Pow2(k + 2) == 4 * Pow2(k);
      assert Pow2(k + 4) == 4 * Pow2(k + 2);
      assert Pow2(k + 6) == 4 * Pow2(k + 4);
    }
  }

  lemma {:induction false} Pow256Exceeds(n: nat)
    ensures n < Pow256(n)
  {
    if n > 0 {
      Pow256Exceeds(n - 1);
    }
  }

  /******* Big-endian numbers *******/

  /** The number whose big-endian bytes are `s`. */
  function FromBytes(s: seq<byte>): nat {
    if s == [] then 0 else 256 * FromBytes(s[..|s| - 1]) + s[|s| - 1]
  }

  /** The `k` low-order bytes of `n`, most significant byte first. */
  function ToBytes(n: nat, k: nat): (s: seq<byte>)
    ensures |s| == k
  {
    seq(k, i requires 0 <= i < k => (n / Pow256(k - 1 - i)) % 256)
  }

  lemma {:induction false} DigitShift(n: nat, j: nat)
    ensures n / Pow256(j + 1) == (n / 256) / Pow256(j)
  {
    QuotientOfQuotient(n, 256, Pow256(j));
  }

  lemma {:induction false} ToBytesLast(n: nat, k: nat)
    requires k > 0
    ensures ToBytes(n, k) == ToBytes(n / 256, k - 1) + [n % 256]
  {
    forall i | 0 <= i < k - 1
      ensures ToBytes(n, k)[i] == ToBytes(n / 256, k - 1)[i]
    {
      DigitShift(n, k - 2 - i);
    }
    assert ToBytes(n, k)[k - 1] == (n / Pow256(0)) % 256;
  }

  function Zeros(k: nat): (s: seq<byte>)
    ensures |s| == k
  {
    seq(k, _ => 0)
  }

  lemma {:induction false} FromBytesBound(s: seq<byte>)
    ensures FromBytes(s) < Pow256(|s|)
  {
    if s != [] {
      FromBytesBound(s[..|s| - 1]);
    }
  }

  lemma {:induction false} FromToBytes(n: nat, k: nat)
    requires n < Pow256(k)
    ensures FromBytes(ToBytes(n, k)) == n
  {
    if k > 0 {
      ToBytesLast(n, k);
      FromToBytes(n / 256, k - 1);
      assert ToBytes(n, k)[..k - 1] == ToBytes(n / 256, k - 1);
    }
  }

  lemma {:induction false} ToFromBytes(s: seq<byte>)
    ensures ToBytes(FromBytes(s), |s|) == s
  {
    if s != [] {
      ToBytesLast(FromBytes(s), |s|);
      ToFromBytes(s[..|s| - 1]);
      assert s == s[..|s| - 1] + [s[|s| - 1]];
    }
  }

  lemma {:induction false} FromBytesConcat(a: seq<byte>, b: seq<byte>)
    ensures FromBytes(a + b) == FromBytes(a) * Pow256(|b|) + FromBytes(b)
  {
    if b == [] {
      assert a + b == a;
    } else {
      var b' := b[..|b| - 1];
      FromBytesConcat(a, b');
      assert (a + b)[..|a + b| - 1] == a + b';
      DigitTimes(FromBytes(a), Pow256(|b'|));
    }
  }

  lemma {:induction false} DigitTimes(x: nat, p: nat)
    ensures x * (256 * p) == 256 * (x * p)
  {
  }

  lemma {:induction false} FromBytesZero(s: seq<byte>)
    ensures FromBytes(s) == 0 <==> s == Zeros(|s|)
  {
    if s != [] {
      FromBytesZero(s[..|s| - 1]);
      assert Zeros(|s|)[..|s| - 1] == Zeros(|s| - 1);
      assert s == s[..|s| - 1] + [s[|s| - 1]];
    }
  }

  /** The low-order bytes of a number are its remainder by a power of 256. */
  lemma {:induction false} LowBytes(s: seq<byte>, k: nat)
    requires k <= |s|
    ensures FromBytes(s) % Pow256(k) == FromBytes(s[|s| - k..])
  {
    var hi, lo := s[..|s| - k], s[|s| - k..];
    assert s == hi + lo;
    FromBytesConcat(hi, lo);
    FromBytesBound(lo);
    RemainderIs(FromBytes(s), FromBytes(hi), Pow256(k), FromBytes(lo));
  }

  lemma {:induction false} RemainderIs(n: int, q: int, d: int, r: int)
    requires d > 0 && n == q * d + r && 0 <= r < d
    ensures n % d == r && n / d == q
  {
    var e := q - n / d;
    assert e * d == n % d - r;
    assert e >= 1 ==> e * d >= d;
    assert e <= -1 ==> e * d <= -d;
  }

  lemma {:induction false} RemainderOfDouble(x: nat, p: nat)
    requires p > 0
    ensures x % (2 * p) == 2 * ((x / 2) % p) + x % 2
  {
    var q, r := (x / 2) / p, (x / 2) % p;
    assert x / 2 == q * p + r;
    assert q * (2 * p) == 2 * (q * p);
    RemainderIs(x, q, 2 * p, 2 * r + x % 2);
  }

  lemma {:induction false} QuotientOfQuotient(n: nat, a: nat, b: nat)
    requires a > 0 && b > 0
    ensures a * b > 0 && n / (a * b) == (n / a) / b
  {
    var q := n / a;
    QuotientIs(n, a, q, n % a, b, q / b, q % b);
  }

  lemma {:induction false} QuotientIs(n: nat, a: nat, q: nat, r: nat, b: nat, q2: nat, r2: nat)
    requires n == a * q + r && r < a && q == q2 * b + r2 && r2 < b
    ensures a * b > 0 && n / (a * b) == q2
  {
    TimesSum(a, q2, b, r2);
    TimesBelow(a, r2, b);
    RemainderIs(n, q2, a * b, a * r2 + r);
  }

  lemma {:induction false} TimesSum(a: nat, q: nat, b: nat, r: nat)
    ensures a * (q * b + r) == q * (a * b) + a * r
  {
  }

  lemma {:induction false} TimesBelow(a: nat, r: nat, b: nat)
    requires a > 0 && r < b
    ensures a * r + a <= a * b && a * b > 0
  {
    var e := b - r - 1;
    assert a * (r + e + 1) == a * r + a * e + a;
  }

  /** Bitwise conjunction of two unsigned numbers. */
  function BitAnd(x: nat, y: nat): nat {
    if x == 0 || y == 0 then 0
    else 2 * BitAnd(x / 2, y / 2) + if x % 2 == 1 && y % 2 == 1 then 1 else 0
  }

  lemma {:induction false} BitAndMask(x: nat, k: nat)
    ensures BitAnd(x, Pow2(k) - 1) == x % Pow2(k)
  {
    hide BitAnd;
    if k == 0 {
      NothingMasked(x);
    } else {
      var p := Pow2(k - 1);
      BitAndOdd(x, p);
      BitAndMask(x / 2, k - 1);
      RemainderOfDouble(x, p);
    }
  }

  lemma {:induction false} NothingMasked(x: nat)
    ensures BitAnd(x, 0) == 0
  {
  }

  lemma {:induction false} BitAndOdd(x: nat, p: nat)
    requires p > 0
    ensures BitAnd(x, 2 * p - 1) == 2 * BitAnd(x / 2, p - 1) + x % 2
  {
    var y := 2 * p - 1;
    assert y / 2 == p - 1 && y % 2 == 1;
  }

  /******* Memory *******/

  /** Memory gives every address a byte. */
  type Memory = nat -> byte

  function Slice(m: Memory, a: nat, n: nat): (s: seq<byte>)
    ensures |s| == n
  {
    seq(n, i requires 0 <= i < n => m(a + i))
  }

  /** `mload`: the word whose first byte is at `a`. */
  function Mload(m: Memory, a: nat): (w: nat)
    ensures w < MODULUS
  {
    FromBytesBound(Slice(m, a, 32));
    ModulusIsPow256();
    FromBytes(Slice(m, a, 32))
  }

  /** A word as it lies in memory. */
  function Word(n: nat): (s: seq<byte>)
    ensures |s| == 32
  {
    ToBytes(n, 32)
  }

  lemma {:induction false} MloadIsWord(m: Memory, a: nat, n: nat)
    requires n < MODULUS
    ensures Mload(m, a) == n <==> Slice(m, a, 32) == Word(n)
  {
    ModulusIsPow256();
    FromToBytes(n, 32);
    ToFromBytes(Slice(m, a, 32));
  }

  lemma {:induction false} SliceConcat(m: Memory, a: nat, s: seq<byte>, t: seq<byte>)
    ensures Slice(m, a, |s| + |t|) == s + t <==> Slice(m, a, |s|) == s && Slice(m, a + |s|, |t|) == t
  {
    var whole := Slice(m, a, |s| + |t|);
    assert whole[..|s|] == Slice(m, a, |s|);
    assert whole[|s|..] == Slice(m, a + |s|, |t|);
    assert whole == whole[..|s|] + whole[|s|..];
    assert (s + t)[..|s|] == s && (s + t)[|s|..] == t;
  }

  /******* Word arithmetic *******/

  function Add(x: nat, y: nat): nat {
    (x + y) % MODULUS
  }

  function Mul(x: nat, y: nat): nat {
    (x * y) % MODULUS
  }

  /** `safeAdd`: detects wrap-around by comparing the sum with the first operand. */
  function SafeAdd(x: nat, y: nat): (r: Option<nat>)
    requires x < MODULUS && y < MODULUS
    ensures r == if x + y < MODULUS then Some(x + y) else None
  {
    if Add(x, y) < x then None else Some(Add(x, y))
  }

  /** `safeMul`: detects wrap-around by dividing back. */
  function SafeMul(x: nat, y: nat): (r: Option<nat>)
    requires x < MODULUS && y < MODULUS
    ensures r == if x * y < MODULUS then Some(x * y) else None
  {
    SafeMulDetects(x, y);
    if y == 0 then Some(0)
    else if Mul(x, y) / y != x then None else Some(Mul(x, y))
  }

  lemma {:induction false} SafeMulDetects(x: nat, y: nat)
    ensures x * y >= 0
    ensures y > 0 && x * y < MODULUS ==> Mul(x, y) / y == x
    ensures y > 0 && x * y >= MODULUS ==> Mul(x, y) / y != x
  {
    assert x * y >= 0;
    if y > 0 && x * y < MODULUS {
      RemainderIs(x * y, x, y, 0);
    } else if y > 0 {
      var r := Mul(x, y);
      assert r == (r / y) * y + r % y;
      assert r < MODULUS;
    }
  }
}
