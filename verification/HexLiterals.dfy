/**
 Hexadecimal literals: how the verifier generator prints little-endian 64-bit limbs, and which
 number such a print stands for.
 */
module HexLiterals {
  import opened Text
  import opened Words

  type u64 = n: nat | n < 0x1_0000_0000_0000_0000

  predicate IsHexDigit(c: char) {
    IsDigit(c) || 'a' <= c <= 'f'
  }

  predicate IsHex(s: string) {
    forall i :: 0 <= i < |s| ==> IsHexDigit(s[i])
  }

  function HexDigitValue(c: char): (d: nat)
    requires IsHexDigit(c)
    ensures d < 16
  {
    if IsDigit(c) then c as int - 48 else c as int - 87
  }

  function HexDigit(d: nat): (c: char)
    requires d < 16
    ensures IsHexDigit(c) && HexDigitValue(c) == d
  {
    if d < 10 then (d + 48) as char else (d + 87) as char
  }

  /** The number that a string of hexadecimal digits stands for. */
  function HexValue(s: string): nat
    requires IsHex(s)
  {
    if s == [] then 0 else 16 * HexValue(s[..|s| - 1]) + HexDigitValue(s[|s| - 1])
  }

  /** The shortest hexadecimal numeral of `n`, as `{:x}` prints it. */
  function Hex(n: nat): (s: string)
    ensures s != [] && IsHex(s)
  {
    if n < 16 then [HexDigit(n)] else Hex(n / 16) + [HexDigit(n % 16)]
  }

  lemma {:induction false} HexRoundTrip(n: nat)
    ensures HexValue(Hex(n)) == n
  {
    if n >= 16 {
      HexRoundTrip(n / 16);
      assert Hex(n)[..|Hex(n)| - 1] == Hex(n / 16);
    }
  }

  lemma {:induction false} HexConcat(a: string, b: string)
    requires IsHex(a) && IsHex(b)
    ensures IsHex(a + b) && HexValue(a + b) == HexValue(a) * Pow2(4 * |b|) + HexValue(b)
  {
    if b == [] {
      assert a + b == a;
    } else {
      var b' := b[..|b| - 1];
      HexConcat(a, b');
      assert (a + b)[..|a + b| - 1] == a + b';
      assert Pow2(4 * |b|) == 16 * Pow2(4 * |b'|) by { FourMore(4 * |b'|); }
      TimesSixteen(HexValue(a), Pow2(4 * |b'|));
    }
  }

  lemma {:induction false} FourMore(k: nat)
    ensures Pow2(k + 4) == 16 * Pow2(k)
  {
    assert Pow2(k + 2) == 4 * Pow2(k);
  }

  lemma {:induction false} TimesSixteen(x: nat, p: nat)
    ensures x * (16 * p) == 16 * (x * p)
  {
  }

  /******* Zeros in front *******/

  function ZeroDigits(k: nat): (s: string)
    ensures |s| == k && IsHex(s)
    ensures forall i :: 0 <= i < k ==> s[i] == '0'
  {
    seq(k, _ => '0')
  }

  lemma {:induction false} ZeroDigitsValue(k: nat)
    ensures HexValue(ZeroDigits(k)) == 0
  {
    if k > 0 {
      ZeroDigitsValue(k - 1);
      assert ZeroDigits(k)[..k - 1] == ZeroDigits(k - 1);
    }
  }

  /** `trim_start_matches('0')`. */
  function TrimZeros(s: string): string {
    if s != [] && s[0] == '0' then TrimZeros(s[1..]) else s
  }

  lemma {:induction false} TrimZerosSnoc(s: string, c: char)
    ensures TrimZeros(s + [c]) == if TrimZeros(s) == [] && c == '0' then [] else TrimZeros(s) + [c]
  {
    if s == [] {
      assert s + [c] == [c] && [c][1..] == [];
    } else if s[0] == '0' {
      assert (s + [c])[1..] == s[1..] + [c];
      TrimZerosSnoc(s[1..], c);
    }
  }

  /** Without its zeros in front a numeral is the shortest one of its number, and nothing is left of zero. */
  lemma {:induction false} TrimZerosIsShortest(s: string)
    requires IsHex(s)
    ensures TrimZeros(s) == if HexValue(s) == 0 then [] else Hex(HexValue(s))
  {
    hide Hex, TrimZeros, HexDigitValue;
    if s == [] {
      NothingToTrim();
    } else {
      var s', c := s[..|s| - 1], s[|s| - 1];
      TrimZerosIsShortest(s');
      TrimZerosSnoc(s', c);
      assert s == s' + [c];
      HexSnoc(HexValue(s'), c);
    }
  }

  lemma {:induction false} NothingToTrim()
    ensures TrimZeros([]) == []
  {
  }

  lemma {:induction false} HexSnoc(n: nat, c: char)
    requires IsHexDigit(c)
    ensures HexDigitValue(c) == 0 <==> c == '0'
    ensures Hex(16 * n + HexDigitValue(c)) == if n == 0 then [c] else Hex(n) + [c]
  {
    var d := HexDigitValue(c);
    assert HexDigit(d) == c;
    assert (16 * n + d) / 16 == n && (16 * n + d) % 16 == d;
  }

  /******* Limbs *******/

  /** The number with these 64-bit limbs, the least significant limb first. */
  function LimbSum(limbs: seq<u64>): nat {
    if limbs == [] then 0 else LimbSum(limbs[..|limbs| - 1]) + limbs[|limbs| - 1] * Pow2(64 * (|limbs| - 1))
  }

  lemma {:induction false} LimbSumBound(limbs: seq<u64>)
    ensures LimbSum(limbs) < Pow2(64 * |limbs|)
  {
    if limbs != [] {
      var n := |limbs| - 1;
      LimbSumBound(limbs[..n]);
      LimbTimes(limbs[n], Pow2(64 * n));
      SixtyFourMore(64 * n);
    }
  }

  lemma {:induction false} LimbTimes(x: u64, p: nat)
    ensures x * p + p <= 0x1_0000_0000_0000_0000 * p
  {
    assert (x + 1) * p == x * p + p;
  }

  lemma {:induction false} SixtyFourMore(k: nat)
    ensures Pow2(k + 64) == 0x1_0000_0000_0000_0000 * Pow2(k)
  {
    Sixteen(k);
    Sixteen(k + 16);
    Sixteen(k + 32);
    Sixteen(k + 48);
  }

  lemma {:induction false} Sixteen(k: nat)
    ensures Pow2(k + 16) == 0x1_0000 * Pow2(k)
  {
    FourMore(k);
    FourMore(k + 4);
    FourMore(k + 8);
    FourMore(k + 12);
  }

  /** Four limbs are a word. */
  lemma {:induction false} FourLimbsFit(limbs: seq<u64>)
    requires |limbs| <= 4
    ensures LimbSum(limbs) < MODULUS
  {
    hide Pow2, LimbSum;
    LimbSumBound(limbs);
    NoPower();
    SixtyFourMore(0);
    SixtyFourMore(64);
    SixtyFourMore(128);
    SixtyFourMore(192);
  }

  lemma {:induction false} NoPower()
    ensures Pow2(0) == 1
  {
  }

  lemma {:induction false} HexLength(n: nat, k: nat)
    requires k > 0 && n < Pow2(4 * k)
    ensures |Hex(n)| <= k
  {
    if n >= 16 {
      assert k > 1 by {
        assert Pow2(4) == 16;
      }
      FourMore(4 * (k - 1));
      HexLength(n / 16, k - 1);
    }
  }

  lemma {:induction false} TwoTo64()
    ensures Pow2(4 * 16) == 0x1_0000_0000_0000_0000
  {
    hide Pow2;
    NoPower();
    SixtyFourMore(0);
  }

  /** `{:01$x}` with width 16: no 64-bit number is cut off. */
  function Padded(n: u64): (s: string)
    ensures |s| == 16 && IsHex(s)
  {
    TwoTo64();
    HexLength(n, 16);
    ZeroDigits(16 - |Hex(n)|) + Hex(n)
  }

  lemma {:induction false} PaddedValue(n: u64)
    ensures HexValue(Padded(n)) == n
  {
    hide Hex, Pow2, HexValue;
    TwoTo64();
    HexLength(n, 16);
    HexConcat(ZeroDigits(16 - |Hex(n)|), Hex(n));
    ZeroDigitsValue(16 - |Hex(n)|);
    HexRoundTrip(n);
  }

  /** The padded limbs in reverse order. */
  function ConvertListToHexadecimal(numbers: seq<u64>): (s: string)
    ensures |s| == 16 * |numbers| && IsHex(s)
  {
    if numbers == [] then []
    else Padded(numbers[|numbers| - 1]) + ConvertListToHexadecimal(numbers[..|numbers| - 1])
  }

  lemma {:induction false} LimbsPrinted(numbers: seq<u64>)
    ensures HexValue(ConvertListToHexadecimal(numbers)) == LimbSum(numbers)
  {
    hide Padded;
    if numbers != [] {
      var front, last := numbers[..|numbers| - 1], numbers[|numbers| - 1];
      LimbsPrinted(front);
      PaddedValue(last);
      HexConcat(Padded(last), ConvertListToHexadecimal(front));
    }
  }
}
