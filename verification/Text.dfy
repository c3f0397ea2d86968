/**
 String operations that several of the modelled programs share: decimal numerals,
 substring search, and cutting a text into lines and joining it again.
 */
module Text {

  datatype Option<+T> = None | Some(value: T)

  datatype Result<+T> = Success(value: T) | Failure(error: string)

  lemma {:induction false} Assoc<T>(a: seq<T>, b: seq<T>, c: seq<T>)
    ensures a + b + c == a + (b + c)
  {
  }

  /******* Decimal numerals *******/

  predicate IsDigit(c: char) {
    '0' <= c <= '9'
  }

  function DigitChar(d: nat): (c: char)
    requires d < 10
    ensures IsDigit(c) && DigitValue(c) == d
  {
    (d + 48) as char
  }

  function DigitValue(c: char): (d: nat)
    requires IsDigit(c)
    ensures d < 10
  {
    c as int - 48
  }

  predicate IsNumeral(s: string) {
    forall i :: 0 <= i < |s| ==> IsDigit(s[i])
  }

  /** The decimal numeral of `n`, as `toString` prints it. */
  function Decimal(n: nat): (s: string)
    ensures s != [] && IsNumeral(s)
  {
    if n < 10 then [DigitChar(n)] else Decimal(n / 10) + [DigitChar(n % 10)]
  }

  /** The number a string of decimal digits stands for. */
  function NumeralValue(s: string): nat
    requires IsNumeral(s)
  {
    if s == [] then 0 else 10 * NumeralValue(s[..|s| - 1]) + DigitValue(s[|s| - 1])
  }

  lemma {:induction false} DecimalRoundTrip(n: nat)
    ensures NumeralValue(Decimal(n)) == n
  {
    if n >= 10 {
      DecimalRoundTrip(n / 10);
      assert Decimal(n)[..|Decimal(n)| - 1] == Decimal(n / 10);
    }
  }

  lemma {:induction false} DecimalInjective(a: nat, b: nat)
    requires Decimal(a) == Decimal(b)
    ensures a == b
  {
    DecimalRoundTrip(a);
    DecimalRoundTrip(b);
  }

  /******* Upper case *******/

  /** `toUpperCase` on the characters that names are made of. */
  function UpperChar(c: char): char {
    if 'a' <= c <= 'z' then (c as int - 32) as char else c
  }

  function Upper(s: string): (r: string)
    ensures |r| == |s|
    ensures forall i :: 0 <= i < |s| ==> r[i] == UpperChar(s[i])
  {
    seq(|s|, i requires 0 <= i < |s| => UpperChar(s[i]))
  }

  lemma {:induction false} UpperNumeral(s: string)
    requires IsNumeral(s)
    ensures Upper(s) == s
  {
  }

  /******* Substrings *******/

  predicate EndsWith(s: string, t: string) {
    |t| <= |s| && s[|s| - |t|..] == t
  }

  predicate OccursAt(s: string, t: string, i: nat) {
    i <= |s| && t <= s[i..]
  }

  predicate Contains(s: string, t: string) {
    t <= s || (s != [] && Contains(s[1..], t))
  }

  lemma {:induction false} ContainsAt(s: string, t: string, i: nat)
    requires OccursAt(s, t, i)
    ensures Contains(s, t)
  {
    if i > 0 {
      assert s[1..][i - 1..] == s[i..];
      ContainsAt(s[1..], t, i - 1);
    } else {
      assert s[0..] == s;
    }
  }

  lemma {:induction false} ContainsWitness(s: string, t: string) returns (i: nat)
    requires Contains(s, t)
    ensures OccursAt(s, t, i)
    ensures forall j: nat :: j < i ==> !OccursAt(s, t, j)
  {
    if t <= s {
      i := 0;
      assert s[0..] == s;
    } else {
      var k := ContainsWitness(s[1..], t);
      i := k + 1;
      assert s[1..][k..] == s[i..];
      forall j: nat | j < i
        ensures !OccursAt(s, t, j)
      {
        if j > 0 {
          assert !OccursAt(s[1..], t, j - 1);
          assert s[1..][j - 1..] == s[j..];
        } else {
          assert s[0..] == s;
        }
      }
    }
  }

  lemma {:induction false} NotInShorter(s: string, t: string)
    requires |s| < |t|
    ensures !Contains(s, t)
  {
    if s != [] {
      NotInShorter(s[1..], t);
    }
  }

  /******* White space *******/

  /** What ends a match of `.*` in a JavaScript regular expression. */
  predicate IsLineEnd(c: char) {
    c == '\n' || c == '\r' || c == '\U{2028}' || c == '\U{2029}'
  }

  /** What `trim` strips and `\s` matches in JavaScript. */
  predicate IsSpace(c: char) {
    || IsLineEnd(c)
    || c == ' ' || c == '\t' || c == '\U{000B}' || c == '\U{000C}' || c == '\U{00A0}' || c == '\U{FEFF}'
    || c == '\U{1680}' || '\U{2000}' <= c <= '\U{200A}' || c == '\U{202F}' || c == '\U{205F}' || c == '\U{3000}'
  }

  function TrimStart(s: string): string {
    if s != [] && IsSpace(s[0]) then TrimStart(s[1..]) else s
  }

  function TrimEnd(s: string): string {
    if s != [] && IsSpace(s[|s| - 1]) then TrimEnd(s[..|s| - 1]) else s
  }

  function Trim(s: string): string {
    TrimEnd(TrimStart(s))
  }

  /******* Lines *******/

  predicate NoNewline(s: string) {
    '\n' !in s
  }

  /** The lines joined by line feeds. */
  function Join(lines: seq<string>): string {
    if lines == [] then []
    else if |lines| == 1 then lines[0]
    else lines[0] + "\n" + Join(lines[1..])
  }

  /** The part of a text before its first line feed. */
  function FirstLine(s: string): (r: string)
    ensures r <= s && NoNewline(r)
    ensures |r| < |s| ==> s[|r|] == '\n'
  {
    if s == [] || s[0] == '\n' then [] else [s[0]] + FirstLine(s[1..])
  }

  /** `s.split('\n')`: never empty, even for the empty text. */
  function Lines(s: string): (ls: seq<string>)
    ensures ls != []
    ensures forall i :: 0 <= i < |ls| ==> NoNewline(ls[i])
    decreases |s|
  {
    var first := FirstLine(s);
    if |first| == |s| then [s] else [first] + Lines(s[|first| + 1..])
  }

  lemma {:induction false} JoinLines(s: string)
    ensures Join(Lines(s)) == s
    decreases |s|
  {
    var first := FirstLine(s);
    if |first| < |s| {
      JoinLines(s[|first| + 1..]);
      assert s == first + "\n" + s[|first| + 1..];
    }
  }

  lemma {:induction false} FirstLineOf(line: string, rest: string)
    requires NoNewline(line)
    ensures FirstLine(line + "\n" + rest) == line
    ensures FirstLine(line) == line
  {
    if line != [] {
      FirstLineOf(line[1..], rest);
      assert (line + "\n" + rest)[1..] == line[1..] + "\n" + rest;
    }
  }

  lemma {:induction false} LinesOfJoin(lines: seq<string>)
    requires lines != []
    requires forall i :: 0 <= i < |lines| ==> NoNewline(lines[i])
    ensures Lines(Join(lines)) == lines
  {
    FirstLineOf(lines[0], if |lines| == 1 then [] else Join(lines[1..]));
    if |lines| > 1 {
      LinesOfJoin(lines[1..]);
      var s := Join(lines);
      assert s[|lines[0]| + 1..] == Join(lines[1..]);
    }
  }

  /******* Positions *******/

  /** Increasing positions below `n`. */
  predicate Positions(ks: seq<nat>, n: nat) {
    && (forall i :: 0 <= i < |ks| ==> ks[i] < n)
    && (forall i, j :: 0 <= i < j < |ks| ==> ks[i] < ks[j])
  }

  function OneMore(earlier: seq<nat>, n: nat, taken: bool): seq<nat> {
    if taken then earlier + [n] else earlier
  }

  lemma {:induction false} OneMorePosition(earlier: seq<nat>, n: nat, taken: bool)
    requires Positions(earlier, n)
    ensures Positions(OneMore(earlier, n, taken), n + 1)
    ensures n in OneMore(earlier, n, taken) <==> taken
    ensures forall k :: 0 <= k < n ==> (k in OneMore(earlier, n, taken) <==> k in earlier)
  {
  }

  /** The elements at the positions. */
  function Picked<T>(all: seq<T>, ks: seq<nat>): (r: seq<T>)
    requires Positions(ks, |all|)
    ensures |r| == |ks| && forall j :: 0 <= j < |ks| ==> r[j] == all[ks[j]]
  {
    seq(|ks|, j requires 0 <= j < |ks| => all[ks[j]])
  }

  lemma {:induction false} PickedSnoc<T>(all: seq<T>, x: T, earlier: seq<nat>, taken: bool)
    requires Positions(earlier, |all|)
    ensures Positions(OneMore(earlier, |all|, taken), |all + [x]|)
    ensures Picked(all + [x], OneMore(earlier, |all|, taken)) == Picked(all, earlier) + if taken then [x] else []
  {
  }

  lemma {:induction false} NothingPicked<T>()
    ensures Positions([], 0) && Picked<T>([], []) == []
  {
  }
}
