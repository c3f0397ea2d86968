/**
 The string functions of the SQL formatter: JavaScript slicing and searching, taking a query out of
 a Rust string literal and putting one in, and indentation.
 */
module SqlText {
  import opened Text

  /******* JavaScript strings *******/

  /** A position counted from the end when it is negative, and clamped to the string. */
  function Position(s: string, i: int): (k: nat)
    ensures k <= |s|
    ensures 0 <= i <= |s| ==> k == i
  {
    if i < 0 then (if |s| + i < 0 then 0 else |s| + i) else if i > |s| then |s| else i
  }

  /** `s.slice(i, j)`. */
  function Slice(s: string, i: int, j: int): string {
    var a, b := Position(s, i), Position(s, j);
    if a <= b then s[a..b] else ""
  }

  /** `s.slice(i)`. */
  function SliceFrom(s: string, i: int): string {
    s[Position(s, i)..]
  }

  /** `s.indexOf(t)`. */
  function IndexOf(s: string, t: string): (k: int)
    ensures -1 <= k <= |s|
    ensures k >= 0 ==> t <= s[k..]
  {
    if t <= s then 0
    else if s == [] then -1
    else var k := IndexOf(s[1..], t); if k < 0 then -1 else k + 1
  }

  /** `s.search(/\S/)`. */
  function Search(s: string): (k: int)
    ensures -1 <= k < |s|
    ensures k >= 0 ==> !IsSpace(s[k])
    ensures forall i :: 0 <= i < |s| && (k < 0 || i < k) ==> IsSpace(s[i])
  {
    if s == [] then -1
    else if !IsSpace(s[0]) then 0
    else var k := Search(s[1..]); if k < 0 then -1 else k + 1
  }

  /** `s.search(/(^|[^\\])"/)` from the second alternative on. */
  function SearchQuote(s: string): (k: int)
    ensures -1 <= k < |s|
    ensures k >= 0 ==> k + 1 < |s| && s[k] != '\\' && s[k + 1] == '"'
  {
    if |s| < 2 then -1
    else if s[0] != '\\' && s[1] == '"' then 0
    else var k := SearchQuote(s[1..]); if k < 0 then -1 else k + 1
  }

  /** `s.search(/(^|[^\\])"/)`. */
  function QuoteEnd(s: string): (k: int)
    ensures k >= -1
  {
    if "\"" <= s then 0 else SearchQuote(s)
  }

  /** `s.replace(/\\(.|\n)/g, '$1')`. */
  function Unescape(s: string): string {
    if s == [] then []
    else if |s| >= 2 && s[0] == '\\' && (s[1] == '\n' || !IsLineEnd(s[1])) then [s[1]] + Unescape(s[2..])
    else [s[0]] + Unescape(s[1..])
  }

  /** A text inside a regular string literal: quotes and backslashes escaped, and other characters where `also` says. */
  function EscapeWith(s: string, also: seq<bool>): string
    requires |also| == |s|
  {
    if s == [] then []
    else
      (if s[0] == '"' || s[0] == '\\' || also[0] then ['\\', s[0]] else [s[0]]) + EscapeWith(s[1..], also[1..])
  }

  /** Removing the backslashes of a literal gives back the text it was written from, escaped line feeds included. */
  lemma {:induction false} UnescapeInverts(s: string, also: seq<bool>)
    requires |also| == |s| && forall i :: 0 <= i < |s| && also[i] ==> s[i] == '\n' || !IsLineEnd(s[i])
    ensures Unescape(EscapeWith(s, also)) == s
  {
    if s != [] {
      UnescapeInverts(s[1..], also[1..]);
      var e, rest := EscapeWith(s, also), EscapeWith(s[1..], also[1..]);
      if s[0] == '"' || s[0] == '\\' || also[0] {
        assert e[0] == '\\' && e[1] == s[0] && e[2..] == rest;
      } else {
        assert e[0] == s[0] && e[1..] == rest;
      }
      assert s == [s[0]] + s[1..];
    }
  }

  function Spaces(n: nat): (s: string)
    ensures |s| == n && NoNewline(s)
    ensures forall i :: 0 <= i < n ==> s[i] == ' '
  {
    seq(n, _ => ' ')
  }

  /******* The helpers of the formatter *******/

  function Indented(lines: seq<string>, n: nat): (r: seq<string>)
    ensures |r| == |lines|
    ensures forall i :: 0 <= i < |r| ==> r[i] == Spaces(n) + lines[i]
  {
    seq(|lines|, i requires 0 <= i < |lines| => Spaces(n) + lines[i])
  }

  function AddIndent(query: string, indent: nat): string {
    Join(Indented(Lines(query), indent))
  }

  function EmbedTextInsideRustString(query: string): string {
    "r#\"\n" + query + "\n\"#"
  }

  function ExtractQueryFromRustString(query: string, isRaw: bool): string {
    var trimmed := Trim(query);
    var literal := if EndsWith(trimmed, ",") then trimmed[..|trimmed| - 1] else trimmed;
    var text := if "r#" <= literal then Slice(literal, 3, |literal| - 2) else Slice(literal, 1, |literal| - 1);
    if isRaw then text else Unescape(text)
  }

  /** The least `search(/\S/)` of the lines: -1 as soon as one of them is blank. */
  function MinIndent(lines: seq<string>): (m: int)
    requires lines != []
    ensures forall i :: 0 <= i < |lines| ==> m <= Search(lines[i])
    ensures exists i :: 0 <= i < |lines| && m == Search(lines[i])
  {
    var first := Search(lines[0]);
    if |lines| == 1 then first
    else
      var rest := MinIndent(lines[1..]);
      assert forall i :: 0 < i < |lines| ==> lines[i] == lines[1..][i - 1];
      if first < rest then first else rest
  }

  function SlicedFrom(lines: seq<string>, k: int): (r: seq<string>)
    ensures |r| == |lines|
    ensures forall i :: 0 <= i < |r| ==> r[i] == SliceFrom(lines[i], k)
  {
    seq(|lines|, i requires 0 <= i < |lines| => SliceFrom(lines[i], k))
  }

  /** Removes the common indentation of the lines. */
  function Dedent(query: string): string {
    Join(SlicedFrom(Lines(query), MinIndent(Lines(query))))
  }

  /** `formatQuery`, with the SQL formatter and the lower-casing after it as one function. */
  function FormatQuery(format: string -> string, query: string): string {
    Dedent(format(query))
  }

  /** Fails as `' '.repeat(-1)` does when there is nothing but white space. */
  function FormatRustStringQuery(format: string -> string, query: string, isRaw: bool): Result<string> {
    var baseIndent := Search(query);
    if baseIndent < 0 then Failure("RangeError: Invalid count value")
    else Success(AddIndent(EmbedTextInsideRustString(FormatQuery(format, ExtractQueryFromRustString(query, isRaw))),
                           baseIndent))
  }

  /******* Lines *******/

  lemma {:induction false} LinesFirst(first: string, rest: string)
    requires NoNewline(first)
    ensures Lines(first + "\n" + rest) == [first] + Lines(rest) && Lines(first) == [first]
  {
    hide NoNewline, FirstLine;
    var s := first + "\n" + rest;
    FirstLineOf(first, rest);
    assert s[|first| + 1..] == rest;
  }

  lemma {:induction false} LinesConcat(a: string, b: string)
    ensures Lines(a + "\n" + b) == Lines(a) + Lines(b)
    decreases |a|
  {
    hide Lines;
    var first := FirstLine(a);
    if |first| == |a| {
      assert first == a;
      LinesFirst(a, b);
    } else {
      var rest := a[|first| + 1..];
      assert a == first + "\n" + rest;
      assert a + "\n" + b == first + "\n" + (rest + "\n" + b);
      LinesFirst(first, rest + "\n" + b);
      LinesFirst(first, rest);
      LinesConcat(rest, b);
      Assoc([first], Lines(rest), Lines(b));
    }
  }

  lemma {:induction false} JoinConcat(a: seq<string>, b: seq<string>)
    requires a != [] && b != []
    ensures Join(a + b) == Join(a) + "\n" + Join(b)
  {
    assert (a + b)[0] == a[0] && (a + b)[1..] == a[1..] + b;
    if |a| == 1 {
      assert a[1..] + b == b;
    } else {
      JoinConcat(a[1..], b);
    }
  }

  lemma {:induction false} JoinOne(line: string)
    ensures Join([line]) == line
  {
  }

  lemma {:induction false} OneLineText(line: string)
    requires NoNewline(line)
    ensures Lines(line) == [line]
  {
    FirstLineOf(line, "");
  }

  /** No indentation changes nothing. */
  lemma {:induction false} AddNoIndent(query: string)
    ensures AddIndent(query, 0) == query
  {
    assert forall s: string :: Spaces(0) + s == s;
    assert Indented(Lines(query), 0) == Lines(query);
    JoinLines(query);
  }

  function Comma(comma: bool): string {
    if comma then "," else ""
  }

  /** The lines of an embedded query: the opening, the indented query, the closing. */
  function Block(query: string, indent: nat, comma: bool): (r: seq<string>)
    ensures |r| == |Lines(query)| + 2
  {
    [Spaces(indent) + "r#\""] + Indented(Lines(query), indent)
    + [Spaces(indent) + "\"#" + Comma(comma)]
  }

  lemma {:induction false} EmbeddedLines(query: string)
    ensures Lines(EmbedTextInsideRustString(query)) == ["r#\""] + Lines(query) + ["\"#"]
  {
    hide Lines;
    var a := "r#\"";
    assert EmbedTextInsideRustString(query) == (a + "\n" + query) + "\n" + "\"#";
    LinesConcat(a + "\n" + query, "\"#");
    LinesConcat(a, query);
    OneLineText(a);
    OneLineText("\"#");
  }

  lemma {:induction false} EmbeddedBlock(query: string, n: nat)
    ensures AddIndent(EmbedTextInsideRustString(query), n) == Join(Block(query, n, false))
  {
    EmbeddedLines(query);
    assert Spaces(n) + "\"#" + "" == Spaces(n) + "\"#";
    assert Indented(["r#\""] + Lines(query) + ["\"#"], n) == Block(query, n, false);
  }

  /******* Dedenting *******/

  ghost predicate NoBlank(lines: seq<string>) {
    forall i :: 0 <= i < |lines| ==> Search(lines[i]) >= 0
  }

  ghost predicate NoBlankLine(query: string) {
    NoBlank(Lines(query))
  }

  /** A line behind its white space. */
  function Behind(line: string): string {
    if Search(line) < 0 then "" else line[Search(line)..]
  }

  /** Slicing removes no more than white space. */
  ghost predicate KeepsText(lines: seq<string>, sliced: seq<string>) {
    |lines| == |sliced| && forall i :: 0 <= i < |lines| ==> Behind(sliced[i]) == Behind(lines[i])
  }

  lemma {:induction false} DedentedLines(query: string)
    ensures Lines(Dedent(query)) == SlicedFrom(Lines(query), MinIndent(Lines(query)))
  {
    hide Lines;
    LinesOfJoin(SlicedFrom(Lines(query), MinIndent(Lines(query))));
  }

  lemma {:induction false} SearchIs(s: string, k: nat)
    requires k < |s| && !IsSpace(s[k]) && forall i :: 0 <= i < k ==> IsSpace(s[i])
    ensures Search(s) == k
  {
    hide IsSpace;
    if k > 0 {
      SearchIs(s[1..], k - 1);
    }
  }

  lemma {:induction false} SlicedLine(line: string, m: int)
    requires m <= Search(line)
    ensures m >= 0 ==> SliceFrom(line, m) == line[m..] && Behind(line[m..]) == Behind(line)
  {
    hide IsSpace, Search;
    if m >= 0 {
      var k := Search(line) - m;
      assert forall i :: 0 <= i < k ==> line[m..][i] == line[m + i];
      SearchIs(line[m..], k);
      assert line[m..][k..] == line[Search(line)..];
    }
  }

  lemma {:induction false} LastCharacter(line: string)
    ensures SliceFrom(line, -1) == if line == [] then [] else [line[|line| - 1]]
    ensures Behind(SliceFrom(line, -1)) == Behind(line) <==> |Behind(line)| <= 1
  {
    hide IsSpace;
    var last := SliceFrom(line, -1);
    if line != [] {
      assert last == [line[|line| - 1]] && last[1..] == [];
      if Search(line) == |line| - 1 {
        assert line[|line| - 1..] == last == last[0..];
      }
    }
  }

  /** Dedenting removes white space only exactly when no line is blank, or no line has a text longer than one. */
  lemma {:induction false} DedentExact(query: string)
    ensures KeepsText(Lines(query), Lines(Dedent(query)))
       <==> NoBlankLine(query)
            || forall i :: 0 <= i < |Lines(query)| ==> |Behind(Lines(query)[i])| <= 1
  {
    hide Lines, Search, Dedent, SliceFrom, Behind, MinIndent, IsSpace;
    var lines := Lines(query);
    var m := MinIndent(lines);
    var sliced := SlicedFrom(lines, m);
    DedentedLines(query);
    if m >= 0 {
      forall i | 0 <= i < |lines|
        ensures Behind(sliced[i]) == Behind(lines[i])
      {
        SlicedLine(lines[i], m);
      }
    } else {
      forall i | 0 <= i < |lines|
        ensures Behind(sliced[i]) == Behind(lines[i]) <==> |Behind(lines[i])| <= 1
      {
        LastCharacter(lines[i]);
      }
    }
  }

  /** A formatted query without blank lines keeps its lines' text, and none of them becomes blank. */
  lemma {:induction false} DedentKeepsLines(query: string)
    requires NoBlankLine(query)
    ensures KeepsText(Lines(query), Lines(Dedent(query))) && NoBlankLine(Dedent(query))
  {
    hide Lines, Search, Dedent, IsSpace;
    DedentExact(query);
    var lines, dedented := Lines(query), Lines(Dedent(query));
    forall i | 0 <= i < |dedented|
      ensures Search(dedented[i]) >= 0
    {
      assert Behind(dedented[i]) == Behind(lines[i]) != [];
    }
  }

  /******* Reading an embedded query again *******/

  /** The lines, each with its line feed. */
  function Unlines(lines: seq<string>): string {
    if lines == [] then [] else lines[0] + "\n" + Unlines(lines[1..])
  }

  lemma {:induction false} UnlinesConcat(a: seq<string>, b: seq<string>)
    ensures Unlines(a + b) == Unlines(a) + Unlines(b)
  {
    if a == [] {
      assert a + b == b;
    } else {
      UnlinesConcat(a[1..], b);
      assert (a + b)[0] == a[0] && (a + b)[1..] == a[1..] + b;
      Assoc(a[0] + "\n", Unlines(a[1..]), Unlines(b));
    }
  }

  lemma {:induction false} UnlinesIsJoin(lines: seq<string>)
    requires lines != []
    ensures Unlines(lines) == Join(lines) + "\n"
  {
    if |lines| > 1 {
      UnlinesIsJoin(lines[1..]);
    } else {
      assert lines[1..] == [];
    }
  }

  lemma {:induction false} TrimStartSpaces(n: nat, s: string)
    requires s != [] && !IsSpace(s[0])
    ensures TrimStart(Spaces(n) + s) == s && Search(Spaces(n) + s) == n
  {
    if n == 0 {
      assert Spaces(0) + s == s;
    } else {
      assert (Spaces(n) + s)[1..] == Spaces(n - 1) + s;
      TrimStartSpaces(n - 1, s);
    }
  }

  lemma {:induction false} TrimEndNewline(s: string)
    requires s != [] && !IsSpace(s[|s| - 1])
    ensures TrimEnd(s) == s && TrimEnd(s + "\n") == s
  {
    assert (s + "\n")[..|s|] == s;
  }

  lemma {:induction false} BlockText(query: string, n: nat, comma: bool)
    ensures Unlines(Block(query, n, comma))
         == Spaces(n) + ("r#\"" + ("\n" + AddIndent(query, n) + "\n" + Spaces(n)) + "\"#" + Comma(comma)) + "\n"
  {
    hide Unlines, Join, Lines, Spaces, Indented;
    var first, middle, last := Spaces(n) + "r#\"", Indented(Lines(query), n), Spaces(n) + "\"#" + Comma(comma);
    assert Block(query, n, comma) == [first] + middle + [last];
    UnlinesIsJoin(Block(query, n, comma));
    JoinConcat([first], middle);
    JoinConcat([first] + middle, [last]);
    JoinOne(first);
    JoinOne(last);
  }

  lemma {:induction false} TrimText(n: nat, inner: string)
    requires inner != [] && !IsSpace(inner[0]) && !IsSpace(inner[|inner| - 1])
    ensures var text := Spaces(n) + inner + "\n";
      Search(text) == n && Trim(text) == inner && TrimEnd(text) == Spaces(n) + inner
  {
    hide TrimStart, TrimEnd, Search, IsSpace, Spaces;
    Assoc(Spaces(n), inner, "\n");
    TrimStartSpaces(n, inner + "\n");
    TrimEndNewline(inner);
    TrimEndNewline(Spaces(n) + inner);
  }

  lemma {:induction false} CommaEnds(body: string, comma: bool)
    requires body != [] && body[|body| - 1] == '#'
    ensures var inner := body + Comma(comma);
      && (EndsWith(inner, ",") <==> comma)
      && (if comma then inner[..|inner| - 1] else inner) == body
  {
    if !comma {
      assert body + "" == body;
    }
  }

  lemma {:induction false} LongerEnds(front: string, inner: string)
    requires inner != []
    ensures EndsWith(front + inner, ",") <==> EndsWith(inner, ",")
  {
    var s := front + inner;
    assert s[|s| - 1..] == [inner[|inner| - 1]] && inner[|inner| - 1..] == [inner[|inner| - 1]];
  }

  lemma {:induction false} TrimLiteral(n: nat, body: string, comma: bool)
    requires |body| >= 5 && "r#" <= body && body[|body| - 1] == '#'
    ensures var text := Spaces(n) + (body + Comma(comma)) + "\n";
      && Search(text) == n
      && ExtractQueryFromRustString(text, true) == body[3..|body| - 2]
      && (EndsWith(TrimEnd(text), ",") <==> comma)
  {
    hide Trim, TrimEnd, Search, EndsWith, Spaces, IsSpace;
    var inner := body + Comma(comma);
    LiteralEnds(body, comma);
    TrimText(n, inner);
    CommaEnds(body, comma);
    LongerEnds(Spaces(n), inner);
  }

  lemma {:induction false} LiteralEnds(body: string, comma: bool)
    requires "r#" <= body && body[|body| - 1] == '#'
    ensures var inner := body + Comma(comma);
      inner != [] && !IsSpace(inner[0]) && !IsSpace(inner[|inner| - 1])
  {
    var inner := body + Comma(comma);
    assert inner[0] == "r#"[0] == 'r';
    assert inner[|inner| - 1] == if comma then ',' else '#';
  }

  /** An embedded query reads back as the query, indented and between line feeds. */
  lemma {:induction false} BlockReads(query: string, n: nat, comma: bool)
    ensures var text := Unlines(Block(query, n, comma));
      && Search(text) == n
      && ExtractQueryFromRustString(text, true) == "\n" + AddIndent(query, n) + "\n" + Spaces(n)
      && (EndsWith(TrimEnd(text), ",") <==> comma)
  {
    hide Unlines, Block, AddIndent, Spaces, TrimEnd, Search, ExtractQueryFromRustString;
    var middle := "\n" + AddIndent(query, n) + "\n" + Spaces(n);
    var body := "r#\"" + middle + "\"#";
    BlockText(query, n, comma);
    TrimLiteral(n, body, comma);
    assert body[3..|body| - 2] == middle;
  }
}
