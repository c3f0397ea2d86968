/**
 Where a query begins after a call, and what becomes of a whole call in a file: from the line of the call to
 the end of its raw string.
 */
module SqlCalls {
  import opened Text
  import opened SqlText
  import opened SqlFormat
  import opened SqlFormatCorrect
  import opened SqlFormatTwice
  import opened SqlRegular
  import opened SqlOneLine

  lemma {:induction false} ContainsSplit(line: string, t: string) returns (before: string, after: string)
    requires Contains(line, t)
    ensures line == before + (t + after)
  {
    var i := ContainsWitness(line, t);
    before, after := line[..i], line[i + |t|..];
    assert line[i..] == t + after;
  }

  lemma {:induction false} SplitContains(before: string, t: string, after: string)
    ensures Contains(before + (t + after), t)
  {
    var line := before + (t + after);
    assert line[|before|..] == t + after;
    ContainsAt(line, t, |before|);
  }

  /** A line is a one-line call exactly when a call has a quote or an `r` right behind it. */
  lemma {:induction false} OneLineIff(line: string)
    ensures IsOneLine(line)
       <==> exists before, after :: line == before + ("sqlx::query!(\"" + after) || line == before + ("sqlx::query!(r" + after)
  {
    hide Contains;
    if Contains(line, "sqlx::query!(\"") {
      var before, after := ContainsSplit(line, "sqlx::query!(\"");
    }
    if Contains(line, "sqlx::query!(r") {
      var before, after := ContainsSplit(line, "sqlx::query!(r");
    }
    forall before, after | line == before + ("sqlx::query!(\"" + after) || line == before + ("sqlx::query!(r" + after)
      ensures IsOneLine(line)
    {
      SplitContains(before, "sqlx::query!(\"", after);
      SplitContains(before, "sqlx::query!(r", after);
    }
  }

  /** A line opens a query exactly when it ends in one of the two calls. */
  lemma {:induction false} OpensIff(line: string)
    ensures Opens(line)
       <==> exists before :: line == before + "sqlx::query!(" || line == before + "sqlx::query_as!("
  {
    if EndsWith(line, "sqlx::query!(") {
      assert line == line[..|line| - 13] + "sqlx::query!(";
    }
    if EndsWith(line, "sqlx::query_as!(") {
      assert line == line[..|line| - 16] + "sqlx::query_as!(";
    }
  }

  /** After `sqlx::query!(` at the end of a line the query begins on the next line. */
  lemma {:induction false} CallWaits(h: string, rest: seq<string>)
    requires EndsWith(h, "sqlx::query!(") && !IsOneLine(h)
    ensures Segments([h] + rest, Idle) == [Copied(h)] + Segments(rest, Await(0))
    ensures Undisturbed([h] + rest, Idle) <==> Undisturbed(rest, Await(0))
  {
    hide IsOneLine, Segments, Undisturbed;
    var lines := [h] + rest;
    assert lines[0] == h && lines[1..] == rest;
    NotBothCalls(h);
    SegmentsStep(lines, Idle);
  }

  lemma {:induction false} NotBothCalls(h: string)
    requires EndsWith(h, "sqlx::query!(")
    ensures !EndsWith(h, "sqlx::query_as!(")
  {
    CallsDiffer(h);
  }

  /** After `sqlx::query_as!(` there is one more line, with the type of the rows, before the query. */
  lemma {:induction false} CallAsWaits(h: string, t: string, rest: seq<string>)
    requires EndsWith(h, "sqlx::query_as!(") && !IsOneLine(h) && !IsTrigger(t)
    ensures Segments([h] + ([t] + rest), Idle) == [Copied(h)] + ([Copied(t)] + Segments(rest, Await(0)))
    ensures Undisturbed([h] + ([t] + rest), Idle) <==> Undisturbed(rest, Await(0))
  {
    hide IsOneLine, Segments, Undisturbed, EndsWith;
    var lines := [h] + ([t] + rest);
    assert lines[0] == h && lines[1..] == [t] + rest;
    assert ([t] + rest)[0] == t && ([t] + rest)[1..] == rest;
    SegmentsStep(lines, Idle);
    SegmentsStep([t] + rest, Await(1));
  }

  lemma {:induction false} RawCloses(line: string)
    ensures Closes(true, Unlines([]), line) <==> Ends(true, line)
  {
  }

  /**
   A raw string is collected as one query exactly when its last line is the first one that ends in `"#`, with or
   without a comma; it may begin anywhere on its first line.
   */
  lemma {:induction false} RawIsOneQuery(q: seq<string>, rest: seq<string>)
    requires q != [] && Contains(q[0], "r#\"") && forall i :: 0 <= i < |q| ==> !IsTrigger(q[i])
    ensures Segments(q + rest, Await(0)) == [Query(q, true)] + Segments(rest, Idle)
       <==> Ends(true, q[|q| - 1]) && forall i :: 0 <= i < |q| - 1 ==> !Ends(true, q[i])
    ensures Ends(true, q[|q| - 1]) && (forall i :: 0 <= i < |q| - 1 ==> !Ends(true, q[i])) && Undisturbed(rest, Idle)
            ==> Undisturbed(q + rest, Await(0))
  {
    hide IsOneLine, Opens, Segments, Undisturbed, Contains, Unlines, Ends, Closes;
    var all, first := q + rest, q[0];
    assert all[0] == first && all[1..] == q[1..] + rest;
    SegmentsStep(all, Await(0));
    RawCloses(first);
    assert [] + [first] == [first];
    if Ends(true, first) {
      assert Segments(all, Await(0)) == [Query([first], true)] + Segments(q[1..] + rest, Idle);
      if |q| > 1 {
        assert ([Query(q, true)] + Segments(rest, Idle))[0].lines == q != [first];
        assert Segments(all, Await(0))[0].lines == [first];
      } else {
        assert q == [first] && q[1..] + rest == rest;
      }
    } else {
      assert Segments(all, Await(0)) == Segments(q[1..] + rest, Reading(true, [first]));
      if |q| == 1 {
        ReadingGoesOn(q[1..] + rest, true, [first]);
        assert ([Query(q, true)] + Segments(rest, Idle))[0].lines == q;
      } else {
        ReadQuery(q[1..], rest, true, [first]);
        assert [first] + q[1..] == q;
        assert forall i :: 0 < i < |q| ==> q[i] == q[1..][i - 1];
      }
    }
  }

  /******* A whole call *******/

  /** A raw string as it may stand in a file, indented and with or without a comma. */
  function RawString(n: nat, text: string, comma: bool): string {
    Spaces(n) + ("r#\"" + text + "\"#" + Comma(comma))
  }

  /** A raw string is replaced by its formatted text, at its own indentation and with its own comma. */
  lemma {:induction false} RawStringRendered(format: string -> string, n: nat, text: string, comma: bool)
    ensures var q := Lines(RawString(n, text, comma));
      Render(format, Query(q, true)) == Block(FormatQuery(format, text), n, comma) && Fits(Query(q, true))
  {
    hide Lines, Unlines, Search, EndsWith, TrimEnd, Spaces, ExtractQueryFromRustString, Block, FormatQuery, Comma;
    var s, body := RawString(n, text, comma), "r#\"" + text + "\"#";
    var q := Lines(s);
    JoinLines(s);
    UnlinesIsJoin(q);
    assert s == Spaces(n) + (body + Comma(comma));
    TrimLiteral(n, body, comma);
    assert body[3..|body| - 2] == text;
  }

  lemma {:induction false} CopiedFirst(before: seq<string>, rest: seq<string>)
    requires forall i :: 0 <= i < |before| ==> !IsTrigger(before[i])
    ensures Segments(before + rest, Idle) == Copies(before) + Segments(rest, Idle)
    ensures Undisturbed(before + rest, Idle) <==> Undisturbed(rest, Idle)
  {
    hide IsOneLine, Segments, Undisturbed, EndsWith;
    if before == [] {
      assert before + rest == rest && [] + Segments(rest, Idle) == Segments(rest, Idle);
    } else {
      var all := before + rest;
      assert all[0] == before[0] && all[1..] == before[1..] + rest;
      SegmentsStep(all, Idle);
      CopiedFirst(before[1..], rest);
      Assoc([Copied(before[0])], Copies(before[1..]), Segments(rest, Idle));
    }
  }

  function Copies(lines: seq<string>): seq<Segment> {
    if lines == [] then [] else [Copied(lines[0])] + Copies(lines[1..])
  }

  lemma {:induction false} CopiesRendered(format: string -> string, lines: seq<string>)
    ensures RenderAll(format, Copies(lines)) == lines && AllFit(Copies(lines))
  {
    if lines != [] {
      CopiesRendered(format, lines[1..]);
      FitConcat([Copied(lines[0])], Copies(lines[1..]));
      assert Copies(lines)[1..] == Copies(lines[1..]);
    }
  }

  /** The lines before a query: its call and, for `query_as`, the type of its rows. */
  predicate IsHeader(hs: seq<string>) {
    && hs != [] && !IsOneLine(hs[0])
    && (|| (|hs| == 1 && EndsWith(hs[0], "sqlx::query!("))
        || (|hs| == 2 && EndsWith(hs[0], "sqlx::query_as!(") && !IsTrigger(hs[1])))
  }

  lemma {:induction false} HeaderWaits(hs: seq<string>, rest: seq<string>)
    requires IsHeader(hs)
    ensures Segments(hs + rest, Idle) == Copies(hs) + Segments(rest, Await(0))
    ensures Undisturbed(hs + rest, Idle) <==> Undisturbed(rest, Await(0))
  {
    hide IsOneLine, IsTrigger, Segments, Undisturbed, EndsWith;
    if |hs| == 1 {
      assert hs == [hs[0]] && Copies(hs) == [Copied(hs[0])];
      CallWaits(hs[0], rest);
    } else {
      assert hs == [hs[0]] + [hs[1]] && hs + rest == [hs[0]] + ([hs[1]] + rest);
      CopiesOfTwo(hs[0], hs[1]);
      CallAsWaits(hs[0], hs[1], rest);
      Assoc([Copied(hs[0])], [Copied(hs[1])], Segments(rest, Await(0)));
    }
  }

  lemma {:induction false} CopiesOfTwo(a: string, b: string)
    ensures Copies([a] + [b]) == [Copied(a)] + [Copied(b)]
  {
    assert ([a] + [b])[1..] == [b] && [b][1..] == [];
    assert Copies([]) == [];
    assert Copies([b]) == [Copied(b)] + Copies([]);
  }

  /** The text of a raw string does not end it, and holds no calls. */
  ghost predicate IsProper(q: seq<string>) {
    && (forall i :: 0 <= i < |q| ==> !IsTrigger(q[i]))
    && (forall i :: 0 <= i < |q| - 1 ==> !EndsWith(q[i], "\"#") && !EndsWith(q[i], "\"#,"))
  }

  lemma {:induction false} RawStringIsOneQuery(n: nat, text: string, comma: bool, rest: seq<string>)
    requires IsProper(Lines(RawString(n, text, comma)))
    ensures var q := Lines(RawString(n, text, comma));
      && Segments(q + rest, Await(0)) == [Query(q, true)] + Segments(rest, Idle)
      && (Undisturbed(rest, Idle) ==> Undisturbed(q + rest, Await(0)))
  {
    hide Lines, IsTrigger, EndsWith, Segments, Undisturbed, Contains, RawString;
    var q := Lines(RawString(n, text, comma));
    RawStringFrame(n, text, comma);
    RawIsOneQuery(q, rest);
  }

  /** The first line has the opening of the raw string, and the last one its end. */
  lemma {:induction false} RawStringFrame(n: nat, text: string, comma: bool)
    ensures var q := Lines(RawString(n, text, comma));
      Contains(q[0], "r#\"") && (EndsWith(q[|q| - 1], "\"#") || EndsWith(q[|q| - 1], "\"#,"))
  {
    hide Spaces, Contains, Lines, RawString, EndsWith, NoNewline, Comma;
    var front, tail := Spaces(n) + "r#\"", "\"#" + Comma(comma);
    FrameIsOneLine(n, comma);
    RawStringIs(n, text, comma);
    LinesFramed(front, text, tail);
    var q := Lines(RawString(n, text, comma));
    HasOpening(q[0], n);
    EndsEither(q[|q| - 1], comma);
  }

  lemma {:induction false} RawStringIs(n: nat, text: string, comma: bool)
    ensures RawString(n, text, comma) == (Spaces(n) + "r#\"") + (text + ("\"#" + Comma(comma)))
  {
    hide Spaces, Comma;
    assert "r#\"" + text + "\"#" + Comma(comma) == "r#\"" + (text + ("\"#" + Comma(comma)));
    Assoc(Spaces(n), "r#\"", text + ("\"#" + Comma(comma)));
  }

  lemma {:induction false} FrameIsOneLine(n: nat, comma: bool)
    ensures NoNewline(Spaces(n) + "r#\"") && NoNewline("\"#" + Comma(comma))
  {
    hide Spaces;
    SpacesHaveNoNewline(n);
  }

  lemma {:induction false} HasOpening(line: string, n: nat)
    requires Spaces(n) + "r#\"" <= line
    ensures Contains(line, "r#\"")
  {
    hide Contains, Spaces;
    SpacesHaveNoNewline(n);
    var front := Spaces(n) + "r#\"";
    assert front[n..] == "r#\"" && line[n..][..3] == line[..n + 3][n..] == front[n..];
    ContainsAt(line, "r#\"", n);
  }

  lemma {:induction false} EndsEither(line: string, comma: bool)
    requires EndsWith(line, "\"#" + Comma(comma))
    ensures EndsWith(line, "\"#") || EndsWith(line, "\"#,")
  {
    assert "\"#" + "," == "\"#," && "\"#" + "" == "\"#";
  }

  lemma {:induction false} SpacesHaveNoNewline(n: nat)
    ensures NoNewline(Spaces(n)) && |Spaces(n)| == n
  {
  }

  lemma {:induction false} LinesOfOne(s: string)
    requires NoNewline(s)
    ensures Lines(s) == [s]
  {
    FirstLineOf(s, "");
  }

  lemma {:induction false} SplitFirst(text: string) returns (first: string, rest: string)
    requires !NoNewline(text)
    ensures NoNewline(first) && text == first + "\n" + rest
  {
    first := FirstLine(text);
    rest := text[|first| + 1..];
  }

  /** Framing a text changes only its first and last line. */
  lemma {:induction false} LinesFramed(front: string, text: string, tail: string)
    requires NoNewline(front) && NoNewline(tail)
    ensures var now := Lines(front + (text + tail));
      front <= now[0] && EndsWith(now[|now| - 1], tail)
    decreases |text|
  {
    hide Lines, EndsWith;
    var s := front + (text + tail);
    if NoNewline(text) {
      LinesOfOne(s);
      FramesOne(front, text, tail);
    } else {
      var first, rest := SplitFirst(text);
      assert s == (front + first) + "\n" + (rest + tail);
      LinesConcat(front + first, rest + tail);
      LinesOfOne(front + first);
      LinesFramed("", rest, tail);
      assert "" + (rest + tail) == rest + tail;
    }
  }

  lemma {:induction false} FramesOne(front: string, text: string, tail: string)
    ensures front <= front + (text + tail) && EndsWith(front + (text + tail), tail)
  {
    var s := front + (text + tail);
    assert s == (front + text) + tail;
    assert s[|s| - |tail|..] == tail;
  }

  /**
   A call in a file, with its raw string on the following lines, comes out with the formatted query in the place
   of the old one; what stands before it is copied, and what follows is formatted by itself.
   */
  lemma {:induction false} CallFormatted(
    format: string -> string, before: seq<string>, hs: seq<string>, n: nat, text: string, comma: bool,
    after: seq<string>)
    requires IsHeader(hs) && IsProper(Lines(RawString(n, text, comma)))
    requires forall i :: 0 <= i < |before| ==> !IsTrigger(before[i])
    requires Undisturbed(after, Idle) && AllFit(Segments(after, Idle))
    requires forall line :: line in before || line in hs || line in after ==> NoNewline(line)
    ensures Formatted(format, Join(before + (hs + (Lines(RawString(n, text, comma)) + after))))
         == Success(Join(before + (hs + (Block(FormatQuery(format, text), n, comma)
                                         + RenderAll(format, Segments(after, Idle))))))
  {
    hide Lines, IsTrigger, Segments, Undisturbed, RawString, Formatted, Join, Render, RenderAll, Block, FormatQuery,
         IsProper, IsHeader, AllFit, Copies, Fits;
    var q := Lines(RawString(n, text, comma));
    var tail, rest := Segments(after, Idle), q + after;
    var lines := before + (hs + rest);
    CopiedFirst(before, hs + rest);
    HeaderWaits(hs, rest);
    RawStringIsOneQuery(n, text, comma, after);
    CopiesRendered(format, before);
    CopiesRendered(format, hs);
    RawStringRendered(format, n, text, comma);
    var query := [Query(q, true)];
    RenderOne(format, Query(q, true));
    OneFits(Query(q, true));
    RenderConcat(format, query, tail);
    FitConcat(query, tail);
    RenderConcat(format, Copies(hs), query + tail);
    FitConcat(Copies(hs), query + tail);
    RenderConcat(format, Copies(before), Copies(hs) + (query + tail));
    FitConcat(Copies(before), Copies(hs) + (query + tail));
    assert forall i :: 0 <= i < |lines| ==> NoNewline(lines[i]);
    LinesOfJoin(lines);
    SegmentsRendered(format, Join(lines));
  }

  lemma {:induction false} OneFits(seg: Segment)
    requires Fits(seg)
    ensures AllFit([seg])
  {
  }

  /******* A call on one line *******/

  lemma {:induction false} Unframed(literal: string)
    requires |literal| >= 2 && !IsSpace(literal[0]) && !IsSpace(literal[|literal| - 1]) && literal[|literal| - 1] != ','
    ensures Trim(literal) == literal && !EndsWith(literal, ",")
  {
    assert literal[|literal| - 1..] == [literal[|literal| - 1]];
  }

  lemma {:induction false} QuotedExtracted(body: string)
    ensures ExtractQueryFromRustString("\"" + body + "\"", false) == Unescape(body)
  {
    hide Trim, Unescape, EndsWith;
    var literal := "\"" + body + "\"";
    NotSpace();
    Unframed(literal);
    assert literal[0] == '"' && !("r#" <= literal);
    assert literal[1..|literal| - 1] == body;
  }

  lemma {:induction false} RawExtracted(body: string)
    ensures ExtractQueryFromRustString("r#\"" + body + "\"#", true) == body
  {
    hide Trim, EndsWith;
    var literal := "r#\"" + body + "\"#";
    NotSpace();
    Unframed(literal);
    assert literal[3..|literal| - 2] == body;
  }

  /** A regular string behind a call is formatted without its backslashes, four columns further in than its line. */
  lemma {:induction false} RegularLineFormatted(format: string -> string, before: string, body: string, after: string)
    requires QuotesEscaped(body) && '"' !in before && ClosesVisibly(body, after)
    requires !Contains(RegularLine(before, body, after), "sqlx::query!(r")
    ensures var line := RegularLine(before, body, after);
      Render(format, OneLine(line))
      == [before + "sqlx::query!("]
         + Block(FormatQuery(format, Unescape(body)), Search(line) + 4, false) + [after]
  {
    hide Contains, QuotesEscaped, ClosesVisibly, Block, FormatQuery, Unescape, Search, SplitOneLine,
         ExtractQueryFromRustString;
    RegularSplit(before, body, after);
    QuotedExtracted(body);
  }

  /** A raw string behind a call is formatted as it is. */
  lemma {:induction false} RawLineFormatted(format: string -> string, before: string, body: string, after: string)
    requires !Contains(before + CALL, "r#\"") && !Contains("\"" + body, "\"#")
    ensures var line := RawLine(before, body, after);
      Render(format, OneLine(line))
      == [before + "sqlx::query!("]
         + Block(FormatQuery(format, body), Search(line) + 4, false) + [after]
  {
    hide Contains, Block, FormatQuery, Search, SplitOneLine, ExtractQueryFromRustString;
    RawSplit(before, body, after);
    RawExtracted(body);
  }
}
