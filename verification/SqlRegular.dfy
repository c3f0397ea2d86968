/**
 Regular string literals over several lines: where the formatter sees their end, and which
 query it takes out of them.
 */
module SqlRegular {
  import opened Text
  import opened SqlText
  import opened SqlFormat
  import opened SqlFormatTwice

  /** A line that ends in a quote which is not escaped, with or without a comma. */
  predicate EndsQuoted(line: string) {
    && (EndsWith(line, "\",") || EndsWith(line, "\""))
    && !EndsWith(line, "\\\"") && !EndsWith(line, "\\\",")
  }

  /** The lines of a literal: an indented quote before the first line of the text, and one after the last. */
  function Literal(text: seq<string>, indent: nat, comma: bool): (r: seq<string>)
    requires text != []
    ensures |r| == |text|
  {
    var n, open, close := |text| - 1, Spaces(indent) + "\"", "\"" + Comma(comma);
    if n == 0 then [open + (text[0] + close)] else [open + text[0]] + (text[1..n] + [text[n] + close])
  }

  /** Only the last line looks like an end, and it does; an opening quote alone does not count as one. */
  predicate EndsOnce(text: seq<string>, indent: nat)
    requires text != []
  {
    && (|text| > 1 && text[0] != "" ==> !EndsQuoted(Spaces(indent) + "\"" + text[0]))
    && (forall i :: 0 < i < |text| - 1 ==> !EndsQuoted(text[i]))
    && !EndsWith(text[|text| - 1], "\\")
  }

  lemma {:induction false} LastEndsQuoted(line: string, comma: bool)
    ensures EndsQuoted(line + ("\"" + Comma(comma))) <==> !EndsWith(line, "\\")
  {
    var s := line + ("\"" + Comma(comma));
    if comma {
      assert s[|s| - 2..] == "\"," && s[|s| - 1] == ',';
      assert |s| >= 3 ==> s[|s| - 3] == line[|line| - 1] && line[|line| - 1..] == [line[|line| - 1]];
      assert |s| >= 3 && s[|s| - 3] == '\\' ==> s[|s| - 3..] == "\\\",";
    } else {
      assert s == line + "\"" && s[|s| - 1..] == "\"";
      assert |s| >= 2 ==> s[|s| - 2] == line[|line| - 1] && line[|line| - 1..] == [line[|line| - 1]];
      assert |s| >= 2 && s[|s| - 2] == '\\' ==> s[|s| - 2..] == "\\\"";
    }
  }

  lemma {:induction false} NotNothing(lines: seq<string>)
    requires lines != []
    ensures Unlines(lines) != ""
  {
  }

  /** What is read from inside a query is one query with at least one line more, if it ends. */
  lemma {:induction false} ReadingGoesOn(lines: seq<string>, isRaw: bool, sofar: seq<string>)
    ensures var segs := Segments(lines, Reading(isRaw, sofar));
      segs == [] || (segs[0].Query? && |segs[0].lines| > |sofar|)
  {
    hide Closes, Unlines;
    if lines != [] {
      ReadingGoesOn(lines[1..], isRaw, sofar + [lines[0]]);
    }
  }

  /** A line that ends a query which has begun before. */
  predicate Ends(isRaw: bool, line: string) {
    if isRaw then EndsWith(line, "\"#,") || EndsWith(line, "\"#") else EndsQuoted(line)
  }

  /** From inside a query, these lines are its rest exactly when the last of them is the first to end it. */
  lemma {:induction false} ReadQuery(lines: seq<string>, rest: seq<string>, isRaw: bool, sofar: seq<string>)
    requires sofar != [] && lines != []
    ensures Segments(lines + rest, Reading(isRaw, sofar)) == [Query(sofar + lines, isRaw)] + Segments(rest, Idle)
       <==> Ends(isRaw, lines[|lines| - 1]) && forall i :: 0 <= i < |lines| - 1 ==> !Ends(isRaw, lines[i])
    ensures (forall i :: 0 <= i < |lines| ==> !IsTrigger(lines[i]))
            && Ends(isRaw, lines[|lines| - 1]) && (forall i :: 0 <= i < |lines| - 1 ==> !Ends(isRaw, lines[i]))
            && Undisturbed(rest, Idle)
            ==> Undisturbed(lines + rest, Reading(isRaw, sofar))
  {
    hide IsTrigger, Ends, Unlines, Segments, Undisturbed, Closes;
    var all, line := lines + rest, lines[0];
    var goal := [Query(sofar + lines, isRaw)] + Segments(rest, Idle);
    NotNothing(sofar);
    ClosesIsEnd(isRaw, Unlines(sofar), line);
    assert all[0] == line && all[1..] == lines[1..] + rest;
    SegmentsStep(all, Reading(isRaw, sofar));
    if Ends(isRaw, line) {
      if |lines| > 1 {
        assert Segments(all, Reading(isRaw, sofar))[0] == Query(sofar + [line], isRaw);
        assert goal[0].lines != sofar + [line];
      } else {
        assert sofar + lines == sofar + [line] && lines[1..] + rest == rest;
      }
    } else if |lines| == 1 {
      ReadingGoesOn(all[1..], isRaw, sofar + [line]);
      assert Segments(all, Reading(isRaw, sofar)) == Segments(all[1..], Reading(isRaw, sofar + [line]));
      assert goal[0].lines == sofar + lines;
    } else {
      ReadQuery(lines[1..], rest, isRaw, sofar + [line]);
      assert sofar + [line] + lines[1..] == sofar + lines;
      assert forall i :: 0 < i < |lines| ==> lines[i] == lines[1..][i - 1];
      assert Segments(all, Reading(isRaw, sofar)) == Segments(all[1..], Reading(isRaw, sofar + [line]));
    }
  }

  lemma {:induction false} ClosesIsEnd(isRaw: bool, built: string, line: string)
    requires built != ""
    ensures Closes(isRaw, built, line) <==> Ends(isRaw, line)
  {
  }

  /** The opening line ends the query exactly when it ends in a quote other than the opening one. */
  lemma {:induction false} OpeningCloses(first: string, indent: nat)
    ensures var line := Spaces(indent) + "\"" + first;
      Closes(false, "", line) <==> first != "" && EndsQuoted(line)
  {
    hide TrimStart, TrimEnd, Spaces, IsSpace;
    var line := Spaces(indent) + "\"" + first;
    NotSpace();
    assert line == Spaces(indent) + ("\"" + first);
    TrimStartSpaces(indent, "\"" + first);
    if first == "" {
      assert "\"" + "" == "\"";
      TrimEndNewline("\"");
    } else if EndsQuoted(line) {
      assert line[|line| - 1] == first[|first| - 1] && line[|line| - 1] in {'"', ','};
      TrimEndNewline("\"" + first);
    }
  }

  lemma {:induction false} LiteralEnds(text: seq<string>, indent: nat, comma: bool)
    requires |text| > 1
    ensures var lines, n := Literal(text, indent, comma), |text| - 1;
      && lines[0] == Spaces(indent) + "\"" + text[0] && lines[n] == text[n] + ("\"" + Comma(comma))
      && forall i :: 0 < i < n ==> lines[i] == text[i]
  {
    hide Spaces, Comma;
  }

  /**
   The formatter collects a literal, past escaped quotes and past an opening quote alone, as one query if and
   only if the last line is the first that looks like an end.
   */
  lemma {:induction false} LiteralIsOneQuery(text: seq<string>, indent: nat, comma: bool, rest: seq<string>)
    requires text != [] && forall i :: 0 <= i < |text| ==> !IsTrigger(Literal(text, indent, comma)[i])
    requires !Contains(Literal(text, indent, comma)[0], "r#\"")
    ensures var lines := Literal(text, indent, comma);
      && (Segments(lines + rest, Await(0)) == [Query(lines, false)] + Segments(rest, Idle) <==> EndsOnce(text, indent))
      && (EndsOnce(text, indent) && Undisturbed(rest, Idle) ==> Undisturbed(lines + rest, Await(0)))
  {
    hide IsOneLine, Opens, EndsQuoted, Unlines, Segments, Undisturbed, Contains, Closes, EndsWith, Literal, Spaces;
    var lines, n := Literal(text, indent, comma), |text| - 1;
    var all := lines + rest;
    var first := lines[0];
    assert all[0] == first && all[1..] == lines[1..] + rest;
    SegmentsStep(all, Await(0));
    NothingBuilt();
    LastEndsQuoted(text[n], comma);
    assert [] + [first] == [first];
    if n == 0 {
      OneLineLiteral(text, indent, comma);
      assert lines == [first] && lines[1..] + rest == rest;
      if !EndsOnce(text, indent) {
        ReadingGoesOn(rest, false, [first]);
      }
    } else {
      LiteralEnds(text, indent, comma);
      OpeningCloses(text[0], indent);
      if text[0] != "" && EndsQuoted(first) {
        assert Segments(all, Await(0))[0] == Query([first], false);
        assert ([Query(lines, false)] + Segments(rest, Idle))[0].lines == lines != [first];
      } else {
        ReadQuery(lines[1..], rest, false, [first]);
        assert [first] + lines[1..] == lines;
        assert forall i :: 0 < i < |lines| ==> lines[i] == lines[1..][i - 1];
      }
    }
  }

  /** A literal on one line. */
  lemma {:induction false} OneLineLiteral(text: seq<string>, indent: nat, comma: bool)
    requires |text| == 1
    ensures var line := Literal(text, indent, comma)[0];
      Closes(false, "", line) <==> EndsOnce(text, indent)
  {
    hide EndsQuoted, Spaces, Closes, EndsWith, Comma;
    var inner := text[0] + ("\"" + Comma(comma));
    var line := Literal(text, indent, comma)[0];
    assert line == Spaces(indent) + "\"" + inner;
    OpeningCloses(inner, indent);
    Assoc(Spaces(indent) + "\"", text[0], "\"" + Comma(comma));
    LastEndsQuoted(Spaces(indent) + "\"" + text[0], comma);
    LastEndsQuoted(text[0], comma);
    EndsBehindQuote(Spaces(indent), text[0]);
  }

  lemma {:induction false} EndsBehindQuote(front: string, t: string)
    ensures EndsWith(front + "\"" + t, "\\") <==> EndsWith(t, "\\")
  {
    var s := front + "\"" + t;
    if t == "" {
      assert s[|s| - 1] == '"' && s[|s| - 1..] == "\"";
    } else {
      assert s[|s| - 1..] == [t[|t| - 1]] && t[|t| - 1..] == [t[|t| - 1]];
    }
  }

  lemma {:induction false} NothingBuilt()
    ensures Unlines([]) == ""
  {
  }

  lemma {:induction false} JoinFirst(a: string, x: string, rest: seq<string>)
    requires rest != []
    ensures Join([a + x] + rest) == a + Join([x] + rest)
  {
    hide Join;
    JoinConcat([a + x], rest);
    JoinConcat([x], rest);
    JoinOne(a + x);
    JoinOne(x);
    assert a + x + "\n" + Join(rest) == a + (x + "\n" + Join(rest));
  }

  lemma {:induction false} JoinLast(front: seq<string>, x: string, b: string)
    requires front != []
    ensures Join(front + [x + b]) == Join(front + [x]) + b
  {
    hide Join;
    JoinConcat(front, [x + b]);
    JoinConcat(front, [x]);
    JoinOne(x + b);
    JoinOne(x);
    assert Join(front) + "\n" + (x + b) == Join(front) + "\n" + x + b;
  }

  lemma {:induction false} Quoted(indent: string, text: string, comma: string)
    ensures indent + "\"" + (text + ("\"" + comma)) == indent + ("\"" + text + "\"" + comma)
  {
  }

  lemma {:induction false} JoinFramed(a: string, x: string, middle: seq<string>, y: string, b: string)
    ensures Join([a + x] + (middle + [y + b])) == a + (Join([x] + middle + [y]) + b)
  {
    hide Join;
    JoinFirst(a, x, middle + [y + b]);
    assert [x] + (middle + [y + b]) == ([x] + middle) + [y + b];
    JoinLast([x] + middle, y, b);
  }

  lemma {:induction false} Split(text: seq<string>)
    requires |text| >= 2
    ensures [text[0]] + text[1..|text| - 1] + [text[|text| - 1]] == text
  {
  }

  lemma {:induction false} LiteralText(text: seq<string>, indent: nat, comma: bool)
    requires text != []
    ensures Unlines(Literal(text, indent, comma))
         == Spaces(indent) + ("\"" + Join(text) + "\"" + Comma(comma)) + "\n"
  {
    LiteralJoined(text, indent, comma);
    hide *;
    UnlinesIsJoin(Literal(text, indent, comma));
    Quoted(Spaces(indent), Join(text), Comma(comma));
  }

  lemma {:induction false} LiteralJoined(text: seq<string>, indent: nat, comma: bool)
    requires text != []
    ensures Join(Literal(text, indent, comma)) == Spaces(indent) + "\"" + (Join(text) + ("\"" + Comma(comma)))
  {
    hide Join, Spaces, Comma;
    var n := |text| - 1;
    if n == 0 {
      assert text == [text[0]];
      JoinOne(text[0]);
      JoinOne(Spaces(indent) + "\"" + (text[0] + ("\"" + Comma(comma))));
    } else {
      JoinFramed(Spaces(indent) + "\"", text[0], text[1..n], text[n], "\"" + Comma(comma));
      Split(text);
    }
  }

  /** The query taken out of a literal is its text without the backslashes. */
  lemma {:induction false} LiteralExtracted(text: seq<string>, indent: nat, comma: bool)
    requires text != []
    ensures ExtractQueryFromRustString(Unlines(Literal(text, indent, comma)), false) == Unescape(Join(text))
  {
    hide Unlines, Literal, Join, Unescape, TrimStart, TrimEnd, IsSpace;
    LiteralText(text, indent, comma);
    var body := "\"" + Join(text) + "\"";
    var inner := body + Comma(comma);
    var all := Spaces(indent) + inner + "\n";
    assert inner == "\"" + Join(text) + "\"" + Comma(comma);
    NotSpace();
    assert all == Spaces(indent) + (inner + "\n");
    TrimStartSpaces(indent, inner + "\n");
    TrimEndNewline(inner);
    if comma {
      assert EndsWith(inner, ",") && inner[..|inner| - 1] == body;
    } else {
      assert inner == body;
      assert body[|body| - 1] == '"';
    }
    assert body[0] == '"';
    assert body[1..|body| - 1] == Join(text);
  }
}
