/**
 Formatting a formatted file again changes nothing.
 */
module SqlFormatTwice {
  import opened Text
  import opened SqlText
  import opened SqlFormat
  import opened SqlFormatCorrect

  /** Neither a call nor the end of a raw string. */
  predicate Plain(line: string) {
    !Contains(line, CALL) && !Contains(line, CALL_AS) && !Contains(line, "\"#")
  }

  predicate PlainText(query: string) {
    forall i :: 0 <= i < |Lines(query)| ==> Plain(Lines(query)[i])
  }

  /** The query follows the call at once, and the parts around it hold no other call. */
  predicate WellPlaced(line: string) {
    var parts := SplitOneLine(line);
    EndsWith(parts.prefix, CALL) && !IsOneLine(parts.prefix) && !IsTrigger(parts.suffix)
  }

  /** An embedded query as the formatter sees it when it reads it again. */
  function Embedded(query: string, n: nat): string {
    "\n" + AddIndent(query, n) + "\n" + Spaces(n)
  }

  /** Formatting the formatted query once more, from where it is put, gives it again. */
  predicate Settles(format: string -> string, query: string, n: nat) {
    FormatQuery(format, Embedded(FormatQuery(format, query), n)) == FormatQuery(format, query)
  }

  /** The segment can be found again after it was formatted. */
  predicate Placed(format: string -> string, seg: Segment) {
    match seg
    case Copied(_) => true
    case OneLine(line) => Fits(seg) && WellPlaced(line) && PlainText(QueryText(format, seg))
    case Query(_, _) => PlainText(QueryText(format, seg))
  }

  predicate Tidy(format: string -> string, seg: Segment) {
    Placed(format, seg) && (seg.Copied? || Settles(format, RawQuery(seg), Placement(seg)))
  }

  predicate AllTidy(format: string -> string, segs: seq<Segment>) {
    forall i :: 0 <= i < |segs| ==> Tidy(format, segs[i])
  }

  lemma {:induction false} BlockInjective(p: string, q: string, n: nat, comma: bool)
    requires Block(p, n, comma) == Block(q, n, comma)
    ensures p == q
  {
    hide Lines, Spaces;
    var a, b := Lines(p), Lines(q);
    var block := Block(p, n, comma);
    assert block[1..|block| - 1] == Indented(a, n) && block[1..|block| - 1] == Indented(b, n);
    forall i | 0 <= i < |a|
      ensures a[i] == b[i]
    {
      assert Indented(a, n)[i] == Indented(b, n)[i];
      assert (Spaces(n) + a[i])[n..] == a[i] && (Spaces(n) + b[i])[n..] == b[i];
    }
    assert |a| == |Indented(a, n)| == |b| && a == b;
    JoinLines(p);
    JoinLines(q);
  }

  /** An embedded query is written the same way again if and only if it settles. */
  lemma {:induction false} BlockStable(format: string -> string, query: string, n: nat, comma: bool)
    ensures var lines := Block(FormatQuery(format, query), n, comma);
      Render(format, Query(lines, true)) == lines <==> Settles(format, query, n)
  {
    hide Block, Unlines, AddIndent, Spaces, Dedent, ExtractQueryFromRustString, Search, TrimEnd, FormatQuery;
    var text := FormatQuery(format, query);
    var again := FormatQuery(format, Embedded(text, n));
    BlockReads(text, n, comma);
    assert Render(format, Query(Block(text, n, comma), true)) == Block(again, n, comma);
    if Block(again, n, comma) == Block(text, n, comma) {
      BlockInjective(again, text, n, comma);
    }
  }

  lemma {:induction false} EmbeddedLines(query: string, n: nat)
    ensures Lines(Embedded(query, n)) == [""] + Indented(Lines(query), n) + [Spaces(n)]
  {
    hide Lines, Join, Spaces;
    var lines := [""] + Indented(Lines(query), n) + [Spaces(n)];
    JoinConcat([""], Indented(Lines(query), n));
    JoinConcat([""] + Indented(Lines(query), n), [Spaces(n)]);
    JoinOne("");
    JoinOne(Spaces(n));
    assert "" + "\n" == "\n";
    assert Join(lines) == Embedded(query, n);
    LinesOfJoin(lines);
  }

  /**
   A query that the SQL formatter rejects, so that it is kept, never settles: where it was put it begins with
   a blank line, each of its lines is cut to its last character, and there are two more of them.
   */
  lemma {:induction false} RejectedNeverSettles(format: string -> string, query: string, n: nat)
    requires format(Embedded(FormatQuery(format, query), n)) == Embedded(FormatQuery(format, query), n)
    ensures !Settles(format, query, n)
    ensures var was, now := Lines(Embedded(FormatQuery(format, query), n)),
                            Lines(FormatQuery(format, Embedded(FormatQuery(format, query), n)));
      |now| == |was| && forall i :: 0 <= i < |was| ==> now[i] == if was[i] == [] then [] else [was[i][|was[i]| - 1]]
  {
    hide Lines, Embedded, Dedent;
    var text := FormatQuery(format, query);
    var kept := Embedded(text, n);
    EmbeddedLines(text, n);
    assert Lines(kept)[0] == "";
    BlankIsCut(kept);
    assert |Lines(FormatQuery(format, kept))| == |Lines(text)| + 2;
  }

  /** A text that begins with a blank line is cut down by dedenting. */
  lemma {:induction false} BlankIsCut(text: string)
    requires Lines(text)[0] == ""
    ensures var was, now := Lines(text), Lines(Dedent(text));
      |now| == |was| && forall i :: 0 <= i < |was| ==> now[i] == if was[i] == [] then [] else [was[i][|was[i]| - 1]]
  {
    hide Lines, Dedent, MinIndent, SliceFrom, Behind;
    DedentedLines(text);
    var lines := Lines(text);
    assert MinIndent(lines) <= Search(lines[0]) && Search("") < 0;
    forall i | 0 <= i < |lines|
      ensures SliceFrom(lines[i], MinIndent(lines)) == if lines[i] == [] then [] else [lines[i][|lines[i]| - 1]]
    {
      LastCharacter(lines[i]);
    }
  }

  /** A formatter that does its work once, does not look at the layout, and writes no blank lines. */
  ghost predicate LayoutBlind(format: string -> string) {
    && (forall q :: format(format(q)) == format(q))
    && (forall q :: NoBlankLine(q) ==> format(Dedent(q)) == format(q))
    && (forall q, n: nat :: NoBlankLine(q) ==> format(Embedded(q, n)) == format(q))
    && (forall q :: NoBlankLine(format(q)))
  }

  /** With such a formatter every query settles, and means the same to it afterwards. */
  lemma {:induction false} BlindSettles(format: string -> string, query: string, n: nat)
    requires LayoutBlind(format)
    ensures Settles(format, query, n) && format(Embedded(FormatQuery(format, query), n)) == format(query)
  {
    hide Dedent, NoBlankLine, Embedded;
    DedentKeepsLines(format(query));
    assert format(FormatQuery(format, query)) == format(query);
  }

  lemma {:induction false} IndentedContains(n: nat, line: string, t: string)
    requires t != [] && t[0] != ' ' && Contains(Spaces(n) + line, t)
    ensures Contains(line, t)
  {
    hide Contains;
    var s := Spaces(n) + line;
    var i := ContainsWitness(s, t);
    assert s[i] == s[i..][0] == t[0];
    assert i >= n;
    assert line[i - n..] == s[i..];
    ContainsAt(line, t, i - n);
  }

  lemma {:induction false} EndIsContained(s: string, t: string)
    requires EndsWith(s, t)
    ensures Contains(s, t)
  {
    ContainsAt(s, t, |s| - |t|);
  }

  lemma {:induction false} ContainsFront(s: string, t: string, after: string)
    requires Contains(s, t + after)
    ensures Contains(s, t)
  {
    hide Contains;
    var i := ContainsWitness(s, t + after);
    assert t <= t + after;
    ContainsAt(s, t, i);
  }

  predicate EndsRaw(line: string) {
    EndsWith(line, "\"#,") || EndsWith(line, "\"#")
  }

  /** A line without calls, whatever its indentation. */
  lemma {:induction false} IndentedIsNoTrigger(n: nat, line: string)
    requires !Contains(line, CALL) && !Contains(line, CALL_AS)
    ensures !IsTrigger(Spaces(n) + line)
  {
    hide Contains, EndsWith, Spaces;
    var s := Spaces(n) + line;
    FirstLetters();
    if IsTrigger(s) {
      if Contains(s, "sqlx::query!(\"") {
        ContainsFront(s, CALL, "\"");
      } else if Contains(s, "sqlx::query!(r") {
        ContainsFront(s, CALL, "r");
      } else if EndsWith(s, CALL) {
        EndIsContained(s, CALL);
      }
      if Contains(s, CALL) {
        IndentedContains(n, line, CALL);
      } else {
        EndIsContained(s, CALL_AS);
        IndentedContains(n, line, CALL_AS);
      }
    }
  }

  lemma {:induction false} FirstLetters()
    ensures CALL[0] == 's' && CALL_AS[0] == 's'
    ensures CALL + "\"" == "sqlx::query!(\"" && CALL + "r" == "sqlx::query!(r"
  {
  }

  lemma {:induction false} IndentedIsOpen(n: nat, line: string)
    requires !Contains(line, "\"#")
    ensures !EndsRaw(Spaces(n) + line)
  {
    hide Contains, EndsWith, Spaces;
    var s := Spaces(n) + line;
    if EndsWith(s, "\"#,") {
      EndIsContained(s, "\"#,");
      assert "\"#" + "," == "\"#,";
      ContainsFront(s, "\"#", ",");
      IndentedContains(n, line, "\"#");
    } else if EndsWith(s, "\"#") {
      EndIsContained(s, "\"#");
      IndentedContains(n, line, "\"#");
    }
  }

  lemma {:induction false} BlockEnds(n: nat, comma: bool)
    ensures var first, last := Spaces(n) + "r#\"", Spaces(n) + "\"#" + Comma(comma);
      && !IsTrigger(first) && !EndsRaw(first) && Contains(first, "r#\"")
      && !IsTrigger(last) && EndsRaw(last)
  {
    hide Contains, IsTrigger, Spaces;
    var first, end := Spaces(n) + "r#\"", "\"#" + Comma(comma);
    NotInShorter("r#\"", CALL);
    NotInShorter("r#\"", CALL_AS);
    NotInShorter(end, CALL);
    NotInShorter(end, CALL_AS);
    IndentedIsNoTrigger(n, "r#\"");
    IndentedIsNoTrigger(n, end);
    assert Spaces(n) + end == Spaces(n) + "\"#" + Comma(comma);
    assert first[|first| - 1] == '"';
    ContainsAt(first, "r#\"", n);
  }

  /** Reading a raw query to its end. */
  lemma {:induction false} ReadThrough(middle: seq<string>, last: string, rest: seq<string>, sofar: seq<string>)
    requires forall i :: 0 <= i < |middle| ==> !IsTrigger(middle[i]) && !EndsRaw(middle[i])
    requires !IsTrigger(last) && EndsRaw(last)
    ensures var lines := middle + [last] + rest;
      && Segments(lines, Reading(true, sofar)) == [Query(sofar + middle + [last], true)] + Segments(rest, Idle)
      && (Undisturbed(rest, Idle) ==> Undisturbed(lines, Reading(true, sofar)))
  {
    hide IsTrigger, EndsWith, Unlines, Segments, Undisturbed;
    var lines := middle + [last] + rest;
    if middle == [] {
      assert lines[0] == last && lines[1..] == rest;
      SegmentsStep(lines, Reading(true, sofar));
      assert sofar + middle + [last] == sofar + [last];
    } else {
      var line := middle[0];
      assert lines[0] == line && lines[1..] == middle[1..] + [last] + rest;
      SegmentsStep(lines, Reading(true, sofar));
      ReadThrough(middle[1..], last, rest, sofar + [line]);
      assert sofar + [line] + middle[1..] + [last] == sofar + middle + [last];
    }
  }

  lemma {:induction false} SegmentsStep(lines: seq<string>, phase: Phase)
    requires lines != []
    ensures Segments(lines, phase) == Completed(phase, lines[0]) + Segments(lines[1..], NextPhase(phase, lines[0]))
    ensures Undisturbed(lines, phase)
       <==> (phase.Reading? ==> !IsTrigger(lines[0])) && Undisturbed(lines[1..], NextPhase(phase, lines[0]))
  {
  }

  lemma {:induction false} BlockSegment(query: string, n: nat, comma: bool, rest: seq<string>)
    requires PlainText(query)
    ensures var block := Block(query, n, comma);
      && Segments(block + rest, Await(0)) == [Query(block, true)] + Segments(rest, Idle)
      && (Undisturbed(rest, Idle) ==> Undisturbed(block + rest, Await(0)))
  {
    hide IsOneLine, Opens, EndsWith, Unlines, Segments, Undisturbed, Lines, Contains;
    var first, middle, last := Spaces(n) + "r#\"", Indented(Lines(query), n), Spaces(n) + "\"#" + Comma(comma);
    var lines := Block(query, n, comma) + rest;
    BlockEnds(n, comma);
    forall i | 0 <= i < |middle|
      ensures !IsTrigger(middle[i]) && !EndsRaw(middle[i])
    {
      IndentedIsNoTrigger(n, Lines(query)[i]);
      IndentedIsOpen(n, Lines(query)[i]);
    }
    assert lines[0] == first && lines[1..] == middle + [last] + rest;
    SegmentsStep(lines, Await(0));
    assert [] + [first] == [first];
    ReadThrough(middle, last, rest, [first]);
    assert [first] + middle + [last] == Block(query, n, comma);
  }

  /** Lines that the formatter leaves alone. */
  ghost predicate Stable(format: string -> string, lines: seq<string>, phase: Phase) {
    && Undisturbed(lines, phase)
    && AllFit(Segments(lines, phase))
    && RenderAll(format, Segments(lines, phase)) == lines
  }

  lemma {:induction false} StableBlock(format: string -> string, query: string, n: nat, comma: bool, rest: seq<string>)
    requires Settles(format, query, n) && PlainText(FormatQuery(format, query)) && Stable(format, rest, Idle)
    ensures Stable(format, Block(FormatQuery(format, query), n, comma) + rest, Await(0))
  {
    hide Settles, PlainText, Undisturbed, Segments, Render, Block, FormatQuery, RenderAll;
    var text := FormatQuery(format, query);
    var block := Block(text, n, comma);
    BlockSegment(text, n, comma, rest);
    BlockStable(format, query, n, comma);
    RenderConcat(format, [Query(block, true)], Segments(rest, Idle));
    RenderOne(format, Query(block, true));
    FitConcat([Query(block, true)], Segments(rest, Idle));
  }

  lemma {:induction false} StableCopy(format: string -> string, line: string, rest: seq<string>, phase: Phase)
    requires !IsOneLine(line) && (phase.Idle? || (phase.Await? && (phase.n > 0 || Opens(line))))
    requires Stable(format, rest, NextPhase(phase, line))
    ensures Stable(format, [line] + rest, phase)
  {
    hide IsTrigger, IsOneLine, Opens, Undisturbed, Segments, RenderAll, NextPhase;
    var lines := [line] + rest;
    assert lines[1..] == rest;
    SegmentsStep(lines, phase);
    var segs := Segments(rest, NextPhase(phase, line));
    RenderConcat(format, [Copied(line)], segs);
    RenderOne(format, Copied(line));
    FitConcat([Copied(line)], segs);
  }

  /** Where the second pass stands while the first is in a phase: it has not seen the query yet. */
  function Behindhand(phase: Phase): Phase {
    if phase.Reading? then Await(0) else phase
  }

  /** Lines without calls are left alone outside of queries. */
  lemma {:induction false} StablePlain(format: string -> string, lines: seq<string>, rest: seq<string>)
    requires (forall i :: 0 <= i < |lines| ==> !IsTrigger(lines[i])) && Stable(format, rest, Idle)
    ensures Stable(format, lines + rest, Idle)
  {
    hide Stable, IsOneLine, EndsWith;
    if lines == [] {
      assert lines + rest == rest;
    } else {
      StablePlain(format, lines[1..], rest);
      StableCopy(format, lines[0], lines[1..] + rest, Idle);
      assert lines + rest == [lines[0]] + (lines[1..] + rest);
    }
  }

  lemma {:induction false} BlockHasNoCalls(query: string, n: nat, comma: bool)
    requires PlainText(query)
    ensures forall i :: 0 <= i < |Block(query, n, comma)| ==> !IsTrigger(Block(query, n, comma)[i])
  {
    hide IsTrigger, EndsWith, Lines, Contains, Spaces;
    var block := Block(query, n, comma);
    BlockEnds(n, comma);
    forall i | 0 <= i < |block|
      ensures !IsTrigger(block[i])
    {
      if 0 < i < |block| - 1 {
        assert block[i] == Spaces(n) + Lines(query)[i - 1];
        IndentedIsNoTrigger(n, Lines(query)[i - 1]);
      }
    }
  }

  /** The first part of a one-line query is a call, so that the count starts again. */
  lemma {:induction false} StableOneLine(format: string -> string, line: string, rest: seq<string>, phase: Phase)
    requires Tidy(format, OneLine(line)) && Stable(format, rest, Idle) && !phase.Reading?
    ensures Stable(format, Render(format, OneLine(line)) + rest, phase)
  {
    hide Settles, PlainText, Stable, Block, FormatQuery, SplitOneLine, IsOneLine, EndsWith, Placement, RawQuery;
    var parts, n, query := SplitOneLine(line), Placement(OneLine(line)), RawQuery(OneLine(line));
    var block := Block(FormatQuery(format, query), n, false);
    StableCopy(format, parts.suffix, rest, Idle);
    StableBlock(format, query, n, false, [parts.suffix] + rest);
    CallsDiffer(parts.prefix);
    StableCopy(format, parts.prefix, block + ([parts.suffix] + rest), phase);
    assert Render(format, OneLine(line)) + rest == [parts.prefix] + (block + ([parts.suffix] + rest));
  }

  lemma {:induction false} CallsDiffer(line: string)
    requires EndsWith(line, CALL)
    ensures !EndsWith(line, CALL_AS)
  {
    assert line[|line| - 3] == CALL[|CALL| - 3] == 'y';
  }

  lemma {:induction false} TidyConcat(format: string -> string, a: seq<Segment>, b: seq<Segment>)
    requires AllTidy(format, a + b)
    ensures AllTidy(format, a) && AllTidy(format, b)
  {
    hide Tidy;
    assert forall i :: 0 <= i < |a| ==> a[i] == (a + b)[i];
    assert forall i :: 0 <= i < |b| ==> b[i] == (a + b)[|a| + i];
  }

  /** The second pass leaves lines alone, whether or not it expects a query where the first one did. */
  ghost predicate StableTwice(format: string -> string, lines: seq<string>, phase: Phase) {
    Stable(format, lines, Behindhand(phase)) && Stable(format, lines, Idle)
  }

  /** The second pass over what the first one wrote. */
  lemma {:induction false} SecondPass(format: string -> string, lines: seq<string>, phase: Phase)
    requires Undisturbed(lines, phase) && AllTidy(format, Segments(lines, phase))
    ensures StableTwice(format, RenderAll(format, Segments(lines, phase)), phase)
  {
    hide Undisturbed, Segments, RenderAll, Stable, Tidy, IsTrigger, IsOneLine, Opens, Closes, Unlines;
    if lines == [] {
      NothingIsStable(format, phase);
    } else {
      var line, rest := lines[0], lines[1..];
      var done, next := Completed(phase, line), NextPhase(phase, line);
      var segs := Segments(rest, next);
      SegmentsStep(lines, phase);
      TidyConcat(format, done, segs);
      SecondPass(format, rest, next);
      RenderConcat(format, done, segs);
      var out := RenderAll(format, segs);
      if done == [] {
        NothingRendered(format);
        assert [] + out == out;
      } else {
        RenderOne(format, done[0]);
        assert done == [done[0]] && Tidy(format, done[0]);
        SegmentIsStable(format, phase, line, out);
      }
    }
  }

  lemma {:induction false} NothingIsStable(format: string -> string, phase: Phase)
    ensures StableTwice(format, RenderAll(format, Segments([], phase)), phase)
  {
  }

  lemma {:induction false} SegmentIsStable(format: string -> string, phase: Phase, line: string, out: seq<string>)
    requires phase.Reading? ==> !IsTrigger(line)
    requires Completed(phase, line) != [] && Tidy(format, Completed(phase, line)[0])
    requires StableTwice(format, out, NextPhase(phase, line)) && !NextPhase(phase, line).Reading?
    ensures StableTwice(format, Render(format, Completed(phase, line)[0]) + out, phase)
  {
    hide Stable, IsOneLine, Closes, Unlines, EndsWith, Block, FormatQuery, PlainText, WellPlaced, SplitOneLine, Settles,
         Placement, RawQuery;
    if !phase.Reading? && IsOneLine(line) {
      StableOneLine(format, line, out, phase);
      StableOneLine(format, line, out, Idle);
    } else if phase.Idle? || (phase.Await? && (phase.n > 0 || Opens(line))) {
      StableCopy(format, line, out, phase);
      StableCopy(format, line, out, Idle);
    } else {
      var q := Opened(phase, line);
      var seg := Query(q.sofar + [line], q.isRaw);
      var comma := EndsWith(TrimEnd(Unlines(q.sofar + [line])), ",");
      StableBlock(format, RawQuery(seg), Placement(seg), comma, out);
      BlockHasNoCalls(QueryText(format, seg), Placement(seg), comma);
      StablePlain(format, Block(QueryText(format, seg), Placement(seg), comma), out);
    }
  }

  lemma {:induction false} RenderedLine(format: string -> string, seg: Segment)
    requires forall i :: 0 <= i < |Source(seg)| ==> NoNewline(Source(seg)[i])
    ensures forall i :: 0 <= i < |Render(format, seg)| ==> NoNewline(Render(format, seg)[i])
  {
    hide Lines, FormatQuery, ExtractQueryFromRustString, TrimEnd, Search, IndexOf, Contains, QuoteEnd;
    match seg
    case Copied(line) =>
      assert Source(seg)[0] == line;
    case OneLine(line) =>
      assert Source(seg)[0] == line;
      PartsAreLines(line);
    case Query(_, _) =>
  }

  lemma {:induction false} PartsAreLines(line: string)
    requires NoNewline(line)
    ensures NoNewline(SplitOneLine(line).prefix) && NoNewline(SplitOneLine(line).suffix)
  {
    hide IndexOf, Contains, QuoteEnd;
  }

  lemma {:induction false} RenderedLines(format: string -> string, segs: seq<Segment>)
    requires forall i :: 0 <= i < |Sources(segs)| ==> NoNewline(Sources(segs)[i])
    ensures forall i :: 0 <= i < |RenderAll(format, segs)| ==> NoNewline(RenderAll(format, segs)[i])
  {
    hide NoNewline, Render, Source;
    if segs != [] {
      var first, rest := Source(segs[0]), Sources(segs[1..]);
      assert forall i :: 0 <= i < |first| ==> first[i] == Sources(segs)[i];
      assert forall i :: 0 <= i < |rest| ==> rest[i] == Sources(segs)[|first| + i];
      RenderedLine(format, segs[0]);
      RenderedLines(format, segs[1..]);
    }
  }

  /**
   Formatting is idempotent: when every query of a file settles and can be found again, the formatted file,
   one-line queries and an open query at its end included, is what formatting it again gives.
   */
  lemma {:induction false} FormatIdempotent(format: string -> string, content: string)
    requires Undisturbed(Lines(content), Idle) && AllTidy(format, Segments(Lines(content), Idle))
    ensures var once := Formatted(format, content);
      once.Success? && Formatted(format, once.value) == once
  {
    hide Lines, Undisturbed, Segments, RenderAll, Join, Formatted, NoNewline, EndPhase, Sofar;
    var lines := Lines(content);
    var segs := Segments(lines, Idle);
    TidyFits(format, segs);
    SegmentsRendered(format, content);
    var out := RenderAll(format, segs);
    SegmentsPartition(lines, Idle);
    NoSofar(Idle);
    assert [] + lines == lines;
    forall i | 0 <= i < |Sources(segs)|
      ensures NoNewline(Sources(segs)[i])
    {
      assert Sources(segs)[i] == lines[i];
    }
    RenderedLines(format, segs);
    LinesOfJoin(out);
    SecondPass(format, lines, Idle);
    SegmentsRendered(format, Join(out));
  }

  lemma {:induction false} TidyFits(format: string -> string, segs: seq<Segment>)
    requires AllTidy(format, segs)
    ensures AllFit(segs)
  {
    hide PlainText, WellPlaced, QueryText, Settles;
  }

  /** With a formatter that is blind to the layout, it is enough that queries can be found again. */
  lemma {:induction false} BlindIdempotent(format: string -> string, content: string)
    requires LayoutBlind(format) && Undisturbed(Lines(content), Idle)
    requires forall i :: 0 <= i < |Segments(Lines(content), Idle)| ==> Placed(format, Segments(Lines(content), Idle)[i])
    ensures var once := Formatted(format, content);
      once.Success? && Formatted(format, once.value) == once
  {
    hide LayoutBlind, Lines, Undisturbed, Segments, Formatted, Placed, Settles;
    var segs := Segments(Lines(content), Idle);
    forall i | 0 <= i < |segs|
      ensures Tidy(format, segs[i])
    {
      BlindSettles(format, RawQuery(segs[i]), Placement(segs[i]));
    }
    FormatIdempotent(format, content);
  }
}
