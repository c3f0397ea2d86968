/**
 Formatting the SQL queries inside Rust files: a line-by-line state machine that finds the
 queries of `sqlx::query!` and `sqlx::query_as!` and replaces them by formatted raw strings.
 */
module SqlFormat {
  import opened Text
  import opened SqlText

  const CALL := "sqlx::query!("

  const CALL_AS := "sqlx::query_as!("

  /** A call with its query on the same line. */
  predicate IsOneLine(line: string) {
    Contains(line, "sqlx::query!(\"") || Contains(line, "sqlx::query!(r")
  }

  /** A call whose query is on one of the next lines. */
  predicate Opens(line: string) {
    EndsWith(line, CALL) || EndsWith(line, CALL_AS)
  }

  predicate IsTrigger(line: string) {
    IsOneLine(line) || Opens(line)
  }

  /******* One-line queries *******/

  datatype Parts = Parts(prefix: string, query: string, suffix: string, isRaw: bool)

  /** A line cut at the start and the end of its query. */
  function SplitOneLine(line: string): Parts {
    var isRaw := Contains(line, "sqlx::query!(r");
    var queryStart := if isRaw then IndexOf(line, "r#\"") else IndexOf(line, "\"");
    var rest := SliceFrom(line, queryStart);
    var queryEnd := if isRaw then IndexOf(rest, "\"#") + 2 else QuoteEnd(SliceFrom(rest, 1)) + 3;
    Parts(Slice(line, 0, queryStart), Slice(rest, 0, queryEnd), SliceFrom(rest, queryEnd), isRaw)
  }

  function FormatOneLineQuery(format: string -> string, line: string): Result<string> {
    var parts := SplitOneLine(line);
    var formatted := FormatRustStringQuery(format, parts.query, parts.isRaw);
    if formatted.Failure? then formatted
    else Success(parts.prefix + "\n" + AddIndent(formatted.value, Search(line) + 4) + "\n" + parts.suffix)
  }

  /******* The state machine *******/

  datatype State = State(linesToQuery: Option<nat>, isInsideQuery: bool, isRawString: bool, builtQuery: string)

  const START := State(None, false, false, "")

  /** What a call at the end of the line does to the state. */
  function Armed(st: State, line: string): State {
    if EndsWith(line, CALL_AS) then State(Some(2), st.isInsideQuery, false, "")
    else if EndsWith(line, CALL) then State(Some(1), st.isInsideQuery, false, "")
    else st
  }

  /** Counts the lines down to the query. */
  function Counted(st: State, line: string): State {
    if st.linesToQuery.None? then st
    else if st.linesToQuery.value == 0 then
      State(None, true, st.isRawString || Contains(line, "r#\""), st.builtQuery)
    else st.(linesToQuery := Some(st.linesToQuery.value - 1))
  }

  /** Whether a line ends a raw query, or a regular one. */
  predicate Closes(isRaw: bool, builtQuery: string, line: string) {
    if isRaw then EndsWith(line, "\"#,") || EndsWith(line, "\"#")
    else
      && (EndsWith(line, "\",") || EndsWith(line, "\""))
      && (builtQuery != "" || |Trim(line)| > 1)
      && !EndsWith(line, "\\\"") && !EndsWith(line, "\\\",")
  }

  /** The text that replaces a complete query. */
  function Replacement(format: string -> string, builtQuery: string, isRaw: bool): Result<string> {
    var formatted := FormatRustStringQuery(format, builtQuery, isRaw);
    if formatted.Failure? then formatted
    else Success(TrimEnd(formatted.value) + Comma(EndsWith(TrimEnd(builtQuery), ",")) + "\n")
  }

  datatype Move = Move(state: State, output: string)

  /** One line: the next state and what is added to the new file. */
  function Step(format: string -> string, st: State, line: string): Result<Move> {
    if IsOneLine(line) then
      var formatted := FormatOneLineQuery(format, line);
      if formatted.Failure? then Failure(formatted.error) else Success(Move(st, formatted.value + "\n"))
    else
      var next := Counted(Armed(st, line), line);
      if !next.isInsideQuery then Success(Move(next, line + "\n"))
      else
        var built := next.(builtQuery := next.builtQuery + line + "\n");
        if !Closes(next.isRawString, next.builtQuery, line) then Success(Move(built, ""))
        else
          var replacement := Replacement(format, built.builtQuery, built.isRawString);
          if replacement.Failure? then Failure(replacement.error)
          else Success(Move(built.(isInsideQuery := false), replacement.value))
  }

  function FormatLines(format: string -> string, lines: seq<string>, st: State): Result<string> {
    if lines == [] then Success("")
    else
      var move := Step(format, st, lines[0]);
      if move.Failure? then Failure(move.error)
      else
        var rest := FormatLines(format, lines[1..], move.value.state);
        if rest.Failure? then rest else Success(move.value.output + rest.value)
  }

  /** The whole file; the line feed after the last line is dropped again. */
  function Formatted(format: string -> string, content: string): Result<string> {
    var r := FormatLines(format, Lines(content), START);
    if r.Failure? then r else Success(Slice(r.value, 0, |r.value| - 1))
  }

  function Prepended(text: string, r: Result<string>): Result<string> {
    if r.Failure? then r else Success(text + r.value)
  }

  lemma {:induction false} Prepend(text: string, more: string, r: Result<string>)
    ensures Prepended(text, Prepended(more, r)) == Prepended(text + more, r)
  {
    if r.Success? {
      assert text + (more + r.value) == text + more + r.value;
    }
  }

  lemma {:induction false} StepLine(format: string -> string, lines: seq<string>, i: nat, st: State, text: string)
    requires i < |lines|
    ensures var move, r := Step(format, st, lines[i]), Prepended(text, FormatLines(format, lines[i..], st));
      if move.Failure? then r == Failure(move.error)
      else r == Prepended(text + move.value.output, FormatLines(format, lines[i + 1..], move.value.state))
  {
    hide Step;
    var move := Step(format, st, lines[i]);
    assert lines[i..][0] == lines[i] && lines[i..][1..] == lines[i + 1..];
    if move.Success? {
      Prepend(text, move.value.output, FormatLines(format, lines[i + 1..], move.value.state));
    }
  }

  /** Formats a file; with `check` the file stays as it is. The result tells whether it was formatted already. */
  method FormatFile(format: string -> string, content: string, check: bool) returns (r: Result<bool>, file: string)
    ensures var f := Formatted(format, content);
      if f.Failure? then r == Failure(f.error) && file == content
      else r == Success(content == f.value) && file == (if check then content else f.value)
  {
    hide FormatLines, FormatOneLineQuery, Replacement, Closes, IsOneLine;
    file := content;
    var linesToQuery: Option<nat>, isInsideQuery, isRawString, builtQuery := None, false, false, "";
    var modifiedFile := "";
    var lines := Lines(content);
    ghost var all := FormatLines(format, lines, START);
    assert lines[0..] == lines;
    PrependNothing(all);
    var i := 0;
    while i < |lines|
      invariant i <= |lines|
      invariant all == Prepended(modifiedFile, FormatLines(format, lines[i..],
                                   State(linesToQuery, isInsideQuery, isRawString, builtQuery)))
    {
      var line := lines[i];
      StepLine(format, lines, i, State(linesToQuery, isInsideQuery, isRawString, builtQuery), modifiedFile);
      i := i + 1;
      if IsOneLine(line) {
        var formatted := FormatOneLineQuery(format, line);
        if formatted.Failure? {
          return Failure(formatted.error), content;
        }
        modifiedFile := modifiedFile + (formatted.value + "\n");
        continue;
      }
      if EndsWith(line, CALL) {
        linesToQuery, isRawString, builtQuery := Some(1), false, "";
      }
      if EndsWith(line, CALL_AS) {
        linesToQuery, isRawString, builtQuery := Some(2), false, "";
      }
      if linesToQuery != None {
        if linesToQuery.value == 0 {
          isInsideQuery, linesToQuery := true, None;
          if Contains(line, "r#\"") {
            isRawString := true;
          }
        } else {
          linesToQuery := Some(linesToQuery.value - 1);
        }
      }
      if isInsideQuery {
        var closes := Closes(isRawString, builtQuery, line);
        builtQuery := builtQuery + line + "\n";
        if closes {
          isInsideQuery := false;
          var replacement := Replacement(format, builtQuery, isRawString);
          if replacement.Failure? {
            return Failure(replacement.error), content;
          }
          modifiedFile := modifiedFile + replacement.value;
        } else {
          assert modifiedFile + "" == modifiedFile;
        }
      } else {
        modifiedFile := modifiedFile + (line + "\n");
      }
    }
    NoLinesLeft(format, lines, State(linesToQuery, isInsideQuery, isRawString, builtQuery));
    assert modifiedFile + "" == modifiedFile;
    modifiedFile := Slice(modifiedFile, 0, |modifiedFile| - 1);
    if content != modifiedFile && !check {
      file := modifiedFile;
    }
    r := Success(content == modifiedFile);
  }

  lemma {:induction false} PrependNothing(r: Result<string>)
    ensures Prepended("", r) == r
  {
    if r.Success? {
      assert "" + r.value == r.value;
    }
  }

  lemma {:induction false} NoLinesLeft(format: string -> string, lines: seq<string>, st: State)
    ensures FormatLines(format, lines[|lines|..], st) == Success("")
  {
  }

  /******* The queries of a file *******/

  /** A line that is copied, a line with a whole query, or the lines of a query. */
  datatype Segment = Copied(line: string) | OneLine(line: string) | Query(lines: seq<string>, isRaw: bool)

  /** Outside of queries, so many lines before a query, or in a query with these lines so far. */
  datatype Phase = Idle | Await(n: nat) | Reading(isRaw: bool, sofar: seq<string>)

  function AfterCopy(line: string): (phase: Phase)
    ensures !phase.Reading?
  {
    if EndsWith(line, CALL_AS) then Await(1) else if EndsWith(line, CALL) then Await(0) else Idle
  }

  /** The query that a line continues or starts. */
  function Opened(phase: Phase, line: string): (q: Phase)
    ensures q.Reading?
  {
    if phase.Reading? then phase else Reading(Contains(line, "r#\""), [])
  }

  /** A call before a query starts the count again; a one-line call does not touch it. */
  function NextPhase(phase: Phase, line: string): Phase {
    if !phase.Reading? && IsOneLine(line) then phase
    else if phase.Idle? || (phase.Await? && Opens(line)) then AfterCopy(line)
    else if phase.Await? && phase.n > 0 then Await(phase.n - 1)
    else
      var q := Opened(phase, line);
      if Closes(q.isRaw, Unlines(q.sofar), line) then Idle else q.(sofar := q.sofar + [line])
  }

  /** The segments that one line completes. */
  function Completed(phase: Phase, line: string): seq<Segment> {
    if !phase.Reading? && IsOneLine(line) then [OneLine(line)]
    else if phase.Idle? || (phase.Await? && (phase.n > 0 || Opens(line))) then [Copied(line)]
    else
      var q := Opened(phase, line);
      if Closes(q.isRaw, Unlines(q.sofar), line) then [Query(q.sofar + [line], q.isRaw)] else []
  }

  /** The segments of a file, read without regard to calls inside queries. */
  function Segments(lines: seq<string>, phase: Phase): seq<Segment> {
    if lines == [] then [] else Completed(phase, lines[0]) + Segments(lines[1..], NextPhase(phase, lines[0]))
  }

  /** Where the file ends. */
  function EndPhase(lines: seq<string>, phase: Phase): Phase {
    if lines == [] then phase else EndPhase(lines[1..], NextPhase(phase, lines[0]))
  }

  /** No call inside a query. */
  predicate Undisturbed(lines: seq<string>, phase: Phase) {
    lines == []
    || ((phase.Reading? ==> !IsTrigger(lines[0])) && Undisturbed(lines[1..], NextPhase(phase, lines[0])))
  }

  /******* Every line is in one segment *******/

  function Source(seg: Segment): seq<string> {
    match seg
    case Copied(line) => [line]
    case OneLine(line) => [line]
    case Query(lines, _) => lines
  }

  function Sources(segs: seq<Segment>): seq<string> {
    if segs == [] then [] else Source(segs[0]) + Sources(segs[1..])
  }

  function Sofar(phase: Phase): seq<string> {
    if phase.Reading? then phase.sofar else []
  }

  lemma {:induction false} LineCompletes(phase: Phase, line: string)
    ensures var done, next := Completed(phase, line), NextPhase(phase, line);
      if done == [] then Sofar(next) == Sofar(phase) + [line]
      else |done| == 1 && Source(done[0]) == Sofar(phase) + [line] && Sofar(next) == []
  {
    hide Closes, IsOneLine, AfterCopy, Contains, Unlines;
    assert [] + [line] == [line];
  }

  /** The segments and the lines of a query that is still open, one after the other, are the lines of the file. */
  lemma {:induction false} SegmentsPartition(lines: seq<string>, phase: Phase)
    ensures Sources(Segments(lines, phase)) + Sofar(EndPhase(lines, phase)) == Sofar(phase) + lines
  {
    hide Completed, NextPhase, Sofar, Source;
    if lines != [] {
      var line, rest := lines[0], lines[1..];
      var done, next, segs := Completed(phase, line), NextPhase(phase, line), Segments(lines, phase);
      var tail := Sofar(EndPhase(lines, phase));
      LineCompletes(phase, line);
      SegmentsPartition(rest, next);
      assert lines == [line] + rest;
      if done == [] {
        assert segs == Segments(rest, next);
      } else {
        assert segs[0] == done[0] && segs[1..] == Segments(rest, next);
        assert Source(done[0]) + Sources(Segments(rest, next)) + tail
            == Source(done[0]) + (Sources(Segments(rest, next)) + tail);
      }
    }
  }

  /******* What the formatter writes *******/

  function Indent(text: string): nat {
    if Search(text) < 0 then 0 else Search(text)
  }

  /** The query of a segment, as it stands in the file. */
  function RawQuery(seg: Segment): string {
    match seg
    case Copied(_) => ""
    case OneLine(line) =>
      var parts := SplitOneLine(line);
      ExtractQueryFromRustString(parts.query, parts.isRaw)
    case Query(lines, isRaw) => ExtractQueryFromRustString(Unlines(lines), isRaw)
  }

  function QueryText(format: string -> string, seg: Segment): string {
    FormatQuery(format, RawQuery(seg))
  }

  /** How far in the formatted query is put. */
  function Placement(seg: Segment): nat {
    match seg
    case Copied(_) => 0
    case OneLine(line) => Search(line) + 4
    case Query(lines, _) => Indent(Unlines(lines))
  }

  /** The lines a segment becomes. */
  function Render(format: string -> string, seg: Segment): seq<string> {
    match seg
    case Copied(line) => [line]
    case OneLine(line) =>
      var parts := SplitOneLine(line);
      [parts.prefix] + Block(QueryText(format, seg), Placement(seg), false) + [parts.suffix]
    case Query(lines, _) =>
      Block(QueryText(format, seg), Placement(seg), EndsWith(TrimEnd(Unlines(lines)), ","))
  }

  function RenderAll(format: string -> string, segs: seq<Segment>): seq<string> {
    if segs == [] then [] else Render(format, segs[0]) + RenderAll(format, segs[1..])
  }

  /** The one way to fail: a call of something that starts with `r`, without a raw string, and a blank at the end. */
  predicate Fits(seg: Segment) {
    seg.OneLine? ==> Search(SplitOneLine(seg.line).query) >= 0
  }

  lemma {:induction false} IndexOfFound(s: string, t: string)
    ensures IndexOf(s, t) >= 0 <==> Contains(s, t)
  {
    if !(t <= s) && s != [] {
      IndexOfFound(s[1..], t);
    }
  }

  lemma {:induction false} ContainsPart(s: string, before: string, t: string)
    requires Contains(s, before + t)
    ensures Contains(s, t)
  {
    var i := ContainsWitness(s, before + t);
    var k := i + |before|;
    assert s[k..] == s[i..][|before|..];
    assert t == (before + t)[|before|..];
    ContainsAt(s, t, k);
  }

  lemma {:induction false} QuoteFound(line: string)
    requires Contains(line, "sqlx::query!(\"")
    ensures IndexOf(line, "\"") >= 0
  {
    hide Contains, IndexOf;
    assert "sqlx::query!(\"" == "sqlx::query!(" + "\"";
    ContainsPart(line, "sqlx::query!(", "\"");
    IndexOfFound(line, "\"");
  }

  lemma {:induction false} TriggerIsNotEmpty(line: string)
    requires IsOneLine(line)
    ensures line != []
  {
  }

  /** No white space before a query; the formatter fails exactly when there is no query and a blank ends the line. */
  lemma {:induction false} QueryStartsAtOnce(line: string)
    requires IsOneLine(line)
    ensures line != [] && Search(SplitOneLine(line).query) <= 0
    ensures Fits(OneLine(line))
       <==> !(SplitOneLine(line).isRaw && !Contains(line, "r#\"") && IsSpace(line[|line| - 1]))
  {
    IndexOfFound(line, "r#\"");
    hide Contains, IndexOf, IsSpace, QuoteEnd;
    TriggerIsNotEmpty(line);
    var isRaw := Contains(line, "sqlx::query!(r");
    var start := if isRaw then IndexOf(line, "r#\"") else IndexOf(line, "\"");
    if !isRaw {
      QuoteFound(line);
    }
    var rest, query := SliceFrom(line, start), SplitOneLine(line).query;
    assert |rest| >= 1;
    assert |query| >= 1 && query[0] == rest[0];
    if start < 0 {
      assert |rest| == 1;
    } else if isRaw {
      assert query[0] == 'r';
      NotSpace();
    } else {
      assert query[0] == '"';
      NotSpace();
    }
  }

  lemma {:induction false} NotSpace()
    ensures !IsSpace('r') && !IsSpace('"') && !IsSpace('#') && !IsSpace(',')
  {
  }

  lemma {:induction false} OneLineRendered(format: string -> string, line: string)
    requires IsOneLine(line) && Fits(OneLine(line))
    ensures FormatOneLineQuery(format, line) == Success(Join(Render(format, OneLine(line))))
  {
    hide IsOneLine, Search, SplitOneLine, Join, Block, AddIndent, FormatQuery, ExtractQueryFromRustString;
    var parts, text, n := SplitOneLine(line), QueryText(format, OneLine(line)), Search(line) + 4;
    QueryStartsAtOnce(line);
    AddNoIndent(EmbedTextInsideRustString(text));
    EmbeddedBlock(text, n);
    BlockNotEmpty(text, n, false);
    JoinConcat([parts.prefix], Block(text, n, false));
    JoinConcat([parts.prefix] + Block(text, n, false), [parts.suffix]);
    JoinOne(parts.prefix);
    JoinOne(parts.suffix);
  }

  lemma {:induction false} BlockNotEmpty(query: string, n: nat, comma: bool)
    ensures Block(query, n, comma) != []
  {
  }

  lemma {:induction false} QueryRendered(format: string -> string, lines: seq<string>, isRaw: bool)
    requires Search(Unlines(lines)) >= 0
    ensures Replacement(format, Unlines(lines), isRaw) == Success(Unlines(Render(format, Query(lines, isRaw))))
  {
    hide Search, Join, AddIndent, FormatQuery, ExtractQueryFromRustString, EmbedTextInsideRustString, Unlines, TrimEnd;
    var built := Unlines(lines);
    var text, n, comma := QueryText(format, Query(lines, isRaw)), Search(built), EndsWith(TrimEnd(built), ",");
    EmbeddedBlock(text, n);
    EndOfBlock(text, n, comma);
    UnlinesIsJoin(Block(text, n, comma));
  }

  lemma {:induction false} EndOfBlock(query: string, n: nat, comma: bool)
    ensures TrimEnd(Join(Block(query, n, false))) + Comma(comma) == Join(Block(query, n, comma))
  {
    hide Join, TrimEnd, Lines, Indented, IsSpace;
    var front, last := [Spaces(n) + "r#\""] + Indented(Lines(query), n), Spaces(n) + "\"#";
    assert Block(query, n, false) == front + [last + ""] && last + "" == last;
    assert Block(query, n, comma) == front + [last + Comma(comma)];
    JoinConcat(front, [last]);
    JoinConcat(front, [last + Comma(comma)]);
    JoinOne(last);
    JoinOne(last + Comma(comma));
    var s := Join(front) + "\n" + last;
    NotSpace();
    assert s[|s| - 1] == '#';
    TrimEndNewline(s);
    assert s + Comma(comma) == Join(front) + "\n" + (last + Comma(comma));
  }
}
