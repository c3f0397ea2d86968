/**
 What formatting does to a file: every line is copied or belongs to one query, in order.
 */
module SqlFormatCorrect {
  import opened Text
  import opened SqlText
  import opened SqlFormat

  predicate AllFit(segs: seq<Segment>) {
    forall i :: 0 <= i < |segs| ==> Fits(segs[i])
  }

  lemma {:induction false} UnlinesSnoc(lines: seq<string>, line: string)
    ensures Unlines(lines + [line]) == Unlines(lines) + line + "\n"
  {
    UnlinesConcat(lines, [line]);
    assert [line][1..] == [];
    assert Unlines([line]) == line + "\n" + "" == line + "\n";
  }

  lemma {:induction false} RenderOne(format: string -> string, seg: Segment)
    ensures RenderAll(format, [seg]) == Render(format, seg)
  {
    hide Render;
    assert [seg][1..] == [];
    assert RenderAll(format, [seg]) == Render(format, seg) + [] == Render(format, seg);
  }

  lemma {:induction false} ClosingIsNotBlank(isRaw: bool, sofar: seq<string>, line: string)
    requires Closes(isRaw, Unlines(sofar), line)
    ensures Search(Unlines(sofar + [line])) >= 0
  {
    hide Search, Trim, Unlines, IsSpace;
    UnlinesSnoc(sofar, line);
    NotSpace();
    var text := Unlines(sofar + [line]);
    LastIs(isRaw, Unlines(sofar), line);
    assert text[|text| - 2] == line[|line| - 1];
  }

  lemma {:induction false} LastIs(isRaw: bool, built: string, line: string)
    requires Closes(isRaw, built, line)
    ensures line != [] && line[|line| - 1] in {'"', '#', ','}
  {
    hide Trim;
  }

  lemma {:induction false} OneLineStep(format: string -> string, st: State, line: string)
    requires IsOneLine(line)
    ensures var move := Step(format, st, line);
      && (move.Success? <==> Fits(OneLine(line)))
      && (move.Success? ==> move.value == Move(st, Unlines(RenderAll(format, [OneLine(line)]))))
  {
    hide IsOneLine, Render, Join, Unlines;
    if Fits(OneLine(line)) {
      OneLineRendered(format, line);
      RenderOne(format, OneLine(line));
      RenderNotEmpty(format, line);
      UnlinesIsJoin(Render(format, OneLine(line)));
    }
  }

  lemma {:induction false} RenderNotEmpty(format: string -> string, line: string)
    ensures Render(format, OneLine(line)) != []
  {
  }

  lemma {:induction false} NothingRendered(format: string -> string)
    ensures RenderAll(format, []) == [] && Unlines([]) == "" && Unlines(RenderAll(format, [])) == ""
  {
  }

  lemma {:induction false} CopyRendered(format: string -> string, line: string)
    ensures Unlines(RenderAll(format, [Copied(line)])) == line + "\n" && Fits(Copied(line))
  {
    RenderOne(format, Copied(line));
    UnlinesSnoc([], line);
    assert [] + [line] == [line];
    assert Unlines([]) + line + "\n" == line + "\n";
  }

  lemma {:induction false} RenderConcat(format: string -> string, a: seq<Segment>, b: seq<Segment>)
    ensures RenderAll(format, a + b) == RenderAll(format, a) + RenderAll(format, b)
  {
    hide Render;
    if a == [] {
      assert a + b == b;
    } else {
      RenderConcat(format, a[1..], b);
      assert (a + b)[0] == a[0] && (a + b)[1..] == a[1..] + b;
      Assoc(Render(format, a[0]), RenderAll(format, a[1..]), RenderAll(format, b));
    }
  }

  lemma {:induction false} FitConcat(a: seq<Segment>, b: seq<Segment>)
    ensures AllFit(a + b) <==> AllFit(a) && AllFit(b)
  {
    hide Fits;
    if AllFit(a + b) {
      assert forall i :: 0 <= i < |a| ==> a[i] == (a + b)[i];
      assert forall i :: 0 <= i < |b| ==> b[i] == (a + b)[|a| + i];
    }
  }

  /******* The loop on places *******/

  /** The variables of the loop, with the places of the collected lines instead of their text. */
  datatype Cursor = Cursor(linesToQuery: Option<nat>, isInside: bool, isRaw: bool, held: seq<nat>)

  const BEGIN := Cursor(None, false, false, [])

  /** A segment and the places of its lines in the file. */
  datatype Piece = Piece(seg: Segment, places: seq<nat>)

  predicate Before(places: seq<nat>, n: nat) {
    forall k :: 0 <= k < |places| ==> places[k] < n
  }

  function LinesAt(lines: seq<string>, places: seq<nat>): (r: seq<string>)
    requires Before(places, |lines|)
    ensures |r| == |places| && forall k :: 0 <= k < |r| ==> r[k] == lines[places[k]]
  {
    seq(|places|, k requires 0 <= k < |places| => lines[places[k]])
  }

  function StateOf(lines: seq<string>, c: Cursor): State
    requires Before(c.held, |lines|)
  {
    State(c.linesToQuery, c.isInside, c.isRaw, Unlines(LinesAt(lines, c.held)))
  }

  /** What calls and the count do, as in `Armed` and `Counted`. */
  function Counting(c: Cursor, line: string): (r: Cursor)
    ensures r.held == if Opens(line) then [] else c.held
  {
    var armed :=
      if EndsWith(line, CALL_AS) then Cursor(Some(2), c.isInside, false, [])
      else if EndsWith(line, CALL) then Cursor(Some(1), c.isInside, false, [])
      else c;
    if armed.linesToQuery.None? then armed
    else if armed.linesToQuery.value == 0 then Cursor(None, true, armed.isRaw || Contains(line, "r#\""), armed.held)
    else armed.(linesToQuery := Some(armed.linesToQuery.value - 1))
  }

  datatype Turn = Turn(cursor: Cursor, pieces: seq<Piece>)

  /** A line inside a query. */
  function ReadAt(lines: seq<string>, i: nat, c: Cursor): (t: Turn)
    requires i < |lines| && Before(c.held, i)
    ensures Before(t.cursor.held, i + 1)
  {
    var held := c.held + [i];
    if Closes(c.isRaw, Unlines(LinesAt(lines, c.held)), lines[i]) then
      Turn(c.(isInside := false, held := held), [Piece(Query(LinesAt(lines, held), c.isRaw), held)])
    else Turn(c.(held := held), [])
  }

  /** One line, for every file: the next variables and the segments that are written. */
  function TurnAt(lines: seq<string>, i: nat, c: Cursor): (t: Turn)
    requires i < |lines| && Before(c.held, i)
    ensures Before(t.cursor.held, i + 1)
  {
    var line := lines[i];
    if IsOneLine(line) then Turn(c, [Piece(OneLine(line), [i])])
    else
      var next := Counting(c, line);
      if !next.isInside then Turn(next, [Piece(Copied(line), [i])]) else ReadAt(lines, i, next)
  }

  /** The segments that are written from line `i` on, with the places of their lines. */
  function Trace(lines: seq<string>, i: nat, c: Cursor): seq<Piece>
    requires i <= |lines| && Before(c.held, i)
    decreases |lines| - i
  {
    if i == |lines| then []
    else
      var t := TurnAt(lines, i, c);
      t.pieces + Trace(lines, i + 1, t.cursor)
  }

  function SegmentsOf(pieces: seq<Piece>): (segs: seq<Segment>)
    ensures |segs| == |pieces| && forall k :: 0 <= k < |segs| ==> segs[k] == pieces[k].seg
  {
    seq(|pieces|, k requires 0 <= k < |pieces| => pieces[k].seg)
  }

  lemma {:induction false} SegmentsOfConcat(a: seq<Piece>, b: seq<Piece>)
    ensures SegmentsOf(a + b) == SegmentsOf(a) + SegmentsOf(b)
  {
  }

  lemma {:induction false} LinesAtSnoc(lines: seq<string>, held: seq<nat>, i: nat)
    requires i < |lines| && Before(held, i)
    ensures LinesAt(lines, held + [i]) == LinesAt(lines, held) + [lines[i]]
  {
  }

  lemma {:induction false} CountingIsCounted(lines: seq<string>, c: Cursor, line: string)
    requires Before(c.held, |lines|)
    ensures Counted(Armed(StateOf(lines, c), line), line) == StateOf(lines, Counting(c, line))
  {
    hide EndsWith, Contains, Unlines, LinesAt;
    NoLinesHeld(lines);
  }

  lemma {:induction false} NoLinesHeld(lines: seq<string>)
    ensures Unlines(LinesAt(lines, [])) == ""
  {
    assert LinesAt(lines, []) == [];
  }

  lemma {:induction false} TurnStep(format: string -> string, lines: seq<string>, i: nat, c: Cursor)
    requires i < |lines| && Before(c.held, i)
    ensures var move, t := Step(format, StateOf(lines, c), lines[i]), TurnAt(lines, i, c);
      && (move.Success? <==> AllFit(SegmentsOf(t.pieces)))
      && (move.Success? ==> move.value.state == StateOf(lines, t.cursor)
                            && move.value.output == Unlines(RenderAll(format, SegmentsOf(t.pieces))))
  {
    hide IsOneLine, Closes, Counted, Armed, Counting, Replacement, FormatOneLineQuery, Render, RenderAll, Unlines, Fits;
    var line, t := lines[i], TurnAt(lines, i, c);
    if IsOneLine(line) {
      OneLineStep(format, StateOf(lines, c), line);
      assert SegmentsOf(t.pieces) == [OneLine(line)] && [OneLine(line)][0] == OneLine(line);
    } else {
      CountingIsCounted(lines, c, line);
      var next := Counting(c, line);
      if !next.isInside {
        CopyRendered(format, line);
        assert SegmentsOf(t.pieces) == [Copied(line)];
      } else {
        QueryTurn(format, lines, i, next);
        if Closes(next.isRaw, Unlines(LinesAt(lines, next.held)), line) {
          assert SegmentsOf(t.pieces) == [Query(LinesAt(lines, next.held + [i]), next.isRaw)];
        }
      }
    }
  }

  lemma {:induction false} QueryTurn(format: string -> string, lines: seq<string>, i: nat, next: Cursor)
    requires i < |lines| && Before(next.held, i)
    ensures var line, held, built := lines[i], next.held + [i], Unlines(LinesAt(lines, next.held)) + lines[i] + "\n";
      && Unlines(LinesAt(lines, held)) == built
      && (Closes(next.isRaw, Unlines(LinesAt(lines, next.held)), line) ==>
            var segs := [Query(LinesAt(lines, held), next.isRaw)];
            AllFit(segs) && Replacement(format, built, next.isRaw) == Success(Unlines(RenderAll(format, segs))))
    ensures AllFit(SegmentsOf([])) && Unlines(RenderAll(format, SegmentsOf([]))) == ""
  {
    hide Closes, Replacement, Render, RenderAll, Unlines;
    NothingRendered(format);
    assert SegmentsOf([]) == [];
    var line, before := lines[i], LinesAt(lines, next.held);
    LinesAtSnoc(lines, next.held, i);
    UnlinesSnoc(before, line);
    if Closes(next.isRaw, Unlines(before), line) {
      ClosingIsNotBlank(next.isRaw, before, line);
      QueryRendered(format, before + [line], next.isRaw);
      RenderOne(format, Query(before + [line], next.isRaw));
    }
  }

  /** For every file and from every state, the output is the rendering of the pieces in order. */
  lemma {:induction false} TraceFormats(format: string -> string, lines: seq<string>, i: nat, c: Cursor)
    requires i <= |lines| && Before(c.held, i)
    ensures var r, segs := FormatLines(format, lines[i..], StateOf(lines, c)), SegmentsOf(Trace(lines, i, c));
      && (r.Success? <==> AllFit(segs))
      && (r.Success? ==> r.value == Unlines(RenderAll(format, segs)))
    decreases |lines| - i
  {
    hide Step, TurnAt, RenderAll, Unlines, Fits, StateOf;
    if i == |lines| {
      NothingRendered(format);
      assert SegmentsOf([]) == [];
    } else {
      var t := TurnAt(lines, i, c);
      var rest := Trace(lines, i + 1, t.cursor);
      assert lines[i..][0] == lines[i] && lines[i..][1..] == lines[i + 1..];
      TurnStep(format, lines, i, c);
      SegmentsOfConcat(t.pieces, rest);
      FitConcat(SegmentsOf(t.pieces), SegmentsOf(rest));
      if AllFit(SegmentsOf(t.pieces)) {
        TraceFormats(format, lines, i + 1, t.cursor);
        RenderConcat(format, SegmentsOf(t.pieces), SegmentsOf(rest));
        UnlinesConcat(RenderAll(format, SegmentsOf(t.pieces)), RenderAll(format, SegmentsOf(rest)));
      }
    }
  }

  /** The pieces of a whole file. */
  function Pieces(content: string): seq<Piece> {
    Trace(Lines(content), 0, BEGIN)
  }

  lemma {:induction false} FirstPieceRenders(format: string -> string, content: string)
    ensures RenderAll(format, SegmentsOf(Pieces(content))) != []
  {
    hide Lines, IsOneLine, Block, QueryText, EndsWith, Contains;
    var lines := Lines(content);
    var t := TurnAt(lines, 0, BEGIN);
    var segs := SegmentsOf(Pieces(content));
    assert Pieces(content)[0] == t.pieces[0];
    assert segs[0] == t.pieces[0].seg && Render(format, segs[0]) != [];
  }

  /** Every file: the new one is the rendered pieces; a missing raw string is the only failure. */
  lemma {:induction false} FileRendered(format: string -> string, content: string)
    ensures var segs := SegmentsOf(Pieces(content));
      && (Formatted(format, content).Success? <==> AllFit(segs))
      && (AllFit(segs) ==> Formatted(format, content) == Success(Join(RenderAll(format, segs))))
  {
    hide Lines, Trace, Unlines, RenderAll, Join, FormatLines, Fits, LinesAt;
    var lines := Lines(content);
    assert lines[0..] == lines;
    StartIsBegin(lines);
    TraceFormats(format, lines, 0, BEGIN);
    FirstPieceRenders(format, content);
    var out := RenderAll(format, SegmentsOf(Pieces(content)));
    UnlinesIsJoin(out);
    assert (Join(out) + "\n")[..|Join(out)|] == Join(out);
  }

  lemma {:induction false} StartIsBegin(lines: seq<string>)
    ensures StateOf(lines, BEGIN) == START
  {
    assert LinesAt(lines, []) == [];
  }

  /******* Conservation *******/

  /** The places of the lines of the pieces, in the order they are written. */
  function Places(pieces: seq<Piece>): seq<nat> {
    if pieces == [] then [] else pieces[0].places + Places(pieces[1..])
  }

  function Range(a: nat, b: nat): (r: seq<nat>)
    requires a <= b
    ensures |r| == b - a && forall k :: 0 <= k < |r| ==> r[k] == a + k
  {
    seq(b - a, k => a + k)
  }

  lemma {:induction false} PlacesCons(p: Piece, pieces: seq<Piece>)
    ensures Places([p] + pieces) == p.places + Places(pieces)
  {
    assert ([p] + pieces)[1..] == pieces;
  }

  lemma {:induction false} PlacesConcat(a: seq<Piece>, b: seq<Piece>)
    ensures Places(a + b) == Places(a) + Places(b)
  {
    if a == [] {
      assert a + b == b;
    } else {
      hide Places;
      var first, rest := a[0], a[1..];
      assert a == [first] + rest;
      Assoc([first], rest, b);
      PlacesCons(first, rest);
      PlacesCons(first, rest + b);
      PlacesConcat(rest, b);
      Assoc(first.places, Places(rest), Places(b));
    }
  }

  lemma {:induction false} PlacesOfOne(p: Piece)
    ensures Places([p]) == p.places
  {
    assert [p] == [p] + [] && Places([]) == [];
    PlacesCons(p, []);
  }

  /** A piece is made of the lines at its places. */
  lemma {:induction false} PiecesAreLines(lines: seq<string>, i: nat, c: Cursor)
    requires i <= |lines| && Before(c.held, i)
    ensures forall p :: p in Trace(lines, i, c) ==>
      Before(p.places, |lines|) && Source(p.seg) == LinesAt(lines, p.places)
    decreases |lines| - i
  {
    hide IsOneLine, Closes, Counting, Unlines;
    if i < |lines| {
      PiecesAreLines(lines, i + 1, TurnAt(lines, i, c).cursor);
      assert LinesAt(lines, [i]) == [lines[i]];
    }
  }

  /** The cursor in a phase; outside of queries its last two parts are left over from before. */
  ghost predicate Matches(lines: seq<string>, i: nat, c: Cursor, phase: Phase) {
    && Before(c.held, i) && i <= |lines|
    && match phase
       case Idle => c.linesToQuery == None && !c.isInside
       case Await(n) => c == Cursor(Some(n), false, false, [])
       case Reading(isRaw, sofar) =>
         && 0 < |sofar| <= i && c == Cursor(None, true, isRaw, Range(i - |sofar|, i)) && LinesAt(lines, c.held) == sofar
  }

  /** One line of an undisturbed file: the next phase, its segments, and consecutive places. */
  lemma {:induction false} TurnMatches(lines: seq<string>, i: nat, c: Cursor, phase: Phase)
    requires i < |lines| && Matches(lines, i, c, phase) && (phase.Reading? ==> !IsTrigger(lines[i]))
    ensures var t, next := TurnAt(lines, i, c), NextPhase(phase, lines[i]);
      && Matches(lines, i + 1, t.cursor, next)
      && SegmentsOf(t.pieces) == Completed(phase, lines[i])
      && |Sofar(phase)| <= i && |Sofar(next)| <= i + 1 && i - |Sofar(phase)| <= i + 1 - |Sofar(next)|
      && Places(t.pieces) == Range(i - |Sofar(phase)|, i + 1 - |Sofar(next)|)
  {
    hide IsOneLine, Closes, Unlines, Contains;
    var line, t := lines[i], TurnAt(lines, i, c);
    assert |t.pieces| == 1 ==> t.pieces[1..] == [] && Places(t.pieces) == t.pieces[0].places;
    if !phase.Reading? && (IsOneLine(line) || phase.Idle? || phase.n > 0 || Opens(line)) {
    } else {
      ReadingMatches(lines, i, c, phase);
    }
  }

  lemma {:induction false} ReadingMatches(lines: seq<string>, i: nat, c: Cursor, phase: Phase)
    requires i < |lines| && Matches(lines, i, c, phase) && !IsTrigger(lines[i])
    requires phase.Reading? || (phase.Await? && phase.n == 0)
    ensures var t, next := TurnAt(lines, i, c), NextPhase(phase, lines[i]);
      && Matches(lines, i + 1, t.cursor, next)
      && SegmentsOf(t.pieces) == Completed(phase, lines[i])
      && |Sofar(phase)| <= i && |Sofar(next)| <= i + 1 && i - |Sofar(phase)| <= i + 1 - |Sofar(next)|
      && Places(t.pieces) == Range(i - |Sofar(phase)|, i + 1 - |Sofar(next)|)
  {
    hide IsOneLine, Closes, Unlines, Contains, EndsWith;
    var line, t, q := lines[i], TurnAt(lines, i, c), Opened(phase, lines[i]);
    var next := Counting(c, line);
    assert next == Cursor(None, true, q.isRaw, c.held);
    assert LinesAt(lines, []) == [];
    LinesAtSnoc(lines, c.held, i);
    var from := i - |Sofar(phase)|;
    assert c.held + [i] == Range(from, i + 1);
    assert |t.pieces| == 1 ==> t.pieces[1..] == [] && Places(t.pieces) == t.pieces[0].places;
  }

  /** Up to the next call inside a query, the pieces are the segments and their places follow each other. */
  lemma {:induction false} QuietUpTo(lines: seq<string>, i: nat, j: nat, c: Cursor, phase: Phase) returns (c': Cursor)
    requires i <= j <= |lines| && Matches(lines, i, c, phase) && Undisturbed(lines[i..j], phase)
    ensures var end := EndPhase(lines[i..j], phase);
      && Matches(lines, j, c', end)
      && |Sofar(phase)| <= i && |Sofar(end)| <= j && i - |Sofar(phase)| <= j - |Sofar(end)|
      && Places(Trace(lines, i, c)) == Range(i - |Sofar(phase)|, j - |Sofar(end)|) + Places(Trace(lines, j, c'))
      && SegmentsOf(Trace(lines, i, c)) == Segments(lines[i..j], phase) + SegmentsOf(Trace(lines, j, c'))
    decreases j - i
  {
    hide Matches, TurnAt, NextPhase, Completed, Places, IsTrigger, Sofar;
    SofarFits(lines, i, c, phase);
    if i == j {
      assert lines[i..j] == [];
      c' := c;
    } else {
      var t, line := TurnAt(lines, i, c), lines[i];
      var next := NextPhase(phase, line);
      assert lines[i..j][0] == line && lines[i..j][1..] == lines[i + 1..j];
      TurnMatches(lines, i, c, phase);
      c' := QuietUpTo(lines, i + 1, j, t.cursor, next);
      SofarFits(lines, j, c', EndPhase(lines[i..j], phase));
      var rest := Trace(lines, i + 1, t.cursor);
      PlacesConcat(t.pieces, rest);
      SegmentsOfConcat(t.pieces, rest);
      var a, b, d := i - |Sofar(phase)|, i + 1 - |Sofar(next)|, j - |Sofar(EndPhase(lines[i..j], phase))|;
      assert Range(a, b) + Range(b, d) == Range(a, d);
      Assoc(Range(a, b), Range(b, d), Places(Trace(lines, j, c')));
      Assoc(Completed(phase, line), Segments(lines[i + 1..j], next), SegmentsOf(Trace(lines, j, c')));
    }
  }

  lemma {:induction false} SofarFits(lines: seq<string>, i: nat, c: Cursor, phase: Phase)
    requires Matches(lines, i, c, phase)
    ensures |Sofar(phase)| <= i && Before(c.held, i) && (phase.Reading? ==> |Sofar(phase)| > 0)
  {
  }

  /** From lines at `b` or later on, nothing before `b` is written. */
  lemma {:induction false} OnlyLater(lines: seq<string>, i: nat, c: Cursor, b: nat)
    requires b <= i <= |lines| && Before(c.held, i) && forall k :: 0 <= k < |c.held| ==> b <= c.held[k]
    ensures forall p :: p in Places(Trace(lines, i, c)) ==> b <= p
    decreases |lines| - i
  {
    hide IsOneLine, Closes, Unlines;
    if i < |lines| {
      var t := TurnAt(lines, i, c);
      OnlyLater(lines, i + 1, t.cursor, b);
      PlacesConcat(t.pieces, Trace(lines, i + 1, t.cursor));
      assert |t.pieces| == 1 ==> t.pieces[1..] == [] && Places(t.pieces) == t.pieces[0].places;
    }
  }

  lemma {:induction false} BeginMatches(lines: seq<string>)
    ensures Matches(lines, 0, BEGIN, Idle)
  {
  }

  /** The first call inside a query. */
  lemma {:induction false} FirstDisturbance(lines: seq<string>, phase: Phase) returns (j: nat)
    requires !Undisturbed(lines, phase)
    ensures j < |lines| && Undisturbed(lines[..j], phase) && EndPhase(lines[..j], phase).Reading? && IsTrigger(lines[j])
  {
    hide NextPhase, IsTrigger;
    if phase.Reading? && IsTrigger(lines[0]) {
      j := 0;
    } else {
      var k := FirstDisturbance(lines[1..], NextPhase(phase, lines[0]));
      j := k + 1;
      assert lines[..j][0] == lines[0] && lines[..j][1..] == lines[1..][..k];
    }
  }

  /** The pieces when the lines before `j` are undisturbed and `j` is inside a query. */
  lemma {:induction false} InsideAt(lines: seq<string>, j: nat) returns (c: Cursor)
    requires j <= |lines| && Undisturbed(lines[..j], Idle) && EndPhase(lines[..j], Idle).Reading?
    ensures var sofar := Sofar(EndPhase(lines[..j], Idle));
      && 0 < |sofar| <= j && c.isInside && c.held == Range(j - |sofar|, j)
      && Places(Trace(lines, 0, BEGIN)) == Range(0, j - |sofar|) + Places(Trace(lines, j, c))
  {
    hide Undisturbed, EndPhase, Trace, Places;
    BeginMatches(lines);
    assert lines[0..j] == lines[..j];
    c := QuietUpTo(lines, 0, j, BEGIN, Idle);
  }

  /** A call inside a query: the lines of the query so far are written nowhere, all others before it are. */
  lemma {:induction false} CallInsideLoses(lines: seq<string>, j: nat)
    requires j < |lines| && Undisturbed(lines[..j], Idle) && EndPhase(lines[..j], Idle).Reading?
    requires Opens(lines[j]) && !IsOneLine(lines[j])
    ensures var a := j - |Sofar(EndPhase(lines[..j], Idle))|;
      forall p :: 0 <= p < j ==> (p in Places(Trace(lines, 0, BEGIN)) <==> p < a)
  {
    hide Undisturbed, EndPhase, Places, TurnAt, Opens, IsOneLine;
    var c := InsideAt(lines, j);
    CallTurn(lines, j, c);
    var t := TurnAt(lines, j, c);
    OnlyLater(lines, j + 1, t.cursor, j);
    assert [] + Trace(lines, j + 1, t.cursor) == Trace(lines, j + 1, t.cursor);
    var a, later := j - |Sofar(EndPhase(lines[..j], Idle))|, Places(Trace(lines, j, c));
    forall p | 0 <= p < j
      ensures p in Range(0, a) + later <==> p < a
    {
      assert p < a ==> Range(0, a)[p] == p;
    }
  }

  lemma {:induction false} CallTurn(lines: seq<string>, j: nat, c: Cursor)
    requires j < |lines| && Before(c.held, j) && c.isInside && Opens(lines[j]) && !IsOneLine(lines[j])
    ensures TurnAt(lines, j, c).pieces == [] && TurnAt(lines, j, c).cursor.held == [j]
  {
    hide Contains, Trim, IsOneLine;
    var line := lines[j];
    assert line[|line| - 1] == '(';
    assert LinesAt(lines, []) == [] && [] + [j] == [j];
  }

  /** A one-line call inside a query is written before the query it interrupts. */
  lemma {:induction false} OneLineOvertakes(lines: seq<string>, j: nat)
    requires j < |lines| && Undisturbed(lines[..j], Idle) && EndPhase(lines[..j], Idle).Reading? && IsOneLine(lines[j])
    ensures var a := j - |Sofar(EndPhase(lines[..j], Idle))|;
      0 <= a < j && Range(0, a) + [j] <= Places(Trace(lines, 0, BEGIN))
  {
    hide Undisturbed, EndPhase, IsOneLine, Range, Places;
    var c := InsideAt(lines, j);
    var t := TurnAt(lines, j, c);
    var p := Piece(OneLine(lines[j]), [j]);
    assert t == Turn(c, [p]);
    PlacesOfOne(p);
    var later := Places(Trace(lines, j + 1, c));
    PlacesConcat([p], Trace(lines, j + 1, c));
    Assoc(Range(0, j - |Sofar(EndPhase(lines[..j], Idle))|), [j], later);
  }

  /**
   The lines of a file are the lines of its pieces, in order and each once, if and only if no call arrives
   inside a query and the file does not end inside one.
   */
  lemma {:induction false} LinesConserved(content: string)
    ensures var lines := Lines(content);
      Places(Pieces(content)) == Range(0, |lines|)
      <==> Undisturbed(lines, Idle) && !EndPhase(lines, Idle).Reading?
  {
    hide Lines, Undisturbed, EndPhase, Trace, Places, IsTrigger;
    var lines := Lines(content);
    var n := |lines|;
    if Undisturbed(lines, Idle) {
      UndisturbedPlaces(lines);
    } else {
      DisturbedPlaces(lines);
    }
  }

  /** An undisturbed file: its pieces are its segments, and only a query open at its end is not written. */
  lemma {:induction false} UndisturbedPlaces(lines: seq<string>)
    requires Undisturbed(lines, Idle)
    ensures var k := |Sofar(EndPhase(lines, Idle))|;
      k <= |lines| && Places(Trace(lines, 0, BEGIN)) == Range(0, |lines| - k)
      && (EndPhase(lines, Idle).Reading? <==> k > 0)
    ensures SegmentsOf(Trace(lines, 0, BEGIN)) == Segments(lines, Idle)
  {
    hide Undisturbed, EndPhase, Segments, Matches, Sofar;
    var n := |lines|;
    assert lines[0..n] == lines;
    BeginMatches(lines);
    var c := QuietUpTo(lines, 0, n, BEGIN, Idle);
    SofarFits(lines, n, c, EndPhase(lines, Idle));
    NoSofar(EndPhase(lines, Idle));
    assert Trace(lines, n, c) == [] && SegmentsOf([]) == [];
    NoSofar(Idle);
  }

  lemma {:induction false} NoSofar(phase: Phase)
    ensures !phase.Reading? ==> Sofar(phase) == []
  {
  }

  lemma {:induction false} DisturbedPlaces(lines: seq<string>)
    requires !Undisturbed(lines, Idle)
    ensures Places(Trace(lines, 0, BEGIN)) != Range(0, |lines|)
  {
    hide Undisturbed, EndPhase, Trace, Places, IsOneLine, Opens;
    var j := FirstDisturbance(lines, Idle);
    var a := j - |Sofar(EndPhase(lines[..j], Idle))|;
    var c := InsideAt(lines, j);
    if IsOneLine(lines[j]) {
      OneLineOvertakes(lines, j);
      assert (Range(0, a) + [j])[a] == j != Range(0, |lines|)[a];
    } else {
      CallInsideLoses(lines, j);
      assert a in Range(0, |lines|) by {
        assert Range(0, |lines|)[a] == a;
      }
    }
  }

  /** An undisturbed file is rendered segment by segment. */
  lemma {:induction false} SegmentsRendered(format: string -> string, content: string)
    requires Undisturbed(Lines(content), Idle)
    ensures var segs := Segments(Lines(content), Idle);
      && (Formatted(format, content).Success? <==> AllFit(segs))
      && (AllFit(segs) ==> Formatted(format, content) == Success(Join(RenderAll(format, segs))))
      && RenderAll(format, segs) != []
  {
    hide Lines, Undisturbed, EndPhase, Segments, Trace, Formatted, RenderAll, Join, Fits;
    FileRendered(format, content);
    FirstPieceRenders(format, content);
    UndisturbedPlaces(Lines(content));
  }

  lemma {:induction false} AllCopied(format: string -> string, lines: seq<string>)
    requires forall i :: 0 <= i < |lines| ==> !IsTrigger(lines[i])
    ensures Undisturbed(lines, Idle) && AllFit(Segments(lines, Idle))
    ensures RenderAll(format, Segments(lines, Idle)) == lines
  {
    hide IsOneLine, Unlines, Closes;
    if lines != [] {
      AllCopied(format, lines[1..]);
      var segs := Segments(lines, Idle);
      assert segs == [Copied(lines[0])] + Segments(lines[1..], Idle);
      FitConcat([Copied(lines[0])], Segments(lines[1..], Idle));
      assert segs[1..] == Segments(lines[1..], Idle);
    }
  }

  /** A file without calls comes back as it is. */
  lemma {:induction false} NoCallsNoChange(format: string -> string, content: string)
    requires forall i :: 0 <= i < |Lines(content)| ==> !IsTrigger(Lines(content)[i])
    ensures Formatted(format, content) == Success(content)
  {
    hide Lines, IsTrigger, Join, RenderAll, Segments, Fits, FormatLines, Undisturbed;
    AllCopied(format, Lines(content));
    SegmentsRendered(format, content);
    JoinLines(content);
  }
}
