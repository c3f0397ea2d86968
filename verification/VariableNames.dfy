/**
 Names of variables and their parts, such as "balances[0].owner": how they are taken
 apart, and what `getValue` reads for them.
 */
module VariableNames {
  import opened Text
  import opened SolidityStorage
  import opened StorageFacts
  import opened StorageLayout

  const BAD_CHARACTER := "Field names, keys cannot contain square brackets or points"

  predicate IsStop(c: char) {
    c == '.' || c == '['
  }

  /** The position of the first `c`, or -1. */
  function IndexOf(s: string, c: char): (k: int)
    ensures -1 <= k < |s|
    ensures k >= 0 ==> s[k] == c
    ensures forall i :: 0 <= i < (if k >= 0 then k else |s|) ==> s[i] != c
  {
    if s == [] then -1
    else if s[0] == c then 0
    else
      var k := IndexOf(s[1..], c);
      if k < 0 then -1 else k + 1
  }

  function Prepend(done: seq<string>, rest: Result<seq<string>>): Result<seq<string>> {
    if rest.Failure? then rest else Success(done + rest.value)
  }

  /** The steps of a path text, given the unfinished step `str` and whether a bracket is open. */
  function Steps(s: string, atStart: bool, str: string, bracket: bool): Result<seq<string>>
    decreases |s|
  {
    if s == [] then
      if bracket then Failure("Invalid name") else Success([str])
    else if IsStop(s[0]) then
      if bracket then Failure(BAD_CHARACTER)
      else
        Prepend(if atStart then [] else [str], Steps(s[1..], false, "", s[0] == '['))
    else if s[0] == ']' then
      if !bracket then Failure(BAD_CHARACTER) else Steps(s[1..], false, str, false)
    else
      Steps(s[1..], false, str + [s[0]], bracket)
  }

  /** The position of the first dot or bracket, or the length of the name. */
  function FirstStop(s: string): (k: nat)
    ensures k <= |s|
    ensures k < |s| ==> IsStop(s[k])
    ensures forall i :: 0 <= i < k ==> !IsStop(s[i])
  {
    if s == [] || IsStop(s[0]) then 0 else 1 + FirstStop(s[1..])
  }

  /** What `parseName` returns: the steps, last one first. */
  function Parsed(full: string): Result<seq<string>> {
    var first := FirstStop(full);
    if first == |full| then Success([])
    else
      var steps := Steps(full[first..], true, "", false);
      if steps.Failure? then steps else Success(Reversed(steps.value))
  }

  function VariableName(full: string): string {
    var k := IndexOf(full, '[');
    var cut := if k != -1 then full[..k] else full;
    var j := IndexOf(cut, '.');
    if j != -1 then cut[..j] else cut
  }

  lemma {:induction false} PrependTwice(a: seq<string>, b: seq<string>, r: Result<seq<string>>)
    ensures Prepend(a, Prepend(b, r)) == Prepend(a + b, r)
    ensures Prepend([], r) == r
  {
    if r.Success? {
      assert a + (b + r.value) == a + b + r.value && [] + r.value == r.value;
    }
  }

  lemma {:induction false} StepsAt(full: string, i: nat, atStart: bool, str: string, bracket: bool)
    requires i < |full|
    ensures var c, rest := full[i], full[i + 1..];
      Steps(full[i..], atStart, str, bracket)
      == if IsStop(c) then
           if bracket then Failure(BAD_CHARACTER)
           else Prepend(if atStart then [] else [str], Steps(rest, false, "", c == '['))
         else if c == ']' then
           if !bracket then Failure(BAD_CHARACTER) else Steps(rest, false, str, false)
         else Steps(rest, false, str + [c], bracket)
  {
    assert full[i..][0] == full[i] && full[i..][1..] == full[i + 1..];
  }

  lemma {:induction false} StepsAtEnd(full: string, atStart: bool, str: string, bracket: bool)
    ensures Steps(full[|full|..], atStart, str, bracket) == if bracket then Failure("Invalid name") else Success([str])
  {
  }

  /** `parseName`: one pass over the characters after the variable's own name. */
  method ParseName(full: string) returns (r: Result<seq<string>>)
    ensures r == Parsed(full)
  {
    hide Steps, FirstStop, IndexOf, Reversed;
    var firstPoint := IndexOf(full, '.');
    var firstBracket := IndexOf(full, '[');
    if firstPoint == -1 && firstBracket == -1 {
      return Success([]);
    }
    var first: nat;
    if firstPoint == -1 {
      first := firstBracket;
    } else if firstBracket == -1 {
      first := firstPoint;
    } else {
      first := if firstPoint < firstBracket then firstPoint else firstBracket;
    }
    assert first == FirstStop(full);
    var result: seq<string> := [];
    var str := "";
    var bracket := false;
    ghost var goal := Steps(full[first..], true, "", false);
    PrependTwice([], [], goal);
    for i := first to |full|
      invariant i == first ==> result == [] && str == "" && !bracket
      invariant goal == Prepend(result, Steps(full[i..], i == first, str, bracket))
    {
      PrependTwice(result, if i == first then [] else [str], Steps(full[i + 1..], false, "", full[i] == '['));
      StepsAt(full, i, i == first, str, bracket);
      var c := full[i];
      if c == '.' {
        if bracket {
          return Failure(BAD_CHARACTER);
        }
        if i != first {
          result := result + [str];
        }
        str := "";
      } else if c == '[' {
        if bracket {
          return Failure(BAD_CHARACTER);
        }
        bracket := true;
        if i != first {
          result := result + [str];
        }
        str := "";
      } else if c == ']' {
        if !bracket {
          return Failure(BAD_CHARACTER);
        }
        bracket := false;
      } else {
        str := str + [c];
      }
    }
    StepsAtEnd(full, |full| == first, str, bracket);
    if bracket {
      return Failure("Invalid name");
    }
    result := result + [str];
    r := Success(Reversed(result));
  }

  /******* Printing and parsing *******/

  datatype Segment = Field(text: string) | Index(text: string)

  predicate Clean(s: string) {
    '.' !in s && '[' !in s && ']' !in s
  }

  predicate AllClean(path: seq<Segment>) {
    forall i :: 0 <= i < |path| ==> Clean(path[i].text)
  }

  function PrintSegment(segment: Segment): string {
    if segment.Field? then "." + segment.text else "[" + segment.text + "]"
  }

  function Print(path: seq<Segment>): string {
    if path == [] then [] else PrintSegment(path[0]) + Print(path[1..])
  }

  function Texts(path: seq<Segment>): (ts: seq<string>)
    ensures |ts| == |path|
  {
    if path == [] then [] else [path[0].text] + Texts(path[1..])
  }

  lemma {:induction false} StepsOverText(text: string, tail: string, str: string, bracket: bool)
    requires Clean(text)
    ensures Steps(text + tail, false, str, bracket) == Steps(tail, false, str + text, bracket)
    decreases |text|
  {
    if text == [] {
      assert text + tail == tail && str + text == str;
    } else {
      assert (text + tail)[0] == text[0] && (text + tail)[1..] == text[1..] + tail;
      StepsOverText(text[1..], tail, str + [text[0]], bracket);
      assert str + [text[0]] + text[1..] == str + text;
    }
  }

  lemma {:induction false} StepsAtStop(c: char, rest: string, atStart: bool, str: string)
    requires IsStop(c)
    ensures Steps([c] + rest, atStart, str, false)
         == Prepend(if atStart then [] else [str], Steps(rest, false, "", c == '['))
    ensures Steps("]" + rest, false, str, true) == Steps(rest, false, str, false)
  {
    assert ([c] + rest)[1..] == rest && ("]" + rest)[1..] == rest;
  }

  /** What one printed segment adds to the steps. */
  lemma {:induction false} StepsOfSegment(segment: Segment, tail: string, atStart: bool, str: string)
    requires Clean(segment.text)
    ensures Steps(PrintSegment(segment) + tail, atStart, str, false)
         == Prepend(if atStart then [] else [str], Steps(tail, false, segment.text, false))
  {
    hide Steps, Prepend, Clean;
    var text := segment.text;
    assert "" + text == text;
    if segment.Field? {
      Assoc(".", text, tail);
      StepsAtStop('.', text + tail, atStart, str);
      StepsOverText(text, tail, "", false);
    } else {
      Assoc("[" + text, "]", tail);
      Assoc("[", text, "]" + tail);
      StepsAtStop('[', text + ("]" + tail), atStart, str);
      StepsOverText(text, "]" + tail, "", true);
      StepsAtStop('[', tail, atStart, text);
    }
  }

  lemma {:induction false} StepsOfPrinted(path: seq<Segment>, atStart: bool, str: string)
    requires AllClean(path) && (atStart ==> path != [])
    ensures Steps(Print(path), atStart, str, false) == Success((if atStart then [] else [str]) + Texts(path))
    decreases |path|
  {
    hide PrintSegment;
    if path != [] {
      assert AllClean(path[1..]);
      StepsOfPrinted(path[1..], false, path[0].text);
      StepsOfSegment(path[0], Print(path[1..]), atStart, str);
    } else {
      assert [str] + Texts(path) == [str];
    }
  }

  lemma {:induction false} FirstStopAfter(base: string, rest: string)
    requires Clean(base) && (rest == [] || IsStop(rest[0]))
    ensures FirstStop(base + rest) == |base|
  {
    if base == [] {
      assert base + rest == rest;
    } else {
      assert (base + rest)[1..] == base[1..] + rest;
      FirstStopAfter(base[1..], rest);
    }
  }

  /** Parsing a printed path gives its steps, last one first, and the variable's own name. */
  lemma {:induction false} ParsePrinted(base: string, path: seq<Segment>)
    requires Clean(base) && AllClean(path)
    ensures Parsed(base + Print(path)) == Success(Reversed(Texts(path)))
    ensures VariableName(base + Print(path)) == base
  {
    hide Steps, VariableName;
    var full := base + Print(path);
    FirstStopAfter(base, Print(path));
    if path != [] {
      assert full[|base|..] == Print(path);
      StepsOfPrinted(path, true, "");
      assert [] + Texts(path) == Texts(path);
    }
    NameBeforeStop(full, |base|);
  }

  lemma {:induction false} NameBeforeStop(full: string, k: nat)
    requires k == FirstStop(full)
    ensures VariableName(full) == full[..k]
  {
    var b := IndexOf(full, '[');
    var cut := if b != -1 then full[..b] else full;
    assert k <= |cut|;
    assert forall i :: 0 <= i < k ==> cut[i] == full[i];
    assert cut[..k] == full[..k];
    if k < |cut| {
      assert cut[k] == full[k] == '.';
    }
  }

  /** Taking the last of the reversed steps again and again yields the steps in order. */
  lemma {:induction false} PopsInOrder(steps: seq<string>)
    requires steps != []
    ensures var params := Reversed(steps);
      params[|params| - 1] == steps[0] && params[..|params| - 1] == Reversed(steps[1..])
  {
    assert Reversed(steps)[..|steps| - 1] == Reversed(steps[1..]);
  }

  /******* Which names can be parsed *******/

  function Turn(c: char): int {
    if c == '[' then 1 else if c == ']' then -1 else 0
  }

  /** How many brackets the text opens and does not close. */
  function Open(s: string): int {
    if s == [] then 0 else Turn(s[0]) + Open(s[1..])
  }

  /** At index `i` a dot or an opening bracket stands outside of brackets and a closing one inside. */
  predicate FitsAt(s: string, open: int, i: nat)
    requires i < |s|
  {
    && (s[i] == '.' || s[i] == '[' ==> open + Open(s[..i]) == 0)
    && (s[i] == ']' ==> open + Open(s[..i]) == 1)
  }

  /** Brackets are not nested, hold no dots, and are not closed twice. */
  predicate Bracketed(s: string, open: int) {
    forall i :: 0 <= i < |s| ==> FitsAt(s, open, i)
  }

  lemma {:induction false} FitsLater(s: string, open: int, i: nat)
    requires i + 1 < |s|
    ensures FitsAt(s, open, i + 1) <==> FitsAt(s[1..], open + Turn(s[0]), i)
  {
    assert s[..i + 1][0] == s[0] && s[..i + 1][1..] == s[1..][..i];
  }

  lemma {:induction false} BracketedCons(s: string, open: int)
    requires s != []
    ensures Bracketed(s, open) <==> FitsAt(s, open, 0) && Bracketed(s[1..], open + Turn(s[0]))
  {
    hide FitsAt, Turn;
    var rest, now := s[1..], open + Turn(s[0]);
    forall i: nat | i < |rest|
      ensures FitsAt(s, open, i + 1) <==> FitsAt(rest, now, i)
    {
      FitsLater(s, open, i);
    }
    if FitsAt(s, open, 0) && Bracketed(rest, now) {
      forall i | 0 <= i < |s|
        ensures FitsAt(s, open, i)
      {
        if i > 0 {
          assert FitsAt(rest, now, i - 1);
        }
      }
    }
  }

  lemma {:induction false} StepsIffBracketed(s: string, atStart: bool, str: string, bracket: bool)
    ensures var r, open := Steps(s, atStart, str, bracket), if bracket then 1 else 0;
      && (r == Failure(BAD_CHARACTER) <==> !Bracketed(s, open))
      && (r == Failure("Invalid name") <==> Bracketed(s, open) && open + Open(s) != 0)
      && (r.Success? <==> Bracketed(s, open) && open + Open(s) == 0)
    decreases |s|
  {
    ErrorsDiffer();
    hide BAD_CHARACTER;
    if s != [] {
      var open := if bracket then 1 else 0;
      BracketedCons(s, open);
      assert s[..0] == [];
      if IsStop(s[0]) {
        if !bracket {
          StepsIffBracketed(s[1..], false, "", s[0] == '[');
        }
      } else if s[0] == ']' {
        if bracket {
          StepsIffBracketed(s[1..], false, str, false);
        }
      } else {
        StepsIffBracketed(s[1..], false, str + [s[0]], bracket);
      }
    }
  }

  lemma {:induction false} ErrorsDiffer()
    ensures BAD_CHARACTER != "Invalid name"
  {
    assert |BAD_CHARACTER| > |"Invalid name"|;
  }

  /** A name is parsed exactly when the brackets after its first dot or bracket are flat, closed and free of dots. */
  lemma {:induction false} ParsesIffBracketed(full: string)
    ensures var path := full[FirstStop(full)..];
      && (Parsed(full) == Failure("Field names, keys cannot contain square brackets or points") <==> !Bracketed(path, 0))
      && (Parsed(full) == Failure("Invalid name") <==> Bracketed(path, 0) && Open(path) != 0)
      && (Parsed(full).Success? <==> Bracketed(path, 0) && Open(path) == 0)
  {
    hide Steps, FirstStop, Reversed;
    StepsIffBracketed(full[FirstStop(full)..], true, "", false);
  }

  /******* The whole command *******/

  /** A row of the compiler's storage layout. */
  datatype Declared = Declared(name: string, slot: nat, offset: nat, t: string)

  /** The last variable of this name. */
  function FindVariable(layout: seq<Declared>, name: string): Option<Declared> {
    if layout == [] then None
    else if layout[|layout| - 1].name == name then Some(layout[|layout| - 1])
    else FindVariable(layout[..|layout| - 1], name)
  }

  ghost predicate Typed(types: TypeTable, layout: seq<Declared>) {
    forall i :: 0 <= i < |layout| ==> layout[i].t in types
  }

  lemma {:induction false} FoundIsTyped(types: TypeTable, layout: seq<Declared>, name: string)
    requires Typed(types, layout)
    ensures FindVariable(layout, name).Some? ==> FindVariable(layout, name).value.t in types
  {
    if layout != [] && layout[|layout| - 1].name != name {
      FoundIsTyped(types, layout[..|layout| - 1], name);
    }
  }

  /** `getValue`: what the command prints for a name. */
  function GetValue(c: Chain, types: TypeTable, ghost rank: map<string, nat>, layout: seq<Declared>, name: string)
    : Result<Value>
    requires WellFormed(types, rank) && Typed(types, layout)
  {
    FoundIsTyped(types, layout, VariableName(name));
    var params := Parsed(name);
    var found := FindVariable(layout, VariableName(name));
    if params.Failure? then Failure(params.error)
    else if found.None? then Failure("Invalid name")
    else Part(c, types, rank, found.value.slot, found.value.offset, found.value.t, params.value)
  }

  /** What is printed for a part of a variable is the projection of what is printed for the variable. */
  lemma {:induction false} PrintedPartIsProjection(
    c: Chain, types: TypeTable, rank: map<string, nat>, layout: seq<Declared>, base: string, path: seq<Segment>)
    requires WellFormed(types, rank) && Typed(types, layout) && Clean(base) && AllClean(path)
    ensures var whole, part := GetValue(c, types, rank, layout, base),
                               GetValue(c, types, rank, layout, base + Print(path));
      if FindVariable(layout, base).None? then whole.Failure? && part.Failure?
      else whole.Success? && Agree(Project(whole.value, Texts(path)), part)
  {
    hide Part, Variable, Parsed, VariableName, WellFormed, Project;
    ParsePrinted(base, path);
    ParsePrinted(base, []);
    assert base + Print([]) == base;
    var found := FindVariable(layout, base);
    FoundIsTyped(types, layout, base);
    if found.Some? {
      var v := found.value;
      PartIsProjection(c, types, rank, v.slot, v.offset, v.t, Texts(path));
      WholePart(c, types, rank, v.slot, v.offset, v.t);
    }
  }

  lemma {:induction false} WholePart(
    c: Chain, types: TypeTable, rank: map<string, nat>, slot: nat, shift: nat, t: string)
    requires WellFormed(types, rank) && t in types
    ensures Part(c, types, rank, slot, shift, t, Reversed(Texts([])))
         == Success(Variable(c, types, rank, slot, shift, t))
  {
  }

  /** The row is the last one of its name. */
  ghost predicate IsLastNamed(layout: seq<Declared>, k: nat, name: string) {
    k < |layout| && layout[k].name == name && forall j :: k < j < |layout| ==> layout[j].name != name
  }

  lemma {:induction false} FindsLast(layout: seq<Declared>, k: nat, name: string)
    requires IsLastNamed(layout, k, name)
    ensures FindVariable(layout, name) == Some(layout[k])
  {
    if k < |layout| - 1 {
      FindsLast(layout[..|layout| - 1], k, name);
    }
  }

  lemma {:induction false} FindsNothing(layout: seq<Declared>, name: string)
    requires forall j :: 0 <= j < |layout| ==> layout[j].name != name
    ensures FindVariable(layout, name) == None
  {
    if layout != [] {
      FindsNothing(layout[..|layout| - 1], name);
    }
  }

  /** What is printed for a path is read from the slot and offset at which the variable was declared. */
  lemma {:induction false} ReadsDeclared(
    c: Chain, types: TypeTable, rank: map<string, nat>, layout: seq<Declared>, k: nat, base: string,
    path: seq<Segment>)
    requires WellFormed(types, rank) && Typed(types, layout) && Clean(base) && AllClean(path)
    requires IsLastNamed(layout, k, base)
    ensures GetValue(c, types, rank, layout, base + Print(path))
         == Part(c, types, rank, layout[k].slot, layout[k].offset, layout[k].t, Reversed(Texts(path)))
  {
    hide Part, Parsed, VariableName, WellFormed, FindVariable;
    ParsePrinted(base, path);
    FindsLast(layout, k, base);
  }

  /**
   The whole command: for a variable declared at a place, and a path that leads from there to a value that lies in
   storage, the value is printed exactly when it is readable.
   */
  lemma {:induction false} CommandReads(
    c: Chain, types: TypeTable, rank: map<string, nat>, layout: seq<Declared>, k: nat, base: string,
    path: seq<Segment>, to: Place, v: Value)
    requires WellFormed(types, rank) && Labelled(types) && Typed(types, layout) && Clean(base) && AllClean(path)
    requires IsLastNamed(layout, k, base)
    requires Leads(c, types, Place(layout[k].slot, layout[k].offset, layout[k].t), Texts(path), to)
    requires to.t in types && Holds(c, types, rank, to.slot, to.shift, to.t, v)
    ensures GetValue(c, types, rank, layout, base + Print(path)) == Success(v) <==> Readable(types, rank, to.t, v)
  {
    hide Part, GetValue, Holds, Leads, Labelled, WellFormed, Readable;
    ReadsDeclared(c, types, rank, layout, k, base, path);
    PartReadsBack(c, types, rank, Place(layout[k].slot, layout[k].offset, layout[k].t), Texts(path), to, v);
  }

  /** A readable variable is printed as the value that lies at its declared place, and its parts as the parts of it. */
  lemma {:induction false} CommandProjects(
    c: Chain, types: TypeTable, rank: map<string, nat>, layout: seq<Declared>, k: nat, base: string,
    path: seq<Segment>, v: Value)
    requires WellFormed(types, rank) && Labelled(types) && Typed(types, layout) && Clean(base) && AllClean(path)
    requires IsLastNamed(layout, k, base)
    requires Holds(c, types, rank, layout[k].slot, layout[k].offset, layout[k].t, v)
    requires Readable(types, rank, layout[k].t, v)
    ensures GetValue(c, types, rank, layout, base) == Success(v)
    ensures Agree(Project(v, Texts(path)), GetValue(c, types, rank, layout, base + Print(path)))
  {
    hide Part, Variable, GetValue, Holds, Labelled, WellFormed, Readable, Project;
    var row := layout[k];
    assert base + Print([]) == base;
    ReadsDeclared(c, types, rank, layout, k, base, []);
    ReadsDeclared(c, types, rank, layout, k, base, path);
    WholePart(c, types, rank, row.slot, row.offset, row.t);
    ReadsBack(c, types, rank, row.slot, row.offset, row.t, v);
    PartIsProjection(c, types, rank, row.slot, row.offset, row.t, Texts(path));
  }

  /** A name that is not declared is reported. */
  lemma {:induction false} UndeclaredFails(
    c: Chain, types: TypeTable, rank: map<string, nat>, layout: seq<Declared>, base: string, path: seq<Segment>)
    requires WellFormed(types, rank) && Typed(types, layout) && Clean(base) && AllClean(path)
    requires forall j :: 0 <= j < |layout| ==> layout[j].name != base
    ensures GetValue(c, types, rank, layout, base + Print(path)) == Failure("Invalid name")
  {
    hide Part, Parsed, VariableName, WellFormed, FindVariable;
    ParsePrinted(base, path);
    FindsNothing(layout, base);
  }
}
