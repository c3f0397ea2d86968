/**
 Editing variables in an environment file by text replacement, and when that amounts to
 updating a map of variables.
 */
module EnvFile {
  import opened Text

  /******* The text edit *******/

  /** The text from the next end of a line on. */
  function SkipLine(s: string): (r: string)
    ensures |r| <= |s|
  {
    if s == [] || IsLineEnd(s[0]) then s else SkipLine(s[1..])
  }

  /** `source.replace` with the global regular expression `pattern.*`, for a pattern of ordinary characters. */
  function Replace(s: string, pattern: string, replacement: string): string
    requires pattern != []
    decreases |s|
  {
    if s == [] then []
    else if pattern <= s then replacement + Replace(SkipLine(s[|pattern|..]), pattern, replacement)
    else [s[0]] + Replace(s[1..], pattern, replacement)
  }

  function Assigned(variable: string, value: string): string {
    if variable + "=" <= value then value else variable + "=" + value
  }

  /** `modify` on the text of an existing file. */
  function Modified(source: string, variable: string, value: string): string
    requires variable != []
  {
    if Contains(source, variable) then Replace(source, variable, Trim(Assigned(variable, value)))
    else source + "\n" + Assigned(variable, value)
  }

  /** `modify` on a file that may not exist yet. */
  function ModifiedFile(contents: Option<string>, n: string, v: string): Option<string>
    requires n != []
  {
    Some(if contents.None? then Assigned(n, v) else Modified(contents.value, n, v))
  }

  /** The file, which may not exist yet. */
  class Env {
    var contents: Option<string>

    constructor ()
      ensures contents == None
    {
      contents := None;
    }

    method Modify(variable: string, value: string)
      requires variable != []
      modifies this
      ensures contents == ModifiedFile(old(contents), variable, value)
    {
      var assignedVariable := Assigned(variable, value);
      if contents.None? {
        contents := Some(assignedVariable);
        return;
      }
      var source := contents.value;
      if Contains(source, variable) {
        ReplaceInFile(variable, Trim(assignedVariable));
      } else {
        source := source + "\n" + assignedVariable;
        contents := Some(source);
      }
    }

    /** `replaceInFile`, for the pattern of the variable up to the end of its line. */
    method ReplaceInFile(before: string, after: string)
      requires before != [] && contents.Some?
      modifies this
      ensures contents == Some(Replace(old(contents).value, before, after))
    {
      var source := contents.value;
      contents := Some(Replace(source, before, after));
    }
  }

  /******* The edit, line by line *******/

  predicate OneLine(s: string) {
    forall i :: 0 <= i < |s| ==> !IsLineEnd(s[i])
  }

  /** The first place at which `t` occurs, or the length of `s`. */
  function FirstAt(s: string, t: string): (i: nat)
    ensures i <= |s|
    decreases |s|
  {
    if t <= s || s == [] then 0 else 1 + FirstAt(s[1..], t)
  }

  function EditLine(line: string, pattern: string, replacement: string): string {
    if Contains(line, pattern) then line[..FirstAt(line, pattern)] + replacement else line
  }

  lemma {:induction false} SkipsRest(s: string, rest: string)
    requires OneLine(s) && (rest == [] || IsLineEnd(rest[0]))
    ensures SkipLine(s + rest) == rest
  {
    if s == [] {
      assert s + rest == rest;
    } else {
      assert (s + rest)[1..] == s[1..] + rest;
      SkipsRest(s[1..], rest);
    }
  }

  lemma {:induction false} PrefixWithinLine(t: string, line: string, rest: string)
    requires OneLine(t) && (rest == [] || IsLineEnd(rest[0]))
    ensures t <= line + rest <==> t <= line
  {
    var s := line + rest;
    assert t <= s ==> forall i :: 0 <= i < |t| ==> t[i] == s[i];
    assert rest != [] ==> s[|line|] == rest[0];
    assert t <= line ==> t <= s;
  }

  lemma {:induction false} ReplaceMatch(line: string, rest: string, pattern: string, replacement: string)
    requires pattern != [] && OneLine(line) && (rest == [] || IsLineEnd(rest[0])) && pattern <= line
    ensures Replace(line + rest, pattern, replacement) == replacement + Replace(rest, pattern, replacement)
    ensures EditLine(line, pattern, replacement) == replacement
  {
    assert (line + rest)[|pattern|..] == line[|pattern|..] + rest;
    SkipsRest(line[|pattern|..], rest);
    assert pattern <= line + rest;
    assert line[..0] + replacement == replacement;
  }

  lemma {:induction false} EditLater(line: string, pattern: string, replacement: string)
    requires line != [] && !(pattern <= line)
    ensures EditLine(line, pattern, replacement) == [line[0]] + EditLine(line[1..], pattern, replacement)
  {
    if Contains(line, pattern) {
      var k := FirstAt(line[1..], pattern);
      assert line[..k + 1] == [line[0]] + line[1..][..k];
    } else {
      assert [line[0]] + line[1..] == line;
    }
  }

  lemma {:induction false} ReplaceInLine(line: string, rest: string, pattern: string, replacement: string)
    requires pattern != [] && OneLine(pattern) && OneLine(line) && (rest == [] || IsLineEnd(rest[0]))
    ensures Replace(line + rest, pattern, replacement)
         == EditLine(line, pattern, replacement) + Replace(rest, pattern, replacement)
    decreases |line|
  {
    hide EditLine, SkipLine;
    if line == [] {
      assert line + rest == rest;
      assert EditLine(line, pattern, replacement) == [] by { EditNothing(pattern, replacement); }
    } else if pattern <= line {
      ReplaceMatch(line, rest, pattern, replacement);
    } else {
      PrefixWithinLine(pattern, line, rest);
      assert (line + rest)[1..] == line[1..] + rest;
      ReplaceInLine(line[1..], rest, pattern, replacement);
      EditLater(line, pattern, replacement);
    }
  }

  lemma {:induction false} EditNothing(pattern: string, replacement: string)
    requires pattern != []
    ensures EditLine([], pattern, replacement) == []
  {
  }

  function EditLines(lines: seq<string>, pattern: string, replacement: string): (r: seq<string>)
    ensures |r| == |lines|
  {
    if lines == [] then [] else [EditLine(lines[0], pattern, replacement)] + EditLines(lines[1..], pattern, replacement)
  }

  lemma {:induction false} ReplaceInNothing(pattern: string, replacement: string)
    requires pattern != []
    ensures Replace([], pattern, replacement) == []
  {
  }

  lemma {:induction false} ReplaceNewline(tail: string, pattern: string, replacement: string)
    requires pattern != [] && OneLine(pattern)
    ensures Replace("\n" + tail, pattern, replacement) == "\n" + Replace(tail, pattern, replacement)
  {
    assert ("\n" + tail)[1..] == tail && pattern[0] != '\n';
  }

  /** The regular expression edits every line on its own. */
  lemma {:induction false} ReplaceByLine(lines: seq<string>, pattern: string, replacement: string)
    requires pattern != [] && OneLine(pattern)
    requires forall i :: 0 <= i < |lines| ==> OneLine(lines[i])
    ensures Replace(Join(lines), pattern, replacement) == Join(EditLines(lines, pattern, replacement))
  {
    hide EditLine, Replace;
    if lines == [] {
      ReplaceInNothing(pattern, replacement);
    } else {
      var line, edited := lines[0], EditLine(lines[0], pattern, replacement);
      if |lines| == 1 {
        assert line + [] == line && edited + [] == edited;
        ReplaceInLine(line, [], pattern, replacement);
        ReplaceInNothing(pattern, replacement);
      } else {
        var tail := Join(lines[1..]);
        ReplaceByLine(lines[1..], pattern, replacement);
        assert line + "\n" + tail == line + ("\n" + tail);
        ReplaceInLine(line, "\n" + tail, pattern, replacement);
        ReplaceNewline(tail, pattern, replacement);
        assert edited + ("\n" + Replace(tail, pattern, replacement))
            == edited + "\n" + Replace(tail, pattern, replacement);
      }
    }
  }

  lemma {:induction false} ContainsByLine(lines: seq<string>, t: string)
    requires t != [] && OneLine(t)
    requires forall i :: 0 <= i < |lines| ==> OneLine(lines[i])
    ensures Contains(Join(lines), t) <==> exists i :: 0 <= i < |lines| && Contains(lines[i], t)
  {
    if lines != [] {
      if |lines| == 1 {
        assert Join(lines) == lines[0];
      } else {
        var tail := Join(lines[1..]);
        ContainsByLine(lines[1..], t);
        assert lines[0] + "\n" + tail == lines[0] + ("\n" + tail);
        ContainsInLine(lines[0], "\n" + tail, t);
        assert ("\n" + tail)[1..] == tail && t[0] != '\n';
        assert forall i :: 0 <= i < |lines[1..]| ==> lines[1..][i] == lines[i + 1];
      }
    }
  }

  lemma {:induction false} ContainsInLine(line: string, rest: string, t: string)
    requires t != [] && OneLine(t) && (rest == [] || IsLineEnd(rest[0]))
    ensures Contains(line + rest, t) <==> Contains(line, t) || Contains(rest, t)
  {
    PrefixWithinLine(t, line, rest);
    if line == [] {
      assert line + rest == rest;
    } else {
      assert (line + rest)[1..] == line[1..] + rest;
      ContainsInLine(line[1..], rest, t);
    }
  }

  /******* Variables *******/

  predicate IsName(n: string) {
    n != [] && forall i :: 0 <= i < |n| ==> n[i] == '_' || IsDigit(n[i]) || 'A' <= n[i] <= 'Z' || 'a' <= n[i] <= 'z'
  }

  /** A text without line ends and trailing space in which none of the names occurs. */
  ghost predicate CleanValue(v: string, names: set<string>) {
    && OneLine(v) && (v == [] || !IsSpace(v[|v| - 1]))
    && forall n :: n in names ==> !Contains(v, n)
  }

  /** The names are names, and one of them occurs in another only at its end. */
  ghost predicate SuffixOnly(names: set<string>) {
    && (forall n :: n in names ==> IsName(n))
    && (forall m, n, i: nat :: m in names && n in names && OccursAt(m, n, i) ==> i == |m| - |n|)
  }

  ghost predicate TidyLine(line: string, names: set<string>) {
    line == [] || exists m, w :: m in names && CleanValue(w, names) && line == m + "=" + w
  }

  /** Every line of the file is empty or gives a clean value to one of the names. */
  ghost predicate Tidy(contents: Option<string>, names: set<string>) {
    contents.Some? ==>
      forall i :: 0 <= i < |Lines(contents.value)| ==> TidyLine(Lines(contents.value)[i], names)
  }

  /** The part of a line before its first `=`. */
  function NamePart(line: string): (n: string)
    ensures n <= line && '=' !in n
    ensures |n| < |line| ==> line[|n|] == '='
  {
    if line == [] || line[0] == '=' then [] else [line[0]] + NamePart(line[1..])
  }

  function LineBinding(line: string): map<string, string> {
    var n := NamePart(line);
    if |n| == |line| then map[] else map[n := line[|n| + 1..]]
  }

  /** The variables that the lines set; later lines win. */
  function LineBindings(lines: seq<string>): map<string, string> {
    if lines == [] then map[] else LineBinding(lines[0]) + LineBindings(lines[1..])
  }

  function Bindings(contents: Option<string>): map<string, string> {
    if contents.None? then map[] else LineBindings(Lines(contents.value))
  }

  /** What one `modify` does to the variables: it sets every variable whose name contains the name. */
  function ModifiedMap(m: map<string, string>, n: string, v: string): map<string, string> {
    if exists k :: k in m && Contains(k, n) then map k | k in m :: if Contains(k, n) then v else m[k]
    else m[n := v]
  }

  lemma {:induction false} NamePartOf(m: string, w: string)
    requires '=' !in m
    ensures NamePart(m + "=" + w) == m
  {
    if m != [] {
      assert (m + "=" + w)[1..] == m[1..] + "=" + w;
      NamePartOf(m[1..], w);
    }
  }

  lemma {:induction false} BindingOf(m: string, w: string)
    requires IsName(m)
    ensures LineBinding(m + "=" + w) == map[m := w]
  {
    assert '=' !in m;
    NamePartOf(m, w);
    assert (m + "=" + w)[|m| + 1..] == w;
  }

  lemma {:induction false} FirstAtIs(s: string, t: string, k: nat)
    requires OccursAt(s, t, k) && forall j: nat :: j < k ==> !OccursAt(s, t, j)
    ensures FirstAt(s, t) == k && Contains(s, t)
    decreases |s|
  {
    assert s[0..] == s;
    if k > 0 {
      assert !OccursAt(s, t, 0);
      assert s[1..][k - 1..] == s[k..];
      forall j: nat | j < k - 1
        ensures !OccursAt(s[1..], t, j)
      {
        assert !OccursAt(s, t, j + 1);
        assert s[1..][j..] == s[j + 1..];
      }
      FirstAtIs(s[1..], t, k - 1);
    }
  }

  /** A name occurs in a line `m=w` only inside `m` or inside `w`. */
  lemma {:induction false} OccursInLine(m: string, w: string, n: string, i: nat)
    requires n != [] && '=' !in n && OccursAt(m + "=" + w, n, i)
    ensures OccursAt(m, n, i) || (i > |m| && OccursAt(w, n, i - |m| - 1))
  {
    var line := m + "=" + w;
    assert forall j :: 0 <= j < |n| ==> n[j] == line[i + j];
    assert line[|m|] == '=';
    if i <= |m| {
      assert i + |n| <= |m|;
      assert m[i..][..|n|] == n;
    } else {
      assert w[i - |m| - 1..] == line[i..];
    }
  }

  lemma {:induction false} LineContains(m: string, w: string, n: string)
    requires IsName(n) && !Contains(w, n)
    ensures Contains(m + "=" + w, n) <==> Contains(m, n)
  {
    hide Contains;
    var line := m + "=" + w;
    assert '=' !in n;
    if Contains(line, n) {
      var i := ContainsWitness(line, n);
      OccursInLine(m, w, n, i);
      if OccursAt(m, n, i) {
        ContainsAt(m, n, i);
      } else {
        ContainsAt(w, n, i - |m| - 1);
      }
    }
    if Contains(m, n) {
      var i := ContainsWitness(m, n);
      OccursInConcat(m, "=" + w, n, i);
      assert m + ("=" + w) == line;
      ContainsAt(line, n, i);
    }
  }

  lemma {:induction false} OccursInConcat(a: string, b: string, n: string, i: nat)
    requires OccursAt(a, n, i)
    ensures OccursAt(a + b, n, i)
  {
    assert (a + b)[i..] == a[i..] + b;
  }

  lemma {:induction false} FirstInLine(m: string, w: string, n: string)
    requires IsName(n) && |n| <= |m| && OccursAt(m, n, |m| - |n|)
    requires forall j: nat :: OccursAt(m, n, j) ==> j == |m| - |n|
    ensures FirstAt(m + "=" + w, n) == |m| - |n|
  {
    hide FirstAt, OccursAt;
    var line, i := m + "=" + w, |m| - |n|;
    assert '=' !in n;
    assert m + ("=" + w) == line;
    OccursInConcat(m, "=" + w, n, i);
    forall j: nat | j < i
      ensures !OccursAt(line, n, j)
    {
      if OccursAt(line, n, j) {
        OccursInLine(m, w, n, j);
      }
    }
    FirstAtIs(line, n, i);
  }

  /** Editing a line `m=w` sets `m` if its name ends in `n`, and otherwise leaves the line alone. */
  lemma {:induction false} EditedLine(m: string, w: string, n: string, v: string, names: set<string>)
    requires SuffixOnly(names) && m in names && n in names && CleanValue(w, names)
    ensures EditLine(m + "=" + w, n, n + "=" + v) == if Contains(m, n) then m + "=" + v else m + "=" + w
  {
    hide Contains, FirstAt, OccursAt, IsName, SuffixOnly, OneLine;
    var line := m + "=" + w;
    SuffixNames(names, m, n);
    LineContains(m, w, n);
    if Contains(m, n) {
      var i := ContainsWitness(m, n);
      OccursFits(m, n, i);
      FirstInLine(m, w, n);
      NewEnd(m, w, n, v);
    }
  }

  lemma {:induction false} SuffixNames(names: set<string>, m: string, n: string)
    requires SuffixOnly(names) && m in names && n in names
    ensures IsName(n) && forall i: nat :: OccursAt(m, n, i) ==> i == |m| - |n|
  {
  }

  lemma {:induction false} NewEnd(m: string, w: string, n: string, v: string)
    requires |n| <= |m| && m[|m| - |n|..] == n
    ensures var line, i := m + "=" + w, |m| - |n|;
      line[..i] + (n + "=" + v) == m + "=" + v
  {
    var i := |m| - |n|;
    assert (m + "=" + w)[..i] == m[..i];
    assert m[..i] + n == m;
    Assoc(m[..i], n, "=" + v);
    assert n + ("=" + v) == n + "=" + v && m + ("=" + v) == m + "=" + v;
  }

  lemma {:induction false} OccursFits(m: string, n: string, i: nat)
    requires OccursAt(m, n, i)
    ensures i + |n| <= |m| && m[i..i + |n|] == n
  {
    assert m[i..][..|n|] == m[i..i + |n|];
  }

  /******* The text edit refines the map update *******/

  ghost predicate TidyLines(lines: seq<string>, names: set<string>) {
    forall i :: 0 <= i < |lines| ==> TidyLine(lines[i], names)
  }

  /** The same variables, of which those whose name holds `n` have the value `v`. */
  ghost predicate Rebound(m: map<string, string>, edited: map<string, string>, n: string, v: string) {
    && edited.Keys == m.Keys
    && forall k :: k in m ==> edited[k] == if Contains(k, n) then v else m[k]
  }

  ghost predicate Mentions(m: map<string, string>, n: string) {
    exists k :: k in m && Contains(k, n)
  }

  lemma {:induction false} MergeRebound(
    a: map<string, string>, b: map<string, string>, a': map<string, string>, b': map<string, string>, n: string,
    v: string)
    requires Rebound(a, a', n, v) && Rebound(b, b', n, v)
    ensures Rebound(a + b, a' + b', n, v)
    ensures Mentions(a + b, n) <==> Mentions(a, n) || Mentions(b, n)
  {
    hide Contains;
    if k :| k in a && Contains(k, n) {
      assert k in a + b;
    }
    if k :| k in b && Contains(k, n) {
      assert k in a + b;
    }
  }

  lemma {:induction false} EditedLines(lines: seq<string>, n: string, v: string, names: set<string>)
    requires SuffixOnly(names) && n in names && CleanValue(v, names) && TidyLines(lines, names)
    ensures var edited := EditLines(lines, n, n + "=" + v);
      && TidyLines(edited, names)
      && Rebound(LineBindings(lines), LineBindings(edited), n, v)
      && ((exists i :: 0 <= i < |lines| && Contains(lines[i], n)) <==> Mentions(LineBindings(lines), n))
    decreases |lines|
  {
    hide Contains, EditLine, LineBinding, CleanValue, TidyLine, TidyLines, SuffixOnly;
    if lines == [] {
      NothingTidy(names);
    } else {
      hide Rebound, Mentions;
      var line, rest := lines[0], lines[1..];
      TidyCons(lines, names);
      EditedLines(rest, n, v, names);
      var edited := EditLines(lines, n, n + "=" + v);
      OneLineEdited(line, n, v, names);
      assert TidyLine(edited[0], names) && edited[1..] == EditLines(rest, n, n + "=" + v);
      TidyCons(edited, names);
      SomeLineCons(lines, n);
      MergeRebound(LineBinding(line), LineBindings(rest), LineBinding(edited[0]), LineBindings(edited[1..]), n, v);
    }
  }

  lemma {:induction false} NothingTidy(names: set<string>)
    ensures TidyLines([], names)
  {
  }

  lemma {:induction false} TidyCons(lines: seq<string>, names: set<string>)
    requires lines != []
    ensures TidyLines(lines, names) <==> TidyLine(lines[0], names) && TidyLines(lines[1..], names)
  {
    hide TidyLine;
    assert forall i :: 0 < i < |lines| ==> lines[i] == lines[1..][i - 1];
  }

  lemma {:induction false} SomeLineCons(lines: seq<string>, n: string)
    requires lines != []
    ensures (exists i :: 0 <= i < |lines| && Contains(lines[i], n))
       <==> Contains(lines[0], n) || (exists i :: 0 <= i < |lines[1..]| && Contains(lines[1..][i], n))
  {
    hide Contains;
    assert forall i :: 0 <= i < |lines[1..]| ==> lines[1..][i] == lines[i + 1];
  }

  lemma {:induction false} OneLineEdited(line: string, n: string, v: string, names: set<string>)
    requires SuffixOnly(names) && n in names && CleanValue(v, names) && TidyLine(line, names)
    ensures var edited := EditLine(line, n, n + "=" + v);
      && TidyLine(edited, names)
      && Rebound(LineBinding(line), LineBinding(edited), n, v)
      && (Contains(line, n) <==> Mentions(LineBinding(line), n))
  {
    hide Contains, EditLine, LineBinding, CleanValue;
    if line == [] {
      EditNothing(n, n + "=" + v);
      EmptyLine(n);
    } else {
      var m, w :| m in names && CleanValue(w, names) && line == m + "=" + w;
      EditedLine(m, w, n, v, names);
      BindingOf(m, w);
      BindingOf(m, v);
      CleanContains(w, n, names);
      LineContains(m, w, n);
    }
  }

  lemma {:induction false} CleanContains(w: string, n: string, names: set<string>)
    requires CleanValue(w, names) && n in names
    ensures !Contains(w, n)
  {
  }

  lemma {:induction false} EmptyLine(n: string)
    requires n != []
    ensures LineBinding([]) == map[] && !Contains([], n)
  {
  }

  lemma {:induction false} TidyIsOneLine(line: string, names: set<string>)
    requires SuffixOnly(names) && TidyLine(line, names)
    ensures OneLine(line)
  {
    if line != [] {
      var m, w :| m in names && CleanValue(w, names) && line == m + "=" + w;
      assert OneLine(m) && OneLine(w);
    }
  }

  /** Trimming leaves the assignment of a clean value alone. */
  lemma {:induction false} AssignedClean(n: string, v: string, names: set<string>)
    requires SuffixOnly(names) && n in names && CleanValue(v, names)
    ensures Assigned(n, v) == n + "=" + v == Trim(Assigned(n, v))
    ensures OneLine(n + "=" + v) && TidyLine(n + "=" + v, names)
  {
    hide Contains, Trim, TidyLine;
    ValueIsNotAssigned(n, v, names);
    assert IsName(n);
    TrimNothing(n + "=" + v);
    TidyByDefinition(n, v, names);
    TidyIsOneLine(n + "=" + v, names);
  }

  lemma {:induction false} ValueIsNotAssigned(n: string, v: string, names: set<string>)
    requires n in names && CleanValue(v, names)
    ensures !(n + "=" <= v)
  {
    assert n + "=" <= v ==> n <= v;
  }

  lemma {:induction false} TrimNothing(s: string)
    requires s != [] && !IsSpace(s[0]) && !IsSpace(s[|s| - 1])
    ensures Trim(s) == s
  {
  }

  lemma {:induction false} TidyByDefinition(n: string, v: string, names: set<string>)
    requires n in names && CleanValue(v, names)
    ensures TidyLine(n + "=" + v, names)
  {
    hide Contains;
  }

  lemma {:induction false} BindingsSnoc(lines: seq<string>, line: string)
    ensures LineBindings(lines + [line]) == LineBindings(lines) + LineBinding(line)
  {
    hide LineBinding;
    if lines == [] {
      assert lines + [line] == [line] && [line][1..] == [];
      assert LineBinding(line) + map[] == LineBinding(line) == map[] + LineBinding(line);
    } else {
      assert (lines + [line])[0] == lines[0] && (lines + [line])[1..] == lines[1..] + [line];
      BindingsSnoc(lines[1..], line);
      MapAssoc(LineBinding(lines[0]), LineBindings(lines[1..]), LineBinding(line));
    }
  }

  lemma {:induction false} MapAssoc(a: map<string, string>, b: map<string, string>, c: map<string, string>)
    ensures a + b + c == a + (b + c)
  {
  }

  lemma {:induction false} JoinSnoc(lines: seq<string>, line: string)
    requires lines != []
    ensures Join(lines + [line]) == Join(lines) + "\n" + line
  {
    if |lines| == 1 {
      assert lines + [line] == [lines[0], line];
    } else {
      assert (lines + [line])[1..] == lines[1..] + [line];
      JoinSnoc(lines[1..], line);
    }
  }

  lemma {:induction false} JoinedBindings(lines: seq<string>, names: set<string>)
    requires SuffixOnly(names) && lines != [] && TidyLines(lines, names)
    ensures Tidy(Some(Join(lines)), names) && Bindings(Some(Join(lines))) == LineBindings(lines)
    ensures forall i :: 0 <= i < |lines| ==> OneLine(lines[i])
  {
    forall i | 0 <= i < |lines|
      ensures OneLine(lines[i]) && NoNewline(lines[i])
    {
      assert TidyLine(lines[i], names);
      TidyIsOneLine(lines[i], names);
    }
    LinesOfJoin(lines);
  }

  /** On a tidy file, `modify` does to the text what `ModifiedMap` does to the variables. */
  lemma {:induction false} ModifyRefinesMap(contents: Option<string>, n: string, v: string, names: set<string>)
    requires SuffixOnly(names) && n in names && CleanValue(v, names) && Tidy(contents, names)
    ensures n != [] && Tidy(ModifiedFile(contents, n, v), names)
    ensures Bindings(ModifiedFile(contents, n, v)) == ModifiedMap(Bindings(contents), n, v)
  {
    hide Contains, Replace, LineBindings, LineBinding, TidyLine, Lines, Join, CleanValue, EditLine, EditLines, Assigned;
    assert IsName(n);
    AssignedClean(n, v, names);
    BindingOf(n, v);
    var line := n + "=" + v;
    if contents.None? {
      SingleLine(line);
      JoinedBindings([line], names);
    } else {
      var lines := Lines(contents.value);
      JoinLines(contents.value);
      JoinedBindings(lines, names);
      EditedLines(lines, n, v, names);
      NameIsOneLine(n);
      ContainsByLine(lines, n);
      if Contains(contents.value, n) {
        ReplaceByLine(lines, n, line);
        JoinedBindings(EditLines(lines, n, line), names);
      } else {
        JoinSnoc(lines, line);
        BindingsSnoc(lines, line);
        JoinedBindings(lines + [line], names);
      }
    }
  }

  /** A value that is given together with its name is written like the value alone. */
  lemma {:induction false} NamedValue(contents: Option<string>, n: string, v: string)
    requires n != [] && !(n + "=" <= v)
    ensures ModifiedFile(contents, n, n + "=" + v) == ModifiedFile(contents, n, v)
  {
    hide Contains, Replace, Trim;
  }

  /** So it sets the variable to what follows the name, as far as the variable is set at all. */
  lemma {:induction false} NamedRefinesMap(contents: Option<string>, n: string, v: string, names: set<string>)
    requires SuffixOnly(names) && n in names && CleanValue(v, names) && Tidy(contents, names)
    ensures n != [] && Tidy(ModifiedFile(contents, n, n + "=" + v), names)
    ensures Bindings(ModifiedFile(contents, n, n + "=" + v)) == ModifiedMap(Bindings(contents), n, v)
  {
    hide Tidy, Bindings, ModifiedMap, ModifiedFile, CleanValue, SuffixOnly;
    ModifyRefinesMap(contents, n, v, names);
    ValueIsNotAssigned(n, v, names);
    NamedValue(contents, n, v);
  }

  lemma {:induction false} TrimEndSpaces(s: string, blanks: string)
    requires forall i :: 0 <= i < |blanks| ==> IsSpace(blanks[i])
    ensures TrimEnd(s + blanks) == TrimEnd(s)
  {
    if blanks == [] {
      assert s + blanks == s;
    } else {
      var n := |blanks| - 1;
      assert (s + blanks)[..|s| + n] == s + blanks[..n];
      TrimEndSpaces(s, blanks[..n]);
    }
  }

  /** Blanks behind a value are dropped where the variable is replaced, and kept where it is added. */
  lemma {:induction false} TrailingBlanks(source: string, n: string, v: string, blanks: string)
    requires n != [] && !IsSpace(n[0]) && forall i :: 0 <= i < |blanks| ==> IsSpace(blanks[i])
    requires !(n + "=" <= v + blanks)
    ensures Contains(source, n) ==> Modified(source, n, v + blanks) == Modified(source, n, v)
    ensures !Contains(source, n) ==> Modified(source, n, v + blanks) == Modified(source, n, v) + blanks
  {
    hide Contains, Replace, IsSpace;
    assert n + "=" <= v ==> n + "=" <= v + blanks;
    var s := n + "=" + v;
    assert n + "=" + (v + blanks) == s + blanks;
    TrimStartKeeps(s);
    TrimStartKeeps(s + blanks);
    TrimEndSpaces(s, blanks);
  }

  lemma {:induction false} TrimStartKeeps(s: string)
    requires s != [] && !IsSpace(s[0])
    ensures Trim(s) == TrimEnd(s)
  {
  }

  lemma {:induction false} SingleLine(line: string)
    ensures Join([line]) == line && LineBindings([line]) == LineBinding(line)
  {
    assert [line][1..] == [];
  }

  lemma {:induction false} NameIsOneLine(n: string)
    requires IsName(n)
    ensures OneLine(n)
  {
  }

  /******* Runs of edits *******/

  datatype Write = Write(name: string, value: string)

  function RunMap(m: map<string, string>, writes: seq<Write>): map<string, string>
    decreases |writes|
  {
    if writes == [] then m
    else RunMap(ModifiedMap(m, writes[0].name, writes[0].value), writes[1..])
  }

  function RunFile(contents: Option<string>, writes: seq<Write>): Option<string>
    requires forall i :: 0 <= i < |writes| ==> writes[i].name != []
    decreases |writes|
  {
    if writes == [] then contents
    else RunFile(ModifiedFile(contents, writes[0].name, writes[0].value), writes[1..])
  }

  /** A name is written before every other name in which it occurs. */
  ghost predicate ContainedFirst(writes: seq<Write>) {
    forall i, j :: 0 <= i < j < |writes| ==>
      !Contains(writes[i].name, writes[j].name) || writes[i].name == writes[j].name
  }

  /** A name that occurs in the name of a variable that is set is itself set. */
  ghost predicate Closed(m: map<string, string>, writes: seq<Write>) {
    forall i, k :: 0 <= i < |writes| && k in m && Contains(k, writes[i].name) ==> writes[i].name in m
  }

  ghost predicate IsLast(writes: seq<Write>, i: nat) {
    i < |writes| && forall j :: i < j < |writes| ==> writes[j].name != writes[i].name
  }

  lemma {:induction false} ContainsItself(n: string)
    ensures Contains(n, n)
  {
  }

  /** One edit sets its own variable exactly when that is set already or its name occurs in no other one's. */
  lemma {:induction false} ModifyBinds(m: map<string, string>, n: string, v: string)
    ensures var after := ModifiedMap(m, n, v);
      (n in after && after[n] == v) <==> n in m || !exists k :: k in m && Contains(k, n)
  {
    ContainsItself(n);
  }

  /** One edit changes no variable in whose name the edited name does not occur. */
  lemma {:induction false} ModifyKeeps(m: map<string, string>, n: string, v: string, k: string)
    requires !Contains(k, n)
    ensures var after := ModifiedMap(m, n, v);
      (k in after <==> k in m) && (k in m ==> after[k] == m[k])
  {
    ContainsItself(n);
  }

  lemma {:induction false} RunKeeps(m: map<string, string>, writes: seq<Write>, k: string)
    requires forall i :: 0 <= i < |writes| ==> !Contains(k, writes[i].name)
    ensures var after := RunMap(m, writes);
      (k in after <==> k in m) && (k in m ==> after[k] == m[k])
    decreases |writes|
  {
    hide Contains, ModifiedMap;
    if writes != [] {
      ModifyKeeps(m, writes[0].name, writes[0].value, k);
      RunKeeps(ModifiedMap(m, writes[0].name, writes[0].value), writes[1..], k);
    }
  }

  lemma {:induction false} ClosedStays(m: map<string, string>, writes: seq<Write>)
    requires writes != [] && Closed(m, writes) && ContainedFirst(writes)
    ensures Closed(ModifiedMap(m, writes[0].name, writes[0].value), writes[1..])
  {
    hide Contains;
    var w := writes[0];
    var after := ModifiedMap(m, w.name, w.value);
    ContainsItself(w.name);
    forall i, k | 0 <= i < |writes[1..]| && k in after && Contains(k, writes[1..][i].name)
      ensures writes[1..][i].name in after
    {
      assert writes[1..][i] == writes[i + 1];
      if k in m {
        assert writes[i + 1].name in m;
      } else {
        assert k == w.name;
      }
    }
  }

  /** After a run in this order, every written variable has the value that was written to it last. */
  lemma {:induction false} RunBindsLast(m: map<string, string>, writes: seq<Write>, i: nat)
    requires ContainedFirst(writes) && Closed(m, writes) && IsLast(writes, i)
    ensures var after := RunMap(m, writes);
      writes[i].name in after && after[writes[i].name] == writes[i].value
    decreases |writes|
  {
    hide Contains, ModifiedMap;
    var w, rest := writes[0], writes[1..];
    var next := ModifiedMap(m, w.name, w.value);
    ClosedStays(m, writes);
    if i > 0 {
      assert rest[i - 1] == writes[i];
      RunBindsLast(next, rest, i - 1);
    } else {
      ContainsItself(w.name);
      ModifyBinds(m, w.name, w.value);
      forall j | 0 <= j < |rest|
        ensures !Contains(w.name, rest[j].name)
      {
        assert rest[j] == writes[j + 1];
      }
      RunKeeps(next, rest, w.name);
    }
  }

  /** The run leaves a file from which it can start again. */
  lemma {:induction false} RunStaysClosed(m: map<string, string>, writes: seq<Write>)
    requires ContainedFirst(writes) && Closed(m, writes)
    ensures Closed(RunMap(m, writes), writes)
  {
    hide Contains, RunMap;
    var after := RunMap(m, writes);
    forall i | 0 <= i < |writes|
      ensures writes[i].name in after
    {
      var j := LastWrite(writes, i);
      RunBindsLast(m, writes, j);
    }
  }

  lemma {:induction false} LastWrite(writes: seq<Write>, i: nat) returns (j: nat)
    requires i < |writes|
    ensures IsLast(writes, j) && writes[j].name == writes[i].name
    decreases |writes| - i
  {
    if k :| i < k < |writes| && writes[k].name == writes[i].name {
      j := LastWrite(writes, k);
    } else {
      j := i;
    }
  }

  ghost predicate CleanWrites(writes: seq<Write>, names: set<string>) {
    forall i :: 0 <= i < |writes| ==> writes[i].name in names && CleanValue(writes[i].value, names)
  }

  lemma {:induction false} RunRefinesMap(contents: Option<string>, writes: seq<Write>, names: set<string>)
    requires SuffixOnly(names) && CleanWrites(writes, names) && Tidy(contents, names)
    ensures forall i :: 0 <= i < |writes| ==> writes[i].name != []
    ensures Tidy(RunFile(contents, writes), names)
    ensures Bindings(RunFile(contents, writes)) == RunMap(Bindings(contents), writes)
    decreases |writes|
  {
    hide Tidy, Bindings, ModifiedMap, ModifiedFile, CleanValue;
    assert forall i :: 0 <= i < |writes| ==> IsName(writes[i].name);
    if writes != [] {
      var w := writes[0];
      ModifyRefinesMap(contents, w.name, w.value, names);
      RunRefinesMap(ModifiedFile(contents, w.name, w.value), writes[1..], names);
    }
  }

  /**
   A run of `modify` calls that writes every name before the names that end in it, on a file that does not
   exist yet or that such a run has left: every written variable ends with its last value, every variable in
   whose name none of the written names occurs is untouched, and the run can be repeated.
   */
  lemma {:induction false} RunOfModifies(contents: Option<string>, writes: seq<Write>, names: set<string>)
    requires SuffixOnly(names) && CleanWrites(writes, names) && Tidy(contents, names)
    requires ContainedFirst(writes) && Closed(Bindings(contents), writes)
    ensures forall i :: 0 <= i < |writes| ==> writes[i].name != []
    ensures var after := Bindings(RunFile(contents, writes));
      && (forall i: nat :: IsLast(writes, i) ==> writes[i].name in after && after[writes[i].name] == writes[i].value)
      && (forall k :: (forall i :: 0 <= i < |writes| ==> !Contains(k, writes[i].name)) ==>
            (k in after <==> k in Bindings(contents)) && (k in after ==> after[k] == Bindings(contents)[k]))
      && Tidy(RunFile(contents, writes), names) && Closed(after, writes)
  {
    hide Tidy, Bindings, RunMap, RunFile, CleanValue, Contains, Closed, ContainedFirst;
    RunRefinesMap(contents, writes, names);
    RunStaysClosed(Bindings(contents), writes);
    forall i: nat | IsLast(writes, i)
      ensures var after := RunMap(Bindings(contents), writes);
        writes[i].name in after && after[writes[i].name] == writes[i].value
    {
      RunBindsLast(Bindings(contents), writes, i);
    }
    forall k | forall i :: 0 <= i < |writes| ==> !Contains(k, writes[i].name)
      ensures var after := RunMap(Bindings(contents), writes);
        (k in after <==> k in Bindings(contents)) && (k in after ==> after[k] == Bindings(contents)[k])
    {
      RunKeeps(Bindings(contents), writes, k);
    }
  }
}
