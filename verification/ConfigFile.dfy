/**
 The file that compiling a configuration writes, and what is read from it again.
 */
module ConfigFile {
  import opened Text
  import opened EnvFile

  /** Names without `=` and line feeds, values without line feeds. */
  ghost predicate Printable(variables: map<string, string>) {
    forall n :: n in variables ==> '=' !in n && NoNewline(n) && NoNewline(variables[n])
  }

  /** The lines joined, with a line feed after each. */
  function FileText(lines: seq<string>): string {
    Join(lines + [""])
  }

  lemma {:induction false} OneMoreLine(lines: seq<string>, line: string)
    ensures FileText(lines + [line]) == FileText(lines) + (line + "\n")
  {
    hide Join;
    JoinSnoc(lines + [line], "");
    if lines == [] {
      SingleText(line);
    } else {
      JoinSnoc(lines, line);
      JoinSnoc(lines, "");
    }
  }

  lemma {:induction false} SingleText(line: string)
    ensures Join([] + [line]) == line && Join([] + [""]) == ""
  {
    assert [] + [line] == [line] && [] + [""] == [""];
  }

  lemma {:induction false} TextIsRead(lines: seq<string>)
    requires forall i :: 0 <= i < |lines| ==> NoNewline(lines[i])
    ensures Bindings(Some(FileText(lines))) == LineBindings(lines)
  {
    hide Join, LineBindings, Lines;
    var all := lines + [""];
    LinesOfJoin(all);
    BindingsSnoc(lines, "");
    assert LineBindings(lines) + LineBinding("") == LineBindings(lines);
  }

  lemma {:induction false} PrintedBinding(n: string, v: string)
    requires '=' !in n
    ensures LineBinding(n + "=" + v) == map[n := v]
  {
    NamePartOf(n, v);
    assert (n + "=" + v)[|n| + 1..] == v;
  }

  /** `compileConfig`: one line for each variable, in any order; the file sets exactly these variables. */
  method CompileConfig(variables: map<string, string>) returns (outputFileContents: string)
    ensures Printable(variables) ==> Bindings(Some(outputFileContents)) == variables
  {
    hide Join, LineBindings, Bindings;
    outputFileContents := "";
    ghost var lines: seq<string> := [];
    ghost var done: map<string, string> := map[];
    SingleText("");
    NothingBound();
    var keys := variables.Keys;
    while keys != {}
      invariant keys <= variables.Keys && outputFileContents == FileText(lines)
      invariant done == map n | n in variables && n !in keys :: variables[n]
      invariant Printable(variables) ==>
        (forall i :: 0 <= i < |lines| ==> NoNewline(lines[i])) && LineBindings(lines) == done
      decreases keys
    {
      var key :| key in keys;
      var line := key + "=" + variables[key];
      OneMoreLine(lines, line);
      BindingsSnoc(lines, line);
      if Printable(variables) {
        PrintedBinding(key, variables[key]);
      }
      lines := lines + [line];
      done := done + map[key := variables[key]];
      outputFileContents := outputFileContents + (line + "\n");
      keys := keys - {key};
    }
    assert done == variables;
    if Printable(variables) {
      TextIsRead(lines);
    }
  }

  lemma {:induction false} NothingBound()
    ensures LineBindings([]) == map[]
  {
  }
}
