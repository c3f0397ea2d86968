/**
 The conditions on SQL formatters can be met: a formatter that removes all white space meets them.
 */
module SqlLayout {
  import opened Text
  import opened SqlText
  import opened SqlFormatTwice

  function Squeeze(s: string): string {
    if s == [] then [] else (if IsSpace(s[0]) then [] else [s[0]]) + Squeeze(s[1..])
  }

  /** A formatter for which only the characters other than white space matter. */
  function Compact(query: string): string {
    if Squeeze(query) == [] then ";" else Squeeze(query)
  }

  lemma {:induction false} SqueezeConcat(a: string, b: string)
    ensures Squeeze(a + b) == Squeeze(a) + Squeeze(b)
  {
    hide IsSpace;
    if a == [] {
      assert a + b == b;
    } else {
      assert (a + b)[0] == a[0] && (a + b)[1..] == a[1..] + b;
      SqueezeConcat(a[1..], b);
    }
  }

  lemma {:induction false} SqueezeSpace(s: string)
    requires forall i :: 0 <= i < |s| ==> IsSpace(s[i])
    ensures Squeeze(s) == []
  {
    hide IsSpace;
    if s != [] {
      SqueezeSpace(s[1..]);
    }
  }

  lemma {:induction false} SqueezeOnce(s: string)
    ensures Squeeze(Squeeze(s)) == Squeeze(s)
    ensures forall i :: 0 <= i < |Squeeze(s)| ==> !IsSpace(Squeeze(s)[i])
  {
    hide IsSpace;
    if s != [] {
      SqueezeOnce(s[1..]);
      var rest := Squeeze(s[1..]);
      if IsSpace(s[0]) {
        assert Squeeze(s) == [] + rest == rest;
      } else {
        assert Squeeze(s) == [s[0]] + rest && ([s[0]] + rest)[1..] == rest;
      }
    }
  }

  /** Lines that differ in white space only join to texts that do. */
  lemma {:induction false} SqueezeLines(a: seq<string>, b: seq<string>)
    requires |a| == |b| && forall i :: 0 <= i < |a| ==> Squeeze(a[i]) == Squeeze(b[i])
    ensures Squeeze(Join(a)) == Squeeze(Join(b))
  {
    hide Squeeze;
    if |a| > 1 {
      SqueezeLines(a[1..], b[1..]);
      SqueezeConcat(a[0] + "\n", Join(a[1..]));
      SqueezeConcat(a[0], "\n");
      SqueezeConcat(b[0] + "\n", Join(b[1..]));
      SqueezeConcat(b[0], "\n");
    }
  }

  lemma {:induction false} SqueezePrefix(space: string, s: string)
    requires forall i :: 0 <= i < |space| ==> IsSpace(space[i])
    ensures Squeeze(space + s) == Squeeze(s)
  {
    hide IsSpace, Squeeze;
    SqueezeConcat(space, s);
    SqueezeSpace(space);
    assert [] + Squeeze(s) == Squeeze(s);
  }

  lemma {:induction false} SqueezeDedent(query: string)
    requires NoBlankLine(query)
    ensures Squeeze(Dedent(query)) == Squeeze(query)
  {
    hide Lines, Squeeze, Search, IsSpace, Join;
    var lines := Lines(query);
    var m := MinIndent(lines);
    forall i | 0 <= i < |lines|
      ensures Squeeze(SliceFrom(lines[i], m)) == Squeeze(lines[i])
    {
      SlicedLine(lines[i], m);
      assert lines[i] == lines[i][..m] + lines[i][m..];
      SqueezePrefix(lines[i][..m], lines[i][m..]);
    }
    SqueezeLines(SlicedFrom(lines, m), lines);
    JoinLines(query);
  }

  lemma {:induction false} SqueezeIndent(query: string, n: nat)
    ensures Squeeze(Embedded(query, n)) == Squeeze(query)
  {
    hide Lines, Squeeze, Join;
    var lines := Lines(query);
    forall i | 0 <= i < |lines|
      ensures Squeeze(Indented(lines, n)[i]) == Squeeze(lines[i])
    {
      SqueezePrefix(Spaces(n), lines[i]);
    }
    SqueezeLines(Indented(lines, n), lines);
    JoinLines(query);
    var text := AddIndent(query, n);
    assert "\n" + text + "\n" + Spaces(n) == "\n" + (text + ("\n" + Spaces(n)));
    SqueezePrefix("\n", text + ("\n" + Spaces(n)));
    SqueezeConcat(text, "\n" + Spaces(n));
    SqueezeSpace("\n" + Spaces(n));
    assert Squeeze(text) + [] == Squeeze(text);
  }

  lemma {:induction false} CompactLine(query: string)
    ensures NoBlankLine(Compact(query)) && Compact(Compact(query)) == Compact(query)
  {
    hide Lines, IsSpace;
    var c := Compact(query);
    SqueezeOnce(query);
    SemicolonStays();
    assert !IsSpace(c[0]);
    NewlineIsSpace();
    assert NoNewline(c);
    OneLineText(c);
  }

  lemma {:induction false} SemicolonStays()
    ensures Squeeze(";") == ";" && !IsSpace(';') && NoNewline(";")
  {
  }

  lemma {:induction false} NewlineIsSpace()
    ensures IsSpace('\n')
  {
  }

  lemma {:induction false} CompactIsLayoutBlind()
    ensures LayoutBlind(Compact)
  {
    hide Squeeze, Dedent, Embedded, NoBlankLine;
    forall q
      ensures Compact(Compact(q)) == Compact(q) && NoBlankLine(Compact(q))
    {
      CompactLine(q);
    }
    forall q | NoBlankLine(q)
      ensures Compact(Dedent(q)) == Compact(q)
    {
      SqueezeDedent(q);
    }
    forall q, n: nat
      ensures Compact(Embedded(q, n)) == Compact(q)
    {
      SqueezeIndent(q, n);
    }
  }
}
