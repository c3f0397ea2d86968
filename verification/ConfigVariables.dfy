/**
 Flattening a configuration tree into environment variables, and what the variables of
 merged sources are.
 */
module ConfigVariables {
  import opened Text
  import opened ConfigTree

  /** The variable name that a path gives: its steps in upper case, joined by underscores. */
  function Name(path: seq<string>): string {
    if path == [] then [] else Extended(Upper(path[0]), path[1..])
  }

  function Extended(name: string, rest: seq<string>): string
    decreases |rest|
  {
    if rest == [] then name else Extended(name + "_" + Upper(rest[0]), rest[1..])
  }

  /** `vars` holds the variables of the leaves of `config`; where names collide it holds one of them. */
  ghost predicate Describes(config: Value, prefix: string, done: set<string>, vars: map<string, string>) {
    && (forall n :: n in vars ==> Explained(config, prefix, done, n, vars[n]))
    && (forall path :: path != [] && path[0] in done && LeafInside(config, path).Some? ==>
          Extended(prefix + Upper(path[0]), path[1..]) in vars)
  }

  ghost predicate Explained(config: Value, prefix: string, done: set<string>, n: string, text: string) {
    exists path ::
      && path != [] && path[0] in done && LeafInside(config, path) == Some(text)
      && Extended(prefix + Upper(path[0]), path[1..]) == n
  }

  /** Like `Describes`, for the value of one entry, whose variable name so far is `name`. */
  ghost predicate DescribesValue(v: Value, name: string, vars: map<string, string>) {
    && (forall n :: n in vars ==> ExplainedValue(v, name, n, vars[n]))
    && (forall rest :: HasLeaf(v, rest) ==> Extended(name, rest) in vars)
  }

  ghost predicate ExplainedValue(v: Value, name: string, n: string, text: string) {
    exists rest :: LeafAt(v, rest) == Some(text) && Extended(name, rest) == n
  }

  lemma {:induction false} AddEntry(
    config: Value, prefix: string, done: set<string>, vars: map<string, string>, key: string,
    more: map<string, string>)
    requires key in Entries(config) && Describes(config, prefix, done, vars)
    requires DescribesValue(Entries(config)[key], prefix + Upper(key), more)
    ensures Describes(config, prefix, done + {key}, vars + more)
  {
    hide LeafAt, Extended, Upper;
    var v := Entries(config)[key];
    forall n | n in vars + more
      ensures Explained(config, prefix, done + {key}, n, (vars + more)[n])
    {
      if n in more {
        var rest :| LeafAt(v, rest) == Some(more[n]) && Extended(prefix + Upper(key), rest) == n;
        assert ([key] + rest)[1..] == rest;
        assert LeafInside(config, [key] + rest) == Some(more[n]);
      } else {
        assert Explained(config, prefix, done, n, vars[n]);
        var path :| path != [] && path[0] in done && LeafInside(config, path) == Some(vars[n])
                    && Extended(prefix + Upper(path[0]), path[1..]) == n;
        assert path[0] in done + {key};
      }
    }
    forall path | path != [] && path[0] in done + {key} && LeafInside(config, path).Some?
      ensures Extended(prefix + Upper(path[0]), path[1..]) in vars + more
    {
      if path[0] == key {
        assert HasLeaf(v, path[1..]);
      }
    }
  }

  lemma {:induction false} NestedObject(v: Value, name: string, vars: map<string, string>)
    requires v.Table? && Describes(v, name + "_", Entries(v).Keys, vars)
    ensures DescribesValue(v, name, vars)
  {
    hide LeafAt, Upper;
    forall n | n in vars
      ensures ExplainedValue(v, name, n, vars[n])
    {
      assert Explained(v, name + "_", Entries(v).Keys, n, vars[n]);
      var path :| path != [] && path[0] in Entries(v).Keys && LeafInside(v, path) == Some(vars[n])
                  && Extended(name + "_" + Upper(path[0]), path[1..]) == n;
      TableLeaf(v, path);
      assert Extended(name, path) == n;
    }
    forall rest | HasLeaf(v, rest)
      ensures Extended(name, rest) in vars
    {
      TableLeaf(v, rest);
    }
  }

  lemma {:induction false} TableLeaf(v: Value, path: seq<string>)
    requires v.Table?
    ensures LeafAt(v, path) == LeafInside(v, path)
  {
  }

  lemma {:induction false} SingleVariable(v: Value, name: string)
    requires v.Scalar? || (v.Array? && !IsNested(v))
    ensures LeafAt(v, []).Some? && DescribesValue(v, name, map[name := LeafAt(v, []).value])
  {
    forall rest | HasLeaf(v, rest)
      ensures rest == []
    {
    }
    assert Extended(name, []) == name;
  }

  /** Like `DescribesValue`, for the first `i` elements of an array of objects. */
  ghost predicate DescribesElements(elems: seq<Value>, name: string, i: nat, vars: map<string, string>)
    requires i <= |elems|
  {
    && (forall n :: n in vars ==> ExplainedElement(elems, name, i, n, vars[n]))
    && (forall j, rest :: 0 <= j < i && LeafInside(elems[j], rest).Some? ==>
          Extended(name + "_" + Decimal(j), rest) in vars)
  }

  ghost predicate ExplainedElement(elems: seq<Value>, name: string, i: nat, n: string, text: string)
    requires i <= |elems|
  {
    exists j, rest ::
      0 <= j < i && LeafInside(elems[j], rest) == Some(text) && Extended(name + "_" + Decimal(j), rest) == n
  }

  lemma {:induction false} AddElement(
    elems: seq<Value>, name: string, i: nat, vars: map<string, string>, more: map<string, string>)
    requires i < |elems| && DescribesElements(elems, name, i, vars)
    requires Describes(elems[i], name + "_" + Decimal(i) + "_", Entries(elems[i]).Keys, more)
    ensures DescribesElements(elems, name, i + 1, vars + more)
  {
    hide LeafAt, Upper, Decimal;
    var prefix := name + "_" + Decimal(i) + "_";
    forall n | n in vars + more
      ensures ExplainedElement(elems, name, i + 1, n, (vars + more)[n])
    {
      if n in more {
        assert Explained(elems[i], prefix, Entries(elems[i]).Keys, n, more[n]);
        var path :| path != [] && path[0] in Entries(elems[i]).Keys && LeafInside(elems[i], path) == Some(more[n])
                    && Extended(prefix + Upper(path[0]), path[1..]) == n;
        assert Extended(name + "_" + Decimal(i), path) == n;
      } else {
        assert ExplainedElement(elems, name, i, n, vars[n]);
      }
    }
    forall j, rest | 0 <= j < i + 1 && LeafInside(elems[j], rest).Some?
      ensures Extended(name + "_" + Decimal(j), rest) in vars + more
    {
      if j == i {
        assert Extended(name + "_" + Decimal(i), rest) == Extended(prefix + Upper(rest[0]), rest[1..]);
      }
    }
  }

  lemma {:induction false} AllElements(v: Value, name: string, vars: map<string, string>)
    requires v.Array? && IsNested(v) && DescribesElements(v.elems, name, |v.elems|, vars)
    ensures DescribesValue(v, name, vars)
  {
    var elems := v.elems;
    forall n | n in vars
      ensures ExplainedValue(v, name, n, vars[n])
    {
      assert ExplainedElement(elems, name, |elems|, n, vars[n]);
      var j, rest :| 0 <= j < |elems| && LeafInside(elems[j], rest) == Some(vars[n])
                     && Extended(name + "_" + Decimal(j), rest) == n;
      ElementLeaf(v, j, rest);
      ElementName(name, j, rest);
    }
    forall path | HasLeaf(v, path)
      ensures Extended(name, path) in vars
    {
      var j := NumeralIndex(|elems|, path[0]);
      assert path == [Decimal(j)] + path[1..];
      ElementName(name, j, path[1..]);
    }
  }

  lemma {:induction false} ElementLeaf(v: Value, j: nat, rest: seq<string>)
    requires v.Array? && IsNested(v) && j < |v.elems|
    ensures LeafAt(v, [Decimal(j)] + rest) == LeafInside(v.elems[j], rest)
  {
    var path := [Decimal(j)] + rest;
    assert path[0] in Numerals(|v.elems|) && path[1..] == rest;
    DecimalInjective(j, NumeralIndex(|v.elems|, path[0]));
  }

  lemma {:induction false} ElementName(name: string, j: nat, rest: seq<string>)
    ensures Extended(name, [Decimal(j)] + rest) == Extended(name + "_" + Decimal(j), rest)
  {
    UpperNumeral(Decimal(j));
    assert ([Decimal(j)] + rest)[1..] == rest;
  }

  /** `collectVariables`: the keys may come in any order, later variables replace earlier ones. */
  method CollectVariables(config: Value, prefix: string) returns (variables: map<string, string>)
    ensures Describes(config, prefix, Entries(config).Keys, variables)
    decreases config
  {
    variables := map[];
    var entries := Entries(config);
    var keys := entries.Keys;
    while keys != {}
      invariant keys <= entries.Keys
      invariant Describes(config, prefix, entries.Keys - keys, variables)
      decreases keys
    {
      var key :| key in keys;
      var v := entries[key];
      var variableName := prefix + Upper(key);
      var more: map<string, string> := map[];
      if v.Array? {
        if IsNested(v) {
          assert DescribesElements(v.elems, variableName, 0, more);
          for i := 0 to |v.elems|
            invariant DescribesElements(v.elems, variableName, i, more)
          {
            ElementSmaller(config, key, i);
            var nested := CollectVariables(v.elems[i], variableName + "_" + Decimal(i) + "_");
            AddElement(v.elems, variableName, i, more, nested);
            more := more + nested;
          }
          AllElements(v, variableName, more);
        } else {
          SingleVariable(v, variableName);
          more := map[variableName := "\"" + JoinComma(v.elems) + "\""];
        }
      } else if v.Table? {
        more := CollectVariables(v, variableName + "_");
        NestedObject(v, variableName, more);
      } else {
        SingleVariable(v, variableName);
        more := map[variableName := v.text];
      }
      AddEntry(config, prefix, entries.Keys - keys, variables, key, more);
      assert entries.Keys - (keys - {key}) == entries.Keys - keys + {key};
      variables := variables + more;
      keys := keys - {key};
    }
    assert entries.Keys - {} == entries.Keys;
  }

  lemma {:induction false} ElementSmaller(config: Value, key: string, i: nat)
    requires key in Entries(config) && Entries(config)[key].Array? && i < |Entries(config)[key].elems|
    ensures Entries(config)[key].elems[i] < config
  {
  }

  /******* The variables of merged sources *******/

  /** No two leaves of the tree have the same variable name. */
  ghost predicate NoCollision(config: Value) {
    forall p, q :: HasLeaf(config, p) && HasLeaf(config, q) && Name(p) == Name(q) ==> p == q
  }

  /** Without collisions the variables are exactly the leaves, one for each path, whatever the order of the keys. */
  lemma {:induction false} VariablesAreLeaves(config: Value, vars: map<string, string>)
    requires config.Table? && NoCollision(config)
    requires Describes(config, "", Entries(config).Keys, vars)
    ensures forall path :: HasLeaf(config, path) ==>
      Name(path) in vars && LeafAt(config, path) == Some(vars[Name(path)])
    ensures forall n :: n in vars ==> exists path :: HasLeaf(config, path) && Name(path) == n
  {
    hide LeafAt, Upper;
    forall n | n in vars
      ensures exists path :: HasLeaf(config, path) && Name(path) == n && LeafAt(config, path) == Some(vars[n])
    {
      assert Explained(config, "", Entries(config).Keys, n, vars[n]);
      var path :| path != [] && path[0] in Entries(config).Keys && LeafInside(config, path) == Some(vars[n])
                  && Extended("" + Upper(path[0]), path[1..]) == n;
      TableLeaf(config, path);
      assert "" + Upper(path[0]) == Upper(path[0]);
      assert Name(path) == n;
    }
    forall path | HasLeaf(config, path)
      ensures Name(path) in vars && LeafAt(config, path) == Some(vars[Name(path)])
    {
      TableLeaf(config, path);
      assert "" + Upper(path[0]) == Upper(path[0]);
    }
  }

  /**
   The variables of a table that stands for several sources: one for each variable of any source, bound to
   the value of the last source that has it.
   */
  lemma {:induction false} RepresentedVariables(v: Value, sources: seq<Value>, vars: map<string, string>)
    requires Represents(v, sources) && NoCollision(v) && Describes(v, "", Entries(v).Keys, vars)
    ensures forall path :: LastLeaf(sources, path).Some? ==>
      Name(path) in vars && LastLeaf(sources, path) == Some(vars[Name(path)])
    ensures forall n :: n in vars ==> exists path :: LastLeaf(sources, path).Some? && Name(path) == n
  {
    hide LeafAt, Describes, NoCollision;
    VariablesAreLeaves(v, vars);
    forall n | n in vars
      ensures exists path :: LastLeaf(sources, path).Some? && Name(path) == n
    {
      var path :| HasLeaf(v, path) && Name(path) == n;
      assert LastLeaf(sources, path).Some?;
    }
  }

  /******* The variables of arrays *******/

  /** The text cut at its commas. */
  function Cut(s: string): (parts: seq<string>)
    ensures parts != []
  {
    if s == [] then [""]
    else
      var rest := Cut(s[1..]);
      if s[0] == ',' then [""] + rest else [[s[0]] + rest[0]] + rest[1..]
  }

  lemma {:induction false} CutAfter(text: string, rest: string)
    requires ',' !in text
    ensures Cut(text + "," + rest) == [text] + Cut(rest)
    ensures Cut(text) == [text]
  {
    if text == [] {
      assert text + "," + rest == "," + rest && ("," + rest)[1..] == rest;
    } else {
      CutAfter(text[1..], rest);
      var s := text + "," + rest;
      assert s[0] == text[0] && s[1..] == text[1..] + "," + rest;
      assert [text[0]] + text[1..] == text;
    }
  }

  /** The value texts of a plain array. */
  ghost predicate Lists(elems: seq<Value>, texts: seq<string>) {
    |elems| == |texts| && forall i :: 0 <= i < |texts| ==> elems[i] == Scalar(texts[i])
  }

  lemma {:induction false} JoinCut(elems: seq<Value>, texts: seq<string>)
    requires Lists(elems, texts) && texts != [] && forall i :: 0 <= i < |texts| ==> ',' !in texts[i]
    ensures Cut(JoinComma(elems)) == texts
    decreases |texts|
  {
    hide Cut;
    var first := texts[0];
    assert elems[0] == Scalar(first);
    CutAfter(first, "");
    if |texts| == 1 {
      assert first + [] == first && texts == [first];
    } else {
      JoinCut(elems[1..], texts[1..]);
      CutAfter(first, JoinComma(elems[1..]));
      Assoc(first, ",", JoinComma(elems[1..]));
      assert texts == [first] + texts[1..];
    }
  }

  /** A plain array is one variable: its elements between quotes, with commas between them. */
  lemma {:induction false} PlainArray(elems: seq<Value>, texts: seq<string>)
    requires Lists(elems, texts)
    ensures LeafAt(Array(elems), []).Some? && forall rest :: rest != [] ==> LeafAt(Array(elems), rest) == None
    ensures texts == [] ==> LeafAt(Array(elems), []) == Some("\"\"")
    ensures texts != [] && (forall i :: 0 <= i < |texts| ==> ',' !in texts[i]) ==>
      exists s :: LeafAt(Array(elems), []) == Some("\"" + s + "\"") && Cut(s) == texts
  {
    if texts != [] {
      assert elems[0] == Scalar(texts[0]);
      if forall i :: 0 <= i < |texts| ==> ',' !in texts[i] {
        JoinCut(elems, texts);
      }
    } else {
      assert elems == [] && "\"" + [] + "\"" == "\"\"";
    }
  }

  /** An array of objects has the variables of its elements, under their indices. */
  lemma {:induction false} ArrayOfObjects(elems: seq<Value>, j: nat, rest: seq<string>)
    requires j < |elems| && !elems[0].Scalar?
    ensures LeafAt(Array(elems), [Decimal(j)] + rest) == LeafInside(elems[j], rest)
    ensures LeafAt(Array(elems), []) == None
  {
    ElementLeaf(Array(elems), j, rest);
  }

  const SMALL_LETTERS := "abcdefghijklmnopqrstuvwxyz"
  const CAPITALS := "ABCDEFGHIJKLMNOPQRSTUVWXYZ"

  /** The letters of a name become capitals, and its other characters stay. */
  lemma {:induction false} UpperLetters(s: string, i: nat)
    requires i < |s|
    ensures forall k :: 0 <= k < 26 && s[i] == SMALL_LETTERS[k] ==> Upper(s)[i] == CAPITALS[k]
    ensures s[i] !in SMALL_LETTERS ==> Upper(s)[i] == s[i]
  {
    Alphabet();
    if 'a' <= s[i] <= 'z' {
      assert s[i] == SMALL_LETTERS[s[i] as int - 97];
    }
  }

  lemma {:induction false} Alphabet()
    ensures |SMALL_LETTERS| == |CAPITALS| == 26
    ensures forall k :: 0 <= k < 26 ==> SMALL_LETTERS[k] as int == 97 + k && CAPITALS[k] as int == 65 + k
  {
  }
}
