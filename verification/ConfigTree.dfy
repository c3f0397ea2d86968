/**
 Configuration trees: how sources are merged into one, and how a tree is flattened into
 environment variables.
 */
module ConfigTree {
  import opened Text

  /** What a configuration file parses to. Numbers and booleans are scalars with their printed text. */
  datatype Value = Scalar(text: string) | Array(elems: seq<Value>) | Table(entries: map<string, Value>)

  const EMPTY := Table(map[])

  /******* Merging *******/

  /** `deepExtend` of two objects: tables are merged key by key, everything else is replaced. */
  function Merge(target: Value, source: Value): Value
    decreases source
  {
    if target.Table? && source.Table? then
      Table(map k | k in target.entries.Keys + source.entries.Keys ::
              if k !in source.entries then target.entries[k]
              else if k !in target.entries then source.entries[k]
              else Merge(target.entries[k], source.entries[k]))
    else source
  }

  /** `deepExtend(target, ...sources)` */
  function MergeAll(target: Value, sources: seq<Value>): Value
    decreases |sources|
  {
    if sources == [] then target else MergeAll(Merge(target, sources[0]), sources[1..])
  }

  /******* Leaves *******/

  /** An array is flattened element by element when its first element is an object. */
  predicate IsNested(v: Value) {
    v.Array? && v.elems != [] && !v.elems[0].Scalar?
  }

  function JoinComma(elems: seq<Value>): string {
    if elems == [] then []
    else
      (if elems[0].Scalar? then elems[0].text else [])
      + (if |elems| == 1 then [] else "," + JoinComma(elems[1..]))
  }

  /** What `for (const key in config)` runs over: the keys of a table, or the indices of an array. */
  function Entries(config: Value): (entries: map<string, Value>)
    ensures forall k :: k in entries ==> entries[k] < config
  {
    match config
    case Scalar(_) => map[]
    case Table(entries) => entries
    case Array(elems) => map k | k in Numerals(|elems|) :: elems[NumeralIndex(|elems|, k)]
  }

  function Numerals(n: nat): set<string> {
    set i | 0 <= i < n :: Decimal(i)
  }

  function NumeralIndex(n: nat, k: string): (i: nat)
    requires k in Numerals(n)
    ensures i < n && Decimal(i) == k
  {
    if n > 1 && k in Numerals(n - 1) then NumeralIndex(n - 1, k) else n - 1
  }

  /**
   The value that the path leads to, if it leads to a variable. The elements of an array of objects are
   reached by their index.
   */
  function LeafAt(v: Value, path: seq<string>): Option<string>
    decreases |path|, 1
  {
    match v
    case Scalar(text) => if path == [] then Some(text) else None
    case Table(_) => LeafInside(v, path)
    case Array(elems) =>
      if !IsNested(v) then (if path == [] then Some("\"" + JoinComma(elems) + "\"") else None)
      else if path == [] || path[0] !in Numerals(|elems|) then None
      else LeafInside(elems[NumeralIndex(|elems|, path[0])], path[1..])
  }

  /** The value that a path of at least one step leads to from inside an object. */
  function LeafInside(v: Value, path: seq<string>): Option<string>
    decreases |path|, 0
  {
    if path == [] || path[0] !in Entries(v) then None else LeafAt(Entries(v)[path[0]], path[1..])
  }

  predicate HasLeaf(v: Value, path: seq<string>) {
    LeafAt(v, path).Some?
  }

  /** Every variable of `x` is also one of `y`. */
  ghost predicate Covered(x: Value, y: Value) {
    forall path :: HasLeaf(x, path) ==> HasLeaf(y, path)
  }

  /**
   The later source `b` keeps the shape of the earlier `a`: tables stay tables, and where a value replaces
   another one it has at least its variables.
   */
  ghost predicate Agree(a: Value, b: Value)
    decreases b
  {
    if a.Table? && b.Table? then
      forall k :: k in a.entries && k in b.entries ==> Agree(a.entries[k], b.entries[k])
    else Covered(a, b)
  }

  function Override(earlier: Option<string>, later: Option<string>): Option<string> {
    if later.Some? then later else earlier
  }

  /** Of two sources that agree in shape, the later one decides every variable that it has. */
  lemma {:induction false} MergeOverrides(a: Value, b: Value, path: seq<string>)
    requires Agree(a, b)
    ensures LeafAt(Merge(a, b), path) == Override(LeafAt(a, path), LeafAt(b, path))
    decreases b
  {
    if a.Table? && b.Table? {
      if path != [] {
        var k := path[0];
        if k in a.entries && k in b.entries {
          MergeOverrides(a.entries[k], b.entries[k], path[1..]);
        }
      }
    } else {
      assert HasLeaf(a, path) ==> HasLeaf(b, path);
    }
  }

  /** Agreement in shape is exactly what this takes. */
  lemma {:induction false} OverridesOnlyIfAgree(a: Value, b: Value)
    requires forall path :: LeafAt(Merge(a, b), path) == Override(LeafAt(a, path), LeafAt(b, path))
    ensures Agree(a, b)
    decreases b
  {
    if a.Table? && b.Table? {
      forall k | k in a.entries && k in b.entries
        ensures Agree(a.entries[k], b.entries[k])
      {
        forall path
          ensures LeafAt(Merge(a.entries[k], b.entries[k]), path)
               == Override(LeafAt(a.entries[k], path), LeafAt(b.entries[k], path))
        {
          var whole := [k] + path;
          assert whole[1..] == path;
          assert LeafAt(Merge(a, b), whole) == Override(LeafAt(a, whole), LeafAt(b, whole));
        }
        OverridesOnlyIfAgree(a.entries[k], b.entries[k]);
      }
    } else {
      forall path | HasLeaf(a, path)
        ensures HasLeaf(b, path)
      {
        assert LeafAt(Merge(a, b), path) == Override(LeafAt(a, path), LeafAt(b, path));
      }
    }
  }

  /******* Any number of sources *******/

  lemma {:induction false} AgreeAfterMerge(a: Value, b: Value, c: Value)
    requires Agree(a, b) && Agree(a, c) && Agree(b, c)
    ensures Agree(Merge(a, b), c)
    decreases c
  {
    var m := Merge(a, b);
    if m.Table? && c.Table? {
      forall k | k in m.entries && k in c.entries
        ensures Agree(m.entries[k], c.entries[k])
      {
        if a.Table? && b.Table? && k in a.entries && k in b.entries {
          AgreeAfterMerge(a.entries[k], b.entries[k], c.entries[k]);
        }
      }
    } else {
      forall path | HasLeaf(m, path)
        ensures HasLeaf(c, path)
      {
        MergeOverrides(a, b, path);
        if HasLeaf(b, path) {
          AgreeCovers(b, c, path);
        } else {
          AgreeCovers(a, c, path);
        }
      }
    }
  }

  lemma {:induction false} AgreeBeforeMerge(a: Value, b: Value, c: Value)
    requires Agree(a, b) && Agree(a, c) && Agree(b, c)
    ensures Agree(a, Merge(b, c))
    decreases c
  {
    var m := Merge(b, c);
    if b.Table? && c.Table? {
      if a.Table? {
        forall k | k in a.entries && k in m.entries
          ensures Agree(a.entries[k], m.entries[k])
        {
          if k in b.entries && k in c.entries {
            AgreeBeforeMerge(a.entries[k], b.entries[k], c.entries[k]);
          }
        }
      } else {
        forall path | HasLeaf(a, path)
          ensures HasLeaf(m, path)
        {
          AgreeCovers(a, c, path);
          MergeOverrides(b, c, path);
        }
      }
    }
  }

  lemma {:induction false} AgreeCovers(a: Value, c: Value, path: seq<string>)
    requires Agree(a, c) && !(a.Table? && c.Table?) && HasLeaf(a, path)
    ensures HasLeaf(c, path)
  {
  }

  /** Earlier sources agree in shape with all later ones. */
  ghost predicate AllAgree(sources: seq<Value>) {
    forall i, j :: 0 <= i < j < |sources| ==> Agree(sources[i], sources[j])
  }

  /** Every source of `a` agrees with every source of `b`. */
  ghost predicate Across(a: seq<Value>, b: seq<Value>) {
    forall i, j :: 0 <= i < |a| && 0 <= j < |b| ==> Agree(a[i], b[j])
  }

  /** The value of the last source that has this variable. */
  function LastLeaf(sources: seq<Value>, path: seq<string>): Option<string> {
    if sources == [] then None
    else Override(LastLeaf(sources[..|sources| - 1], path), LeafAt(sources[|sources| - 1], path))
  }

  lemma {:induction false} LastLeafConcat(a: seq<Value>, b: seq<Value>, path: seq<string>)
    ensures LastLeaf(a + b, path) == Override(LastLeaf(a, path), LastLeaf(b, path))
    decreases |b|
  {
    hide LeafAt;
    if b == [] {
      assert a + b == a;
    } else {
      assert (a + b)[..|a + b| - 1] == a + b[..|b| - 1];
      LastLeafConcat(a, b[..|b| - 1], path);
    }
  }

  ghost predicate AllTables(sources: seq<Value>) {
    forall i :: 0 <= i < |sources| ==> sources[i].Table?
  }

  /**
   The table stands for the list of sources: it has the value of the last source for every variable, and
   agrees in shape with whatever agrees with all of them.
   */
  ghost predicate Represents(v: Value, sources: seq<Value>) {
    && v.Table? && AllTables(sources)
    && (forall path :: LeafAt(v, path) == LastLeaf(sources, path))
    && (forall x: Value :: x.Table? && Across(sources, [x]) ==> Agree(v, x))
    && (forall x: Value :: x.Table? && Across([x], sources) ==> Agree(x, v))
  }

  lemma {:induction false} RepresentsNothing()
    ensures Represents(EMPTY, [])
  {
    forall x: Value | x.Table?
      ensures Agree(EMPTY, x) && Agree(x, EMPTY)
    {
      var empty := EMPTY;
      assert empty.entries == map[];
    }
    forall path
      ensures LeafAt(EMPTY, path) == None
    {
    }
  }

  lemma {:induction false} RepresentsItself(v: Value)
    requires v.Table?
    ensures Represents(v, [v])
  {
    hide LeafAt, Agree;
    forall path
      ensures LeafAt(v, path) == LastLeaf([v], path)
    {
      assert [v][..0] == [];
    }
    forall x: Value | x.Table? && Across([v], [x])
      ensures Agree(v, x)
    {
      assert Agree([v][0], [x][0]);
    }
    forall x: Value | x.Table? && Across([x], [v])
      ensures Agree(x, v)
    {
      assert Agree([x][0], [v][0]);
    }
  }

  lemma {:induction false} AcrossConcat(a: seq<Value>, b: seq<Value>, c: seq<Value>)
    ensures Across(a + b, c) <==> Across(a, c) && Across(b, c)
    ensures Across(c, a + b) <==> Across(c, a) && Across(c, b)
  {
    hide Agree;
    assert forall i :: 0 <= i < |a| ==> (a + b)[i] == a[i];
    assert forall i :: 0 <= i < |b| ==> (a + b)[|a| + i] == b[i];
  }

  lemma {:induction false} RepresentativesAgree(v: Value, a: seq<Value>, w: Value, b: seq<Value>)
    requires Represents(v, a) && Represents(w, b) && Across(a, b)
    ensures Agree(v, w)
  {
    hide Agree, LeafAt, LastLeaf;
    forall i, j | 0 <= i < |a| && 0 <= j < 1
      ensures Agree(a[i], [w][j])
    {
      assert Across([a[i]], b);
    }
    assert Across(a, [w]);
  }

  /** Merging two tables puts together the sources they stand for. */
  lemma {:induction false} RepresentsMerge(v: Value, a: seq<Value>, w: Value, b: seq<Value>)
    requires Represents(v, a) && Represents(w, b) && Across(a, b)
    ensures Represents(Merge(v, w), a + b)
  {
    hide Agree, LeafAt, LastLeaf, Merge;
    RepresentativesAgree(v, a, w, b);
    TablesMerge(v, w);
    forall path
      ensures LeafAt(Merge(v, w), path) == LastLeaf(a + b, path)
    {
      MergeOverrides(v, w, path);
      LastLeafConcat(a, b, path);
    }
    forall x: Value | x.Table? && Across(a + b, [x])
      ensures Agree(Merge(v, w), x)
    {
      AcrossConcat(a, b, [x]);
      AgreeAfterMerge(v, w, x);
    }
    forall x: Value | x.Table? && Across([x], a + b)
      ensures Agree(x, Merge(v, w))
    {
      AcrossConcat(a, b, [x]);
      AgreeBeforeMerge(x, v, w);
    }
  }

  lemma {:induction false} TablesMerge(a: Value, b: Value)
    requires a.Table? && b.Table?
    ensures Merge(a, b).Table?
  {
  }

  lemma {:induction false} MergeAllRepresents(v: Value, before: seq<Value>, sources: seq<Value>)
    requires Represents(v, before) && AllTables(sources) && AllAgree(before + sources)
    ensures Represents(MergeAll(v, sources), before + sources)
    decreases |sources|
  {
    hide Represents, Merge, Agree;
    if sources == [] {
      assert before + sources == before;
    } else {
      var first := sources[0];
      assert before + sources == (before + [first]) + sources[1..];
      RepresentsItself(first);
      AgreeSplits(before, sources);
      assert Across(before, [first]);
      RepresentsMerge(v, before, first, [first]);
      MergeAllRepresents(Merge(v, first), before + [first], sources[1..]);
    }
  }

  lemma {:induction false} AgreeSplits(a: seq<Value>, b: seq<Value>)
    requires AllAgree(a + b)
    ensures AllAgree(a) && AllAgree(b) && Across(a, b)
  {
    hide Agree;
    var c := a + b;
    forall i, j | 0 <= i < j < |a|
      ensures Agree(a[i], a[j])
    {
      assert Agree(c[i], c[j]);
    }
    forall i, j | 0 <= i < j < |b|
      ensures Agree(b[i], b[j])
    {
      assert Agree(c[|a| + i], c[|a| + j]);
    }
    forall i, j | 0 <= i < |a| && 0 <= j < |b|
      ensures Agree(a[i], b[j])
    {
      assert Agree(c[i], c[|a| + j]);
    }
  }

  /** The merge of sources that agree in shape binds every variable to the value of the last source that has it. */
  lemma {:induction false} MergeAllIsLast(sources: seq<Value>)
    requires AllTables(sources) && AllAgree(sources)
    ensures MergeAll(EMPTY, sources).Table?
    ensures forall path :: LeafAt(MergeAll(EMPTY, sources), path) == LastLeaf(sources, path)
  {
    hide LeafAt, LastLeaf, Agree, MergeAll;
    RepresentsNothing();
    assert [] + sources == sources;
    MergeAllRepresents(EMPTY, [], sources);
  }
}
