/**
 Loading a configuration file with everything it imports: a depth-first walk over the
 import graph that keeps the files under way on a shared stack.
 */
module ConfigLoader {
  import opened Text
  import opened ConfigTree
  import opened ConfigVariables

  /** What is found at a path; the parsers' result is part of it, `None` when parsing fails. */
  datatype Entry = File(parsed: Option<map<string, Value>>) | Dir(names: seq<string>)

  /** What is found at each path string that the files mention. */
  type FileSystem = map<string, Entry>

  const IMPORTS := "__imports__"

  /** The strings in the list of imports; only an array counts as one. */
  function ImportList(config: map<string, Value>): seq<Value> {
    if IMPORTS in config && config[IMPORTS].Array? then config[IMPORTS].elems else []
  }

  predicate AllScalars(vs: seq<Value>) {
    forall i :: 0 <= i < |vs| ==> vs[i].Scalar?
  }

  function Texts(vs: seq<Value>): (ts: seq<string>)
    requires AllScalars(vs)
    ensures |ts| == |vs|
  {
    seq(|vs|, i requires 0 <= i < |vs| => vs[i].text)
  }

  /** The file's own values. */
  function OwnValues(config: map<string, Value>): Value {
    if IMPORTS in config && config[IMPORTS].Array? then Table(config - {IMPORTS}) else Table(config)
  }

  predicate IsConfigName(name: string) {
    EndsWith(name, ".env") || EndsWith(name, ".toml")
  }

  /** The configuration files of a folder. */
  function FolderFiles(dir: string, names: seq<string>): (r: seq<string>) {
    if names == [] then []
    else (if IsConfigName(names[0]) then [dir + "/" + names[0]] else []) + FolderFiles(dir, names[1..])
  }

  /******* What loading computes *******/

  ghost function Unvisited(fs: FileSystem, stack: seq<string>): set<string> {
    fs.Keys - set p | p in stack
  }

  lemma {:induction false} VisitShrinks(fs: FileSystem, stack: seq<string>, p: string)
    ensures |Unvisited(fs, stack + [p])| <= |Unvisited(fs, stack)|
    ensures p in fs && p !in stack ==> |Unvisited(fs, stack + [p])| < |Unvisited(fs, stack)|
  {
    var before, after := Unvisited(fs, stack), Unvisited(fs, stack + [p]);
    assert after == before - {p};
  }

  /** `loadConfigFile`, given the stack it is called with. */
  function LoadFile(fs: FileSystem, path: string, stack: seq<string>): Result<Value>
    decreases |Unvisited(fs, stack)|, 0
  {
    if path in stack then Failure("Cyclic import detected")
    else if path !in fs then Failure("File not found")
    else
      match fs[path]
      case Dir(_) => Failure("Is a directory")
      case File(None) => Failure("Parsing error")
      case File(Some(config)) =>
        var list := ImportList(config);
        if !AllScalars(list) then Failure("Import path is not a string")
        else
          VisitShrinks(fs, stack, path);
          var imports := LoadImports(fs, Texts(list), stack + [path]);
          if imports.Failure? then Failure(imports.error)
          else Success(MergeAll(EMPTY, imports.value + [OwnValues(config)]))
  }

  function LoadImports(fs: FileSystem, paths: seq<string>, stack: seq<string>): Result<seq<Value>>
    decreases |Unvisited(fs, stack)|, 3, |paths|
  {
    if paths == [] then Success([])
    else
      var first := LoadImport(fs, paths[0], stack);
      if first.Failure? then Failure(first.error)
      else
        var rest := LoadImports(fs, paths[1..], stack);
        if rest.Failure? then rest else Success([first.value] + rest.value)
  }

  /** An import that does not exist counts as empty. */
  function LoadImport(fs: FileSystem, path: string, stack: seq<string>): Result<Value>
    decreases |Unvisited(fs, stack)|, 2
  {
    if path !in fs then Success(EMPTY)
    else if fs[path].Dir? then
      VisitShrinks(fs, stack, path);
      var configs := LoadFiles(fs, FolderFiles(path, fs[path].names), stack + [path]);
      if configs.Failure? then Failure(configs.error) else Success(MergeAll(EMPTY, configs.value))
    else LoadFile(fs, path, stack)
  }

  function LoadFiles(fs: FileSystem, files: seq<string>, stack: seq<string>): Result<seq<Value>>
    decreases |Unvisited(fs, stack)|, 1, |files|
  {
    if files == [] then Success([])
    else
      var first := LoadFile(fs, files[0], stack);
      if first.Failure? then Failure(first.error)
      else
        var rest := LoadFiles(fs, files[1..], stack);
        if rest.Failure? then rest else Success([first.value] + rest.value)
  }

  /******* The import graph *******/

  /** The path is a file that parses, and its imports are strings. */
  predicate Loadable(fs: FileSystem, p: string) {
    p in fs && fs[p].File? && fs[p].parsed.Some? && AllScalars(ImportList(fs[p].parsed.value))
  }

  /** The files that one import leads to: none, the file itself, or the files of the folder. */
  function Targets(fs: FileSystem, path: string): seq<string> {
    if path !in fs then [] else if fs[path].Dir? then FolderFiles(path, fs[path].names) else [path]
  }

  ghost predicate ImportsOf(fs: FileSystem, paths: seq<string>, q: string) {
    exists i :: 0 <= i < |paths| && q in Targets(fs, paths[i])
  }

  ghost predicate Edge(fs: FileSystem, p: string, q: string) {
    Loadable(fs, p) && ImportsOf(fs, Texts(ImportList(fs[p].parsed.value)), q)
  }

  ghost predicate IsWalk(fs: FileSystem, w: seq<string>) {
    w != [] && forall i :: 0 <= i < |w| - 1 ==> Edge(fs, w[i], w[i + 1])
  }

  /** The walk meets no file twice, no file of the stack, and only files that can be loaded. */
  ghost predicate Sound(fs: FileSystem, w: seq<string>, stack: seq<string>) {
    && (forall i, j :: 0 <= i < j < |w| ==> w[i] != w[j])
    && (forall i :: 0 <= i < |w| ==> Loadable(fs, w[i]) && w[i] !in stack)
  }

  ghost predicate AllSound(fs: FileSystem, p: string, stack: seq<string>) {
    forall w :: IsWalk(fs, w) && w[0] == p ==> Sound(fs, w, stack)
  }

  lemma {:induction false} SoundStep(fs: FileSystem, p: string, stack: seq<string>)
    ensures AllSound(fs, p, stack)
       <==> (&& Loadable(fs, p) && p !in stack
             && forall q :: Edge(fs, p, q) ==> AllSound(fs, q, stack + [p]))
  {
    hide Edge, Loadable;
    if AllSound(fs, p, stack) {
      assert IsWalk(fs, [p]) && Sound(fs, [p], stack);
      assert [p][0] == p;
      forall q | Edge(fs, p, q)
        ensures AllSound(fs, q, stack + [p])
      {
        forall w | IsWalk(fs, w) && w[0] == q
          ensures Sound(fs, w, stack + [p])
        {
          ExtendWalk(fs, p, w);
          SoundTail(fs, p, w, stack);
        }
      }
    }
    if Loadable(fs, p) && p !in stack && forall q :: Edge(fs, p, q) ==> AllSound(fs, q, stack + [p]) {
      forall w | IsWalk(fs, w) && w[0] == p
        ensures Sound(fs, w, stack)
      {
        if |w| > 1 {
          assert Edge(fs, w[0], w[0 + 1]);
          TailIsWalk(fs, w);
          assert w == [p] + w[1..];
          SoundTail(fs, p, w[1..], stack);
        }
      }
    }
  }

  lemma {:induction false} ExtendWalk(fs: FileSystem, p: string, w: seq<string>)
    requires IsWalk(fs, w) && Edge(fs, p, w[0])
    ensures IsWalk(fs, [p] + w)
  {
    hide Edge;
    var longer := [p] + w;
    forall i | 0 <= i < |longer| - 1
      ensures Edge(fs, longer[i], longer[i + 1])
    {
      assert i > 0 ==> Edge(fs, w[i - 1], w[i - 1 + 1]);
    }
  }

  lemma {:induction false} TailIsWalk(fs: FileSystem, w: seq<string>)
    requires IsWalk(fs, w) && |w| > 1
    ensures IsWalk(fs, w[1..])
  {
    hide Edge;
    forall i | 0 <= i < |w[1..]| - 1
      ensures Edge(fs, w[1..][i], w[1..][i + 1])
    {
      assert Edge(fs, w[i + 1], w[i + 1 + 1]);
    }
  }

  lemma {:induction false} SoundTail(fs: FileSystem, p: string, w: seq<string>, stack: seq<string>)
    ensures Sound(fs, [p] + w, stack) <==> Loadable(fs, p) && p !in stack && Sound(fs, w, stack + [p])
  {
    hide Loadable;
    var longer := [p] + w;
    assert forall i :: 0 <= i < |w| ==> longer[i + 1] == w[i];
    assert longer[0] == p;
    if Sound(fs, longer, stack) {
      forall i | 0 <= i < |w|
        ensures Loadable(fs, w[i]) && w[i] !in stack + [p]
      {
        assert Loadable(fs, longer[i + 1]) && longer[0] != longer[i + 1];
      }
    }
  }

  /******* Loading succeeds exactly on graphs without cycles *******/

  /** A folder is no file, so that pushing it on the stack changes nothing. */
  lemma {:induction false} FolderOnStack(fs: FileSystem, p: string, stack: seq<string>, dir: string)
    requires dir in fs && fs[dir].Dir?
    ensures AllSound(fs, p, stack + [dir]) <==> AllSound(fs, p, stack)
  {
    forall w
      ensures Sound(fs, w, stack + [dir]) <==> Sound(fs, w, stack)
    {
      assert forall i :: 0 <= i < |w| && Loadable(fs, w[i]) ==> w[i] != dir;
    }
    assert AllSound(fs, p, stack + [dir]) ==> AllSound(fs, p, stack) by {
      if AllSound(fs, p, stack + [dir]) {
        forall w | IsWalk(fs, w) && w[0] == p ensures Sound(fs, w, stack) {
          assert Sound(fs, w, stack + [dir]);
        }
      }
    }
    assert AllSound(fs, p, stack) ==> AllSound(fs, p, stack + [dir]) by {
      if AllSound(fs, p, stack) {
        forall w | IsWalk(fs, w) && w[0] == p ensures Sound(fs, w, stack + [dir]) {
          assert Sound(fs, w, stack);
        }
      }
    }
  }

  ghost predicate EachSound(fs: FileSystem, files: seq<string>, stack: seq<string>) {
    forall i :: 0 <= i < |files| ==> AllSound(fs, files[i], stack)
  }

  lemma {:induction false} LoadFileIff(fs: FileSystem, path: string, stack: seq<string>)
    ensures LoadFile(fs, path, stack).Success? <==> AllSound(fs, path, stack)
    decreases |Unvisited(fs, stack)|, 0
  {
    hide AllSound, MergeAll, OwnValues;
    SoundStep(fs, path, stack);
    if Loadable(fs, path) && path !in stack {
      VisitShrinks(fs, stack, path);
      var paths := Texts(ImportList(fs[path].parsed.value));
      LoadImportsIff(fs, paths, stack + [path]);
      assert forall q :: Edge(fs, path, q) <==> ImportsOf(fs, paths, q);
    }
  }

  lemma {:induction false} LoadImportsIff(fs: FileSystem, paths: seq<string>, stack: seq<string>)
    ensures LoadImports(fs, paths, stack).Success?
       <==> forall q :: ImportsOf(fs, paths, q) ==> AllSound(fs, q, stack)
    decreases |Unvisited(fs, stack)|, 3, |paths|
  {
    hide AllSound, LoadImport, Targets;
    if paths != [] {
      LoadImportIff(fs, paths[0], stack);
      LoadImportsIff(fs, paths[1..], stack);
      forall q
        ensures ImportsOf(fs, paths, q) <==> q in Targets(fs, paths[0]) || ImportsOf(fs, paths[1..], q)
      {
        if ImportsOf(fs, paths[1..], q) {
          var i :| 0 <= i < |paths[1..]| && q in Targets(fs, paths[1..][i]);
          assert paths[i + 1] == paths[1..][i];
        }
        if ImportsOf(fs, paths, q) && q !in Targets(fs, paths[0]) {
          var i :| 0 <= i < |paths| && q in Targets(fs, paths[i]);
          assert paths[i] == paths[1..][i - 1];
        }
      }
    }
  }

  lemma {:induction false} LoadImportIff(fs: FileSystem, path: string, stack: seq<string>)
    ensures LoadImport(fs, path, stack).Success? <==> EachSound(fs, Targets(fs, path), stack)
    decreases |Unvisited(fs, stack)|, 2
  {
    hide AllSound, MergeAll, FolderFiles;
    if path in fs && fs[path].Dir? {
      VisitShrinks(fs, stack, path);
      var files := FolderFiles(path, fs[path].names);
      LoadFilesIff(fs, files, stack + [path]);
      forall i | 0 <= i < |files|
        ensures AllSound(fs, files[i], stack + [path]) <==> AllSound(fs, files[i], stack)
      {
        FolderOnStack(fs, files[i], stack, path);
      }
    } else if path in fs {
      LoadFileIff(fs, path, stack);
      assert Targets(fs, path)[0] == path;
    }
  }

  lemma {:induction false} LoadFilesIff(fs: FileSystem, files: seq<string>, stack: seq<string>)
    ensures LoadFiles(fs, files, stack).Success? <==> EachSound(fs, files, stack)
    decreases |Unvisited(fs, stack)|, 1, |files|
  {
    hide AllSound, LoadFile;
    if files != [] {
      LoadFileIff(fs, files[0], stack);
      LoadFilesIff(fs, files[1..], stack);
      assert EachSound(fs, files, stack) <==> AllSound(fs, files[0], stack) && EachSound(fs, files[1..], stack);
    }
  }

  /** No chain of imports from `p` meets a file twice. */
  ghost predicate Acyclic(fs: FileSystem, p: string) {
    forall w :: IsWalk(fs, w) && w[0] == p ==> forall i, j :: 0 <= i < j < |w| ==> w[i] != w[j]
  }

  ghost predicate AllLoadable(fs: FileSystem, p: string) {
    forall w :: IsWalk(fs, w) && w[0] == p ==> Loadable(fs, w[|w| - 1])
  }

  /**
   Loading succeeds exactly when no chain of imports meets a file twice and every file that is reached can
   be loaded; a file reached along two different chains is no obstacle.
   */
  lemma {:induction false} LoadsIffAcyclic(fs: FileSystem, path: string)
    ensures LoadFile(fs, path, []).Success? <==> Acyclic(fs, path) && AllLoadable(fs, path)
  {
    hide Loadable, Edge, LoadFile;
    LoadFileIff(fs, path, []);
    if AllSound(fs, path, []) {
      forall w | IsWalk(fs, w) && w[0] == path
        ensures Sound(fs, w, []) && Loadable(fs, w[|w| - 1])
      {
      }
    }
    if Acyclic(fs, path) && AllLoadable(fs, path) {
      forall w | IsWalk(fs, w) && w[0] == path
        ensures Sound(fs, w, [])
      {
        forall i | 0 <= i < |w|
          ensures Loadable(fs, w[i])
        {
          WalkPrefix(fs, w, i + 1);
          assert w[..i + 1][|w[..i + 1]| - 1] == w[i];
        }
      }
    }
  }

  lemma {:induction false} WalkPrefix(fs: FileSystem, w: seq<string>, n: nat)
    requires IsWalk(fs, w) && 0 < n <= |w|
    ensures IsWalk(fs, w[..n])
  {
    hide Edge;
    forall i | 0 <= i < |w[..n]| - 1
      ensures Edge(fs, w[..n][i], w[..n][i + 1])
    {
      assert Edge(fs, w[i], w[i + 1]);
    }
  }

  /******* What a loaded configuration stands for *******/

  /** The files' own values in the order in which they are merged: imports first, the file itself last. */
  function SourcesOf(fs: FileSystem, path: string, stack: seq<string>): seq<Value>
    decreases |Unvisited(fs, stack)|, 0
  {
    if path in stack || !Loadable(fs, path) then []
    else
      VisitShrinks(fs, stack, path);
      var config := fs[path].parsed.value;
      ImportSources(fs, Texts(ImportList(config)), stack + [path]) + [OwnValues(config)]
  }

  function ImportSources(fs: FileSystem, paths: seq<string>, stack: seq<string>): seq<Value>
    decreases |Unvisited(fs, stack)|, 2, |paths|
  {
    if paths == [] then []
    else
      VisitShrinks(fs, stack, paths[0]);
      FileSources(fs, Targets(fs, paths[0]), TargetStack(fs, paths[0], stack))
      + ImportSources(fs, paths[1..], stack)
  }

  function TargetStack(fs: FileSystem, path: string, stack: seq<string>): seq<string> {
    if path in fs && fs[path].Dir? then stack + [path] else stack
  }

  function FileSources(fs: FileSystem, files: seq<string>, stack: seq<string>): seq<Value>
    decreases |Unvisited(fs, stack)|, 1, |files|
  {
    if files == [] then [] else SourcesOf(fs, files[0], stack) + FileSources(fs, files[1..], stack)
  }

  lemma {:induction false} LoadedRepresents(fs: FileSystem, path: string, stack: seq<string>)
    requires LoadFile(fs, path, stack).Success? && AllAgree(SourcesOf(fs, path, stack))
    ensures Represents(LoadFile(fs, path, stack).value, SourcesOf(fs, path, stack))
    decreases |Unvisited(fs, stack)|, 0
  {
    hide Represents, Agree, MergeAll;
    VisitShrinks(fs, stack, path);
    var config := fs[path].parsed.value;
    var paths := Texts(ImportList(config));
    var imports := LoadImports(fs, paths, stack + [path]).value;
    var sources := ImportSources(fs, paths, stack + [path]);
    AgreeSplits(sources, [OwnValues(config)]);
    RepresentsNothing();
    assert [] + sources == sources;
    ImportsRepresent(fs, paths, stack + [path], EMPTY, []);
    MergeAllConcat(EMPTY, imports, [OwnValues(config)]);
    MergeAllRepresents(MergeAll(EMPTY, imports), sources, [OwnValues(config)]);
  }

  lemma {:induction false} MergeAllConcat(v: Value, a: seq<Value>, b: seq<Value>)
    ensures MergeAll(v, a + b) == MergeAll(MergeAll(v, a), b)
    decreases |a|
  {
    hide Merge;
    if a == [] {
      assert a + b == b;
    } else {
      assert (a + b)[1..] == a[1..] + b;
      MergeAllConcat(Merge(v, a[0]), a[1..], b);
    }
  }

  lemma {:induction false} ImportsRepresent(
    fs: FileSystem, paths: seq<string>, stack: seq<string>, v: Value, before: seq<Value>)
    requires LoadImports(fs, paths, stack).Success? && Represents(v, before)
    requires AllAgree(before + ImportSources(fs, paths, stack))
    ensures Represents(MergeAll(v, LoadImports(fs, paths, stack).value), before + ImportSources(fs, paths, stack))
    decreases |Unvisited(fs, stack)|, 3, |paths|
  {
    hide Represents, Agree, Merge, LoadImport, Targets, TargetStack;
    if paths == [] {
      assert before + [] == before;
    } else {
      var first := LoadImport(fs, paths[0], stack).value;
      var a := FileSources(fs, Targets(fs, paths[0]), TargetStack(fs, paths[0], stack));
      var b := ImportSources(fs, paths[1..], stack);
      assert before + (a + b) == (before + a) + b;
      AgreeSplits(before + a, b);
      AgreeSplits(before, a);
      ImportRepresents(fs, paths[0], stack);
      RepresentsMerge(v, before, first, a);
      ImportsRepresent(fs, paths[1..], stack, Merge(v, first), before + a);
    }
  }

  lemma {:induction false} ImportRepresents(fs: FileSystem, path: string, stack: seq<string>)
    requires LoadImport(fs, path, stack).Success?
    requires AllAgree(FileSources(fs, Targets(fs, path), TargetStack(fs, path, stack)))
    ensures Represents(LoadImport(fs, path, stack).value,
                       FileSources(fs, Targets(fs, path), TargetStack(fs, path, stack)))
    decreases |Unvisited(fs, stack)|, 2
  {
    hide Represents, Agree;
    RepresentsNothing();
    if path in fs && fs[path].Dir? {
      VisitShrinks(fs, stack, path);
      var files := Targets(fs, path);
      assert [] + FileSources(fs, files, stack + [path]) == FileSources(fs, files, stack + [path]);
      FilesRepresent(fs, files, stack + [path], EMPTY, []);
    } else if path in fs {
      var sources := SourcesOf(fs, path, stack);
      assert [path][1..] == [] && sources + [] == sources;
      LoadedRepresents(fs, path, stack);
    }
  }

  lemma {:induction false} FilesRepresent(
    fs: FileSystem, files: seq<string>, stack: seq<string>, v: Value, before: seq<Value>)
    requires LoadFiles(fs, files, stack).Success? && Represents(v, before)
    requires AllAgree(before + FileSources(fs, files, stack))
    ensures Represents(MergeAll(v, LoadFiles(fs, files, stack).value), before + FileSources(fs, files, stack))
    decreases |Unvisited(fs, stack)|, 1, |files|
  {
    hide Represents, Agree, Merge, LoadFile, SourcesOf;
    if files == [] {
      assert before + [] == before;
    } else {
      var first, a := LoadFile(fs, files[0], stack).value, SourcesOf(fs, files[0], stack);
      var b := FileSources(fs, files[1..], stack);
      assert before + (a + b) == (before + a) + b;
      AgreeSplits(before + a, b);
      AgreeSplits(before, a);
      LoadedRepresents(fs, files[0], stack);
      RepresentsMerge(v, before, first, a);
      FilesRepresent(fs, files[1..], stack, Merge(v, first), before + a);
    }
  }

  /**
   Compiling a configuration: flattening what was loaded gives one variable for each variable of any file
   that was read, bound to the value of the last file in import order that has it.
   */
  lemma {:induction false} CompiledVariables(fs: FileSystem, path: string, vars: map<string, string>)
    requires LoadFile(fs, path, []).Success? && AllAgree(SourcesOf(fs, path, []))
    requires var config := LoadFile(fs, path, []).value;
      NoCollision(config) && Describes(config, "", Entries(config).Keys, vars)
    ensures var sources := SourcesOf(fs, path, []);
      && (forall p :: LastLeaf(sources, p).Some? ==>
            Name(p) in vars && LastLeaf(sources, p) == Some(vars[Name(p)]))
      && (forall n :: n in vars ==> exists p :: LastLeaf(sources, p).Some? && Name(p) == n)
  {
    hide LoadFile, SourcesOf, Describes, NoCollision, LastLeaf, Represents;
    LoadedRepresents(fs, path, []);
    RepresentedVariables(LoadFile(fs, path, []).value, SourcesOf(fs, path, []), vars);
  }

  /******* The loader *******/

  /** `loadConfigFile` and `loadConfigFolder`, with the stack they share. */
  class Loader {
    const fs: FileSystem
    var stack: seq<string>

    constructor (fs: FileSystem)
      ensures this.fs == fs && stack == []
    {
      this.fs := fs;
      stack := [];
    }

    /** A failure ends the process; otherwise the stack is left as it was found. */
    method LoadConfigFile(path: string) returns (r: Result<Value>)
      modifies this
      ensures r == LoadFile(fs, path, old(stack))
      ensures r.Success? ==> stack == old(stack)
      decreases |Unvisited(fs, stack)|, 0
    {
      hide MergeAll, OwnValues, ImportList, FolderFiles, LoadFiles;
      if path in stack {
        return Failure("Cyclic import detected");
      }
      VisitShrinks(fs, stack, path);
      stack := stack + [path];
      if path !in fs {
        return Failure("File not found");
      }
      if fs[path].Dir? {
        return Failure("Is a directory");
      }
      if fs[path].parsed.None? {
        return Failure("Parsing error");
      }
      var config := fs[path].parsed.value;
      var list := ImportList(config);
      if !AllScalars(list) {
        return Failure("Import path is not a string");
      }
      var paths := Texts(list);
      var imports: seq<Value> := [];
      ghost var inside := stack;
      ghost var goal := LoadImports(fs, paths, inside);
      AfterNothing(goal);
      assert paths[0..] == paths;
      for i := 0 to |paths|
        invariant stack == inside
        invariant goal == After(imports, LoadImports(fs, paths[i..], inside))
      {
        var importPath := paths[i];
        assert paths[i..][1..] == paths[i + 1..];
        var config': Result<Value>;
        if importPath !in fs {
          config' := Success(EMPTY);
        } else if fs[importPath].Dir? {
          config' := LoadConfigFolder(importPath);
        } else {
          config' := LoadConfigFile(importPath);
        }
        assert config' == LoadImport(fs, importPath, inside);
        if config'.Failure? {
          return Failure(config'.error);
        }
        AfterOneMore(imports, config'.value, LoadImports(fs, paths[i + 1..], inside));
        imports := imports + [config'.value];
      }
      assert imports + [] == imports;
      stack := stack[..|stack| - 1];
      r := Success(MergeAll(EMPTY, imports + [OwnValues(config)]));
    }

    method LoadConfigFolder(dir: string) returns (r: Result<Value>)
      requires dir in fs && fs[dir].Dir?
      modifies this
      ensures r == LoadImport(fs, dir, old(stack))
      ensures r.Success? ==> stack == old(stack)
      decreases |Unvisited(fs, stack)|, 1
    {
      hide MergeAll, FolderFiles, LoadFile;
      VisitShrinks(fs, stack, dir);
      stack := stack + [dir];
      var files := FolderFiles(dir, fs[dir].names);
      var configs: seq<Value> := [];
      ghost var inside := stack;
      ghost var goal := LoadFiles(fs, files, inside);
      AfterNothing(goal);
      assert files[0..] == files;
      for i := 0 to |files|
        invariant stack == inside
        invariant goal == After(configs, LoadFiles(fs, files[i..], inside))
      {
        assert files[i..][1..] == files[i + 1..];
        var config := LoadConfigFile(files[i]);
        if config.Failure? {
          return Failure(config.error);
        }
        AfterOneMore(configs, config.value, LoadFiles(fs, files[i + 1..], inside));
        configs := configs + [config.value];
      }
      assert configs + [] == configs;
      stack := stack[..|stack| - 1];
      r := Success(MergeAll(EMPTY, configs));
    }
  }

  /** The whole result, when `done` is loaded and `rest` is the result for what remains. */
  function After(done: seq<Value>, rest: Result<seq<Value>>): Result<seq<Value>> {
    if rest.Failure? then rest else Success(done + rest.value)
  }

  lemma {:induction false} AfterNothing(rest: Result<seq<Value>>)
    ensures After([], rest) == rest
  {
    if rest.Success? {
      assert [] + rest.value == rest.value;
    }
  }

  lemma {:induction false} AfterOneMore(done: seq<Value>, v: Value, rest: Result<seq<Value>>)
    ensures After(done, After([v], rest)) == After(done + [v], rest)
  {
    if rest.Success? {
      assert done + ([v] + rest.value) == done + [v] + rest.value;
    }
  }
}
