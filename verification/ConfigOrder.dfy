/**
 What loading reads and in which order, one file and one folder at a time, in the words of the files
 themselves: the list under `__imports__`, the names in a folder, and the values beside them.
 */
module ConfigOrder {
  import opened Text
  import opened ConfigTree
  import opened ConfigLoader

  /******* The list of imports *******/

  /** The values of a file: all but its list of imports. */
  ghost function Own(config: map<string, Value>): map<string, Value> {
    map k | k in config && !(k == "__imports__" && config[k].Array?) :: config[k]
  }

  /** These are the imports of the file, in order; anything but an array is a value like others. */
  ghost predicate Lists(config: map<string, Value>, paths: seq<string>) {
    if "__imports__" in config && config["__imports__"].Array? then
      var elems := config["__imports__"].elems;
      |elems| == |paths| && forall i :: 0 <= i < |paths| ==> elems[i] == Scalar(paths[i])
    else paths == []
  }

  /** Every element of `__imports__` is an import, and none of it is a variable. */
  lemma {:induction false} ImportsAreListed(config: map<string, Value>)
    requires AllScalars(ImportList(config))
    ensures Lists(config, Texts(ImportList(config)))
    ensures OwnValues(config) == Table(Own(config))
  {
    var list := ImportList(config);
    assert forall i :: 0 <= i < |list| ==> Texts(list)[i] == list[i].text;
    if IMPORTS in config && config[IMPORTS].Array? {
      assert Own(config) == config - {IMPORTS};
    } else {
      assert Own(config) == config;
    }
  }

  /******* The files of a folder *******/

  /** These are the positions of the files that end in `.env` or `.toml`, in order. */
  ghost predicate Selects(names: seq<string>, ks: seq<nat>) {
    && Positions(ks, |names|)
    && (forall k: nat :: k < |names| ==>
          (k in ks <==> exists stem :: names[k] == stem + ".env" || names[k] == stem + ".toml"))
  }

  lemma {:induction false} ConfigNameIs(name: string)
    ensures IsConfigName(name) <==> exists stem :: name == stem + ".env" || name == stem + ".toml"
  {
    if EndsWith(name, ".env") {
      assert name == name[..|name| - 4] + ".env";
    }
    if EndsWith(name, ".toml") {
      assert name == name[..|name| - 5] + ".toml";
    }
  }

  lemma {:induction false} FolderFilesSnoc(dir: string, names: seq<string>, name: string)
    ensures FolderFiles(dir, names + [name])
         == FolderFiles(dir, names) + if IsConfigName(name) then [dir + "/" + name] else []
  {
    hide IsConfigName;
    if names == [] {
      assert names + [name] == [name] && [name][1..] == [];
    } else {
      assert (names + [name])[0] == names[0] && (names + [name])[1..] == names[1..] + [name];
      FolderFilesSnoc(dir, names[1..], name);
    }
  }

  /** The files of a folder are those in it that end in `.env` or `.toml`, in the order of their names, each once. */
  lemma {:induction false} FolderInOrder(dir: string, names: seq<string>) returns (ks: seq<nat>)
    ensures Selects(names, ks)
    ensures var files := FolderFiles(dir, names);
      |files| == |ks| && forall j :: 0 <= j < |ks| ==> files[j] == dir + "/" + names[ks[j]]
  {
    hide IsConfigName;
    if names == [] {
      ks := [];
    } else {
      var init, n := names[..|names| - 1], |names| - 1;
      var earlier := FolderInOrder(dir, init);
      ConfigNameIs(names[n]);
      FolderFilesSnoc(dir, init, names[n]);
      assert names == init + [names[n]];
      ks := earlier + if IsConfigName(names[n]) then [n] else [];
      forall k: nat | k < n
        ensures k in ks <==> k in earlier
      {
      }
    }
  }

  /******* The order of merging *******/

  /** Of these tables, each variable has the value of the last one that has it, if they agree in shape. */
  ghost predicate LastWins(v: Value, values: seq<Value>) {
    AllAgree(values) ==> forall q :: LeafAt(v, q) == LastLeaf(values, q)
  }

  /** What a folder is loaded as: of its files, in order, the last one that has a variable decides it. */
  ghost predicate LoadedFolder(fs: FileSystem, dir: string, stack: seq<string>, v: Value)
    requires dir in fs && fs[dir].Dir?
  {
    exists ks, values :: FolderValues(fs, dir, stack, ks, values) && LastWins(v, values)
  }

  /** The values of the selected files of a folder. */
  ghost predicate FolderValues(fs: FileSystem, dir: string, stack: seq<string>, ks: seq<nat>, values: seq<Value>)
    requires dir in fs && fs[dir].Dir?
  {
    var names := fs[dir].names;
    && Selects(names, ks) && |values| == |ks|
    && forall j :: 0 <= j < |ks| ==> LoadFile(fs, dir + "/" + names[ks[j]], stack + [dir]) == Success(values[j])
  }

  /** What an import is loaded as; one that does not exist is empty. */
  ghost predicate LoadedImport(fs: FileSystem, path: string, stack: seq<string>, v: Value) {
    if path !in fs then v == Table(map[])
    else if fs[path].Dir? then LoadedFolder(fs, path, stack, v)
    else LoadFile(fs, path, stack) == Success(v)
  }

  lemma {:induction false} MergesToTable(v: Value, values: seq<Value>)
    requires v.Table? && AllTables(values)
    ensures MergeAll(v, values).Table?
    decreases |values|
  {
    if values != [] {
      assert AllTables(values[1..]);
      MergesToTable(Merge(v, values[0]), values[1..]);
    }
  }

  lemma {:induction false} LoadsTable(fs: FileSystem, path: string, stack: seq<string>)
    requires LoadFile(fs, path, stack).Success?
    ensures LoadFile(fs, path, stack).value.Table?
    decreases |Unvisited(fs, stack)|, 0
  {
    hide MergeAll;
    VisitShrinks(fs, stack, path);
    var config := fs[path].parsed.value;
    var paths := Texts(ImportList(config));
    ImportsLoadTables(fs, paths, stack + [path]);
    var imports := LoadImports(fs, paths, stack + [path]).value;
    MergesToTable(EMPTY, imports + [OwnValues(config)]);
  }

  lemma {:induction false} ImportsLoadTables(fs: FileSystem, paths: seq<string>, stack: seq<string>)
    requires LoadImports(fs, paths, stack).Success?
    ensures var values := LoadImports(fs, paths, stack).value;
      |values| == |paths| && AllTables(values)
      && forall i :: 0 <= i < |paths| ==> LoadImport(fs, paths[i], stack) == Success(values[i])
    decreases |Unvisited(fs, stack)|, 3, |paths|
  {
    hide LoadImport;
    if paths != [] {
      ImportLoadsTable(fs, paths[0], stack);
      ImportsLoadTables(fs, paths[1..], stack);
      assert forall i :: 0 < i < |paths| ==> paths[i] == paths[1..][i - 1];
    }
  }

  lemma {:induction false} ImportLoadsTable(fs: FileSystem, path: string, stack: seq<string>)
    requires LoadImport(fs, path, stack).Success?
    ensures LoadImport(fs, path, stack).value.Table?
    decreases |Unvisited(fs, stack)|, 2
  {
    hide MergeAll, LoadFile, FolderFiles;
    if path in fs && fs[path].Dir? {
      VisitShrinks(fs, stack, path);
      FilesLoadTables(fs, FolderFiles(path, fs[path].names), stack + [path]);
      MergesToTable(EMPTY, LoadFiles(fs, FolderFiles(path, fs[path].names), stack + [path]).value);
    } else if path in fs {
      LoadsTable(fs, path, stack);
    }
  }

  lemma {:induction false} FilesLoadTables(fs: FileSystem, files: seq<string>, stack: seq<string>)
    requires LoadFiles(fs, files, stack).Success?
    ensures var values := LoadFiles(fs, files, stack).value;
      |values| == |files| && AllTables(values)
      && forall i :: 0 <= i < |files| ==> LoadFile(fs, files[i], stack) == Success(values[i])
    decreases |Unvisited(fs, stack)|, 1, |files|
  {
    hide LoadFile;
    if files != [] {
      LoadsTable(fs, files[0], stack);
      FilesLoadTables(fs, files[1..], stack);
      assert forall i :: 0 < i < |files| ==> files[i] == files[1..][i - 1];
    }
  }

  lemma {:induction false} TablesLastWins(values: seq<Value>)
    requires AllTables(values)
    ensures LastWins(MergeAll(EMPTY, values), values)
  {
    hide MergeAll, LeafAt, LastLeaf, Agree;
    if AllAgree(values) {
      MergeAllIsLast(values);
    }
  }

  /** A loaded folder: the last of its files, in the order of their names, decides each variable. */
  lemma {:induction false} FolderOrder(fs: FileSystem, dir: string, stack: seq<string>)
    requires dir in fs && fs[dir].Dir? && LoadImport(fs, dir, stack).Success?
    ensures LoadedFolder(fs, dir, stack, LoadImport(fs, dir, stack).value)
  {
    hide MergeAll, LoadFile, FolderFiles, Selects, LastWins;
    VisitShrinks(fs, stack, dir);
    var files := FolderFiles(dir, fs[dir].names);
    FilesLoadTables(fs, files, stack + [dir]);
    var values := LoadFiles(fs, files, stack + [dir]).value;
    var ks := FolderInOrder(dir, fs[dir].names);
    TablesLastWins(values);
    assert FolderValues(fs, dir, stack, ks, values);
  }

  /**
   A loaded file: its own values decide over those of its imports, and of the imports the later ones over the
   earlier ones, in the order in which the file lists them.
   */
  lemma {:induction false} ImportOrder(
    fs: FileSystem, path: string, stack: seq<string>) returns (paths: seq<string>, values: seq<Value>)
    requires LoadFile(fs, path, stack).Success?
    ensures path !in stack && path in fs && fs[path].File? && fs[path].parsed.Some?
    ensures Lists(fs[path].parsed.value, paths) && |values| == |paths|
    ensures forall i :: 0 <= i < |paths| ==> LoadedImport(fs, paths[i], stack + [path], values[i])
    ensures LastWins(LoadFile(fs, path, stack).value, values + [Table(Own(fs[path].parsed.value))])
  {
    hide MergeAll, LoadedFolder, Lists, Own, LastWins, OwnValues, LoadImport, ImportList, Texts;
    VisitShrinks(fs, stack, path);
    var config := fs[path].parsed.value;
    paths := Texts(ImportList(config));
    ImportsAreListed(config);
    ImportsLoadTables(fs, paths, stack + [path]);
    values := LoadImports(fs, paths, stack + [path]).value;
    forall i | 0 <= i < |paths|
      ensures LoadedImport(fs, paths[i], stack + [path], values[i])
    {
      ImportIsLoaded(fs, paths[i], stack + [path]);
    }
    TablesLastWins(values + [Table(Own(config))]);
  }

  lemma {:induction false} ImportIsLoaded(fs: FileSystem, path: string, stack: seq<string>)
    requires LoadImport(fs, path, stack).Success?
    ensures LoadedImport(fs, path, stack, LoadImport(fs, path, stack).value)
  {
    hide LoadedFolder, LoadFile, LoadFiles, FolderFiles, MergeAll;
    if path in fs && fs[path].Dir? {
      FolderOrder(fs, path, stack);
    }
  }

  /******* Sources *******/

  lemma {:induction false} OwnIsSource(fs: FileSystem, path: string, stack: seq<string>)
    requires LoadFile(fs, path, stack).Success?
    ensures path in fs && fs[path].File? && fs[path].parsed.Some?
    ensures Table(Own(fs[path].parsed.value)) in SourcesOf(fs, path, stack)
  {
    hide Own, OwnValues, MergeAll, LoadImports, ImportSources;
    ImportsAreListed(fs[path].parsed.value);
    var sources := SourcesOf(fs, path, stack);
    assert sources[|sources| - 1] == OwnValues(fs[path].parsed.value);
  }

  lemma {:induction false} FileIsSource(fs: FileSystem, files: seq<string>, stack: seq<string>, j: nat)
    requires LoadFiles(fs, files, stack).Success? && j < |files|
    ensures LoadFile(fs, files[j], stack).Success?
    ensures forall v :: v in SourcesOf(fs, files[j], stack) ==> v in FileSources(fs, files, stack)
    decreases |files|
  {
    hide LoadFile, SourcesOf;
    if j > 0 {
      FileIsSource(fs, files[1..], stack, j - 1);
      assert files[1..][j - 1] == files[j];
    }
  }

  lemma {:induction false} ImportIsSource(fs: FileSystem, paths: seq<string>, stack: seq<string>, i: nat)
    requires LoadImports(fs, paths, stack).Success? && i < |paths|
    ensures LoadImport(fs, paths[i], stack).Success?
    ensures forall v :: v in FileSources(fs, Targets(fs, paths[i]), TargetStack(fs, paths[i], stack)) ==>
      v in ImportSources(fs, paths, stack)
    decreases |paths|
  {
    hide LoadImport, FileSources, Targets, TargetStack;
    if i > 0 {
      ImportIsSource(fs, paths[1..], stack, i - 1);
      assert paths[1..][i - 1] == paths[i];
    }
  }

  /** The values of every `.env` and `.toml` file of an imported folder are among the sources of the file. */
  lemma {:induction false} FolderFileIsSource(
    fs: FileSystem, path: string, stack: seq<string>, paths: seq<string>, i: nat, k: nat)
    requires LoadFile(fs, path, stack).Success? && Lists(fs[path].parsed.value, paths) && i < |paths|
    requires paths[i] in fs && fs[paths[i]].Dir? && k < |fs[paths[i]].names|
    requires exists stem :: fs[paths[i]].names[k] == stem + ".env" || fs[paths[i]].names[k] == stem + ".toml"
    ensures var file := paths[i] + "/" + fs[paths[i]].names[k];
      && file in fs && fs[file].File? && fs[file].parsed.Some?
      && Table(Own(fs[file].parsed.value)) in SourcesOf(fs, path, stack)
  {
    hide Own, OwnValues, MergeAll, LoadImports, FolderFiles, FileSources, Texts, ImportList;
    var dir := paths[i];
    ListedOnce(fs[path].parsed.value, paths);
    VisitShrinks(fs, stack, path);
    ImportIsSource(fs, paths, stack + [path], i);
    var ks := FolderInOrder(dir, fs[dir].names);
    var j :| 0 <= j < |ks| && ks[j] == k;
    VisitShrinks(fs, stack + [path], dir);
    var inside := stack + [path] + [dir];
    FileIsSource(fs, FolderFiles(dir, fs[dir].names), inside, j);
    OwnIsSource(fs, dir + "/" + fs[dir].names[k], inside);
  }

  lemma {:induction false} ListedOnce(config: map<string, Value>, paths: seq<string>)
    requires AllScalars(ImportList(config)) && Lists(config, paths)
    ensures paths == Texts(ImportList(config))
  {
    ImportsAreListed(config);
    assert forall i :: 0 <= i < |paths| ==> Scalar(paths[i]) == Scalar(Texts(ImportList(config))[i]);
  }
}
