/**
 The environment variables that `pushConfig` writes: their names and their order leave every one of
 them with its own value.
 */
module PushConfig {
  import opened Text
  import opened EnvFile

  /** The words that the names are made of. */
  datatype Word =
    Api | Web3 | Json | Rpc | Http | Ws | Port | Url | Explorer | Contract | Verification |
    Prometheus | Listener | Pushgateway | Healthcheck | Circuit | Synthesizer | Database | Test |
    Prover | State | Keeper | Db | Path | Merkle | Tree | Backup

  function Spelling(w: Word): string {
    match w
    case Api => "API"
    case Web3 => "WEB3"
    case Json => "JSON"
    case Rpc => "RPC"
    case Http => "HTTP"
    case Ws => "WS"
    case Port => "PORT"
    case Url => "URL"
    case Explorer => "EXPLORER"
    case Contract => "CONTRACT"
    case Verification => "VERIFICATION"
    case Prometheus => "PROMETHEUS"
    case Listener => "LISTENER"
    case Pushgateway => "PUSHGATEWAY"
    case Healthcheck => "HEALTHCHECK"
    case Circuit => "CIRCUIT"
    case Synthesizer => "SYNTHESIZER"
    case Database => "DATABASE"
    case Test => "TEST"
    case Prover => "PROVER"
    case State => "STATE"
    case Keeper => "KEEPER"
    case Db => "DB"
    case Path => "PATH"
    case Merkle => "MERKLE"
    case Tree => "TREE"
    case Backup => "BACKUP"
  }

  /** The words joined by underscores. */
  function Name(ws: seq<Word>): string
    requires ws != []
  {
    if |ws| == 1 then Spelling(ws[0]) else Spelling(ws[0]) + "_" + Name(ws[1..])
  }

  /** The names in the order in which they are written. */
  const NAMES: seq<seq<Word>> := [
    [Api, Web3, Json, Rpc, Http, Port],
    [Api, Web3, Json, Rpc, Http, Url],
    [Api, Web3, Json, Rpc, Ws, Port],
    [Api, Web3, Json, Rpc, Ws, Url],
    [Api, Explorer, Port],
    [Api, Explorer, Url],
    [Api, Contract, Verification, Port],
    [Api, Contract, Verification, Url],
    [Api, Prometheus, Listener, Port],
    [Api, Prometheus, Pushgateway, Url],
    [Api, Healthcheck, Port],
    [Circuit, Synthesizer, Prometheus, Pushgateway, Url],
    [Database, Url],
    [Test, Database, Url],
    [Database, Prover, Url],
    [Test, Database, Prover, Url],
    [Database, State, Keeper, Db, Path],
    [Database, Merkle, Tree, Path],
    [Database, Merkle, Tree, Backup, Path]]

  /******* Words *******/

  /** The word with this spelling: two letters and the length tell it. */
  function Spelt(s: string): Word
    requires |s| >= 2
  {
    if s[0] == 'A' && s[1] == 'P' then Api
    else if s[0] == 'W' && s[1] == 'E' then Web3
    else if s[0] == 'J' && s[1] == 'S' then Json
    else if s[0] == 'R' && s[1] == 'P' then Rpc
    else if s[0] == 'H' && s[1] == 'T' then Http
    else if s[0] == 'W' && s[1] == 'S' then Ws
    else if s[0] == 'P' && s[1] == 'O' then Port
    else if s[0] == 'U' && s[1] == 'R' then Url
    else if s[0] == 'E' && s[1] == 'X' then Explorer
    else if s[0] == 'C' && s[1] == 'O' then Contract
    else if s[0] == 'V' && s[1] == 'E' then Verification
    else if s[0] == 'P' && s[1] == 'R' && |s| == 10 then Prometheus
    else if s[0] == 'P' && s[1] == 'R' then Prover
    else if s[0] == 'L' && s[1] == 'I' then Listener
    else if s[0] == 'P' && s[1] == 'U' then Pushgateway
    else if s[0] == 'H' && s[1] == 'E' then Healthcheck
    else if s[0] == 'C' && s[1] == 'I' then Circuit
    else if s[0] == 'S' && s[1] == 'Y' then Synthesizer
    else if s[0] == 'D' && s[1] == 'A' then Database
    else if s[0] == 'T' && s[1] == 'E' then Test
    else if s[0] == 'S' && s[1] == 'T' then State
    else if s[0] == 'K' && s[1] == 'E' then Keeper
    else if s[0] == 'D' && s[1] == 'B' then Db
    else if s[0] == 'P' && s[1] == 'A' then Path
    else if s[0] == 'M' && s[1] == 'E' then Merkle
    else if s[0] == 'T' && s[1] == 'R' then Tree
    else Backup
  }

  /** The words that begin a name. */
  predicate IsFirst(w: Word) {
    w.Api? || w.Circuit? || w.Database? || w.Test?
  }

  /** The words that end a name. */
  predicate IsFinal(w: Word) {
    w.Port? || w.Url? || w.Path?
  }

  function Ending(s: string): (char, char)
    requires |s| >= 2
  {
    (s[|s| - 2], s[|s| - 1])
  }

  /** Capital letters and, in `WEB3`, a digit. */
  predicate Lettered(w: Word) {
    var s := Spelling(w);
    |s| >= 2 && forall i :: 0 <= i < |s| ==> 'A' <= s[i] <= 'Z' || s[i] == '3'
  }

  /** The spelling tells the word. */
  predicate Told(w: Word) {
    |Spelling(w)| >= 2 && Spelt(Spelling(w)) == w
  }

  /** Only a first word ends like that first word. */
  predicate EndsApart(w: Word) {
    var s := Spelling(w);
    && |s| >= 2
    && (Ending(s) == ('P', 'I') <==> w == Api) && (Ending(s) == ('I', 'T') <==> w == Circuit)
    && (Ending(s) == ('S', 'E') <==> w == Database) && (Ending(s) == ('S', 'T') <==> w == Test)
  }

  predicate Early(w: Word) {
    || w.Api? || w.Web3? || w.Json? || w.Rpc? || w.Http? || w.Ws? || w.Port?
    || w.Url? || w.Explorer? || w.Contract? || w.Verification? || w.Prometheus? || w.Listener?
  }

  lemma {:induction false} EarlyLettered(w: Word)
    requires Early(w)
    ensures Lettered(w)
  {
  }

  lemma {:induction false} LateLettered(w: Word)
    requires !Early(w)
    ensures Lettered(w)
  {
  }

  lemma {:induction false} EarlyTold(w: Word)
    requires Early(w)
    ensures Told(w)
  {
  }

  lemma {:induction false} LateTold(w: Word)
    requires !Early(w)
    ensures Told(w)
  {
  }

  lemma {:induction false} EarlyEndsApart(w: Word)
    requires Early(w)
    ensures EndsApart(w)
  {
  }

  lemma {:induction false} LateEndsApart(w: Word)
    requires !Early(w)
    ensures EndsApart(w)
  {
  }

  lemma {:induction false} Spellings(w: Word)
    ensures Lettered(w) && Told(w) && EndsApart(w)
  {
    hide Early, Lettered, Told, EndsApart;
    if Early(w) {
      EarlyLettered(w);
      EarlyTold(w);
      EarlyEndsApart(w);
    } else {
      LateLettered(w);
      LateTold(w);
      LateEndsApart(w);
    }
  }

  lemma {:induction false} SpellingsDiffer(v: Word, w: Word)
    requires Spelling(v) == Spelling(w)
    ensures v == w
  {
    hide Spelling, Spelt;
    Spellings(v);
    Spellings(w);
  }

  lemma {:induction false} EndingOf(s: string, t: string)
    requires EndsWith(s, t) && |t| >= 2
    ensures Ending(s) == Ending(t)
  {
    assert s[|s| - |t|..][|t| - 1] == s[|s| - 1] && s[|s| - |t|..][|t| - 2] == s[|s| - 2];
  }

  /** A first word ends no other word. */
  lemma {:induction false} FirstEnds(v: Word, w: Word)
    requires IsFirst(w) && EndsWith(Spelling(v), Spelling(w))
    ensures v == w
  {
    hide Spelling, Spelt, Ending, EndsWith;
    Spellings(v);
    Spellings(w);
    EndingOf(Spelling(v), Spelling(w));
  }

  /** A final word begins no other word. */
  lemma {:induction false} FinalBegins(v: Word, w: Word)
    requires IsFinal(w) && Spelling(w) <= Spelling(v)
    ensures v == w
  {
    hide Spelling;
    var s, t := Spelling(v), Spelling(w);
    Spellings(v);
    FinalLetters(w);
    assert s[0] == t[0] && s[1] == t[1];
  }

  lemma {:induction false} FinalLetters(w: Word)
    requires IsFinal(w)
    ensures |Spelling(w)| >= 2
    ensures var t := Spelling(w);
      forall s: string :: |s| >= 2 && s[0] == t[0] && s[1] == t[1] ==> Spelt(s) == w
  {
  }

  /******* Names made of words *******/

  /** What follows the first word. */
  function Tail(ws: seq<Word>): (t: string)
    requires ws != []
    ensures t == [] || t[0] == '_'
  {
    if |ws| == 1 then [] else "_" + Name(ws[1..])
  }

  lemma {:induction false} NameUnfold(ws: seq<Word>)
    requires ws != []
    ensures Name(ws) == Spelling(ws[0]) + Tail(ws)
  {
    hide Spelling;
    if |ws| > 1 {
      Assoc(Spelling(ws[0]), "_", Name(ws[1..]));
    } else {
      assert Spelling(ws[0]) + [] == Spelling(ws[0]);
    }
  }

  lemma {:induction false} WordLetters(w: Word)
    ensures '_' !in Spelling(w) && IsName(Spelling(w))
  {
    hide Spelling, Spelt;
    Spellings(w);
  }

  /** Two words that are followed by an underscore or the end, and agree up to the first one's underscore. */
  lemma {:induction false} SameStop(a: string, x: string, b: string, rest: string)
    requires '_' !in a && '_' !in b && (rest == [] || rest[0] == '_')
    requires a + ("_" + x) <= b + rest
    ensures rest != [] && a == b && x <= rest[1..]
  {
    var s, t := a + ("_" + x), b + rest;
    assert t[|a|] == s[|a|] == '_';
    assert forall i :: 0 <= i < |b| ==> t[i] == b[i];
    assert t[|b|] == rest[0];
    assert forall i :: 0 <= i < |a| ==> t[i] == s[i] == a[i];
    assert |a| == |b|;
    assert a == t[..|a|] == b;
    assert x == s[|a| + 1..] && rest[1..] == t[|b| + 1..];
  }

  lemma {:induction false} WithinFirstWord(t: string, first: string, rest: string)
    requires '_' !in t && t <= first + rest && (rest == [] || rest[0] == '_')
    ensures t <= first
  {
    var s := first + rest;
    assert t == s[..|t|];
    assert rest != [] ==> s[|first|] == '_';
  }

  /** A name that begins another has the other's first words, when its last word begins no other. */
  lemma {:induction false} PrefixOfName(ws: seq<Word>, vs: seq<Word>)
    requires ws != [] && vs != [] && IsFinal(ws[|ws| - 1]) && Name(ws) <= Name(vs)
    ensures ws <= vs
  {
    hide Spelling, Name;
    var w, v := ws[0], vs[0];
    WordLetters(w);
    WordLetters(v);
    NameUnfold(vs);
    NameUnfold(ws);
    if |ws| == 1 {
      assert Name(ws) == Spelling(w);
      WithinFirstWord(Spelling(w), Spelling(v), Tail(vs));
      FinalBegins(v, w);
    } else {
      SameStop(Spelling(w), Name(ws[1..]), Spelling(v), Tail(vs));
      SpellingsDiffer(v, w);
      PrefixOfName(ws[1..], vs[1..]);
      assert ws == [w] + ws[1..] && vs == [v] + vs[1..];
    }
  }

  /** Where the word at index `k` starts. */
  function Offset(vs: seq<Word>, k: nat): nat
    requires k < |vs|
  {
    if k == 0 then 0 else |Spelling(vs[0])| + 1 + Offset(vs[1..], k - 1)
  }

  /** A name that begins with a first word starts inside no word. */
  lemma {:induction false} StartsNoLater(w: Word, x: string, v: Word, rest: string, i: nat)
    requires IsFirst(w) && i <= |Spelling(v)| && (rest == [] || rest[0] == '_')
    requires Spelling(w) + ("_" + x) <= Spelling(v)[i..] + rest
    ensures i == 0
  {
    hide Spelling;
    WordLetters(w);
    WordLetters(v);
    SameStop(Spelling(w), x, Spelling(v)[i..], rest);
    FirstEnds(v, w);
  }

  lemma {:induction false} DropWithin(a: string, b: string, i: nat)
    requires i <= |a|
    ensures (a + b)[i..] == a[i..] + b
  {
  }

  lemma {:induction false} DropPast(a: string, b: string, i: nat)
    requires |a| <= i <= |a| + |b|
    ensures (a + b)[i..] == b[i - |a|..]
  {
  }

  /** A name that occurs in another is a run of the other's words. */
  lemma {:induction false} RunOfWords(vs: seq<Word>, ws: seq<Word>, i: nat) returns (k: nat)
    requires |ws| > 1 && vs != [] && IsFirst(ws[0]) && IsFinal(ws[|ws| - 1])
    requires OccursAt(Name(vs), Name(ws), i)
    ensures k < |vs| && ws <= vs[k..] && i == Offset(vs, k)
    decreases |vs|
  {
    hide Spelling, Name;
    var w, v := ws[0], vs[0];
    NameUnfold(vs);
    NameUnfold(ws);
    WordLetters(w);
    var s := Spelling(v);
    if i <= |s| {
      DropWithin(s, Tail(vs), i);
      StartsNoLater(w, Name(ws[1..]), v, Tail(vs), i);
      assert Name(vs)[0..] == Name(vs);
      PrefixOfName(ws, vs);
      assert vs[0..] == vs;
      k := 0;
    } else {
      DropPast(s, Tail(vs), i);
      assert |vs| > 1;
      DropPast("_", Name(vs[1..]), i - |s|);
      var j := RunOfWords(vs[1..], ws, i - |s| - 1);
      assert vs[1..][j..] == vs[j + 1..];
      k := j + 1;
    }
  }

  /******* The names of `pushConfig` *******/

  /** First words stand in front, alone or as `TEST_DATABASE`, and final words at the end. */
  predicate Shaped(vs: seq<Word>) {
    && |vs| > 1 && IsFirst(vs[0]) && IsFinal(vs[|vs| - 1])
    && (forall i :: 0 <= i < |vs| - 1 ==> !IsFinal(vs[i]))
    && (forall i :: 0 < i < |vs| && IsFirst(vs[i]) ==> i == 1 && vs[0] == Test && vs[1] == Database)
  }

  lemma {:induction false} NamesShaped(a: nat)
    requires a < |NAMES|
    ensures Shaped(NAMES[a])
  {
  }

  /** One shaped name occurs in another only as the whole or behind `TEST_`. */
  lemma {:induction false} ShapedOccurs(vs: seq<Word>, ws: seq<Word>, i: nat)
    requires Shaped(vs) && Shaped(ws) && OccursAt(Name(vs), Name(ws), i)
    ensures (vs == ws && i == 0) || (vs == [Test] + ws && i == |Name(vs)| - |Name(ws)|)
  {
    hide Name, Spelling;
    var k := RunOfWords(vs, ws, i);
    assert ws[0] == vs[k] && ws[|ws| - 1] == vs[k + |ws| - 1];
    assert k + |ws| == |vs|;
    assert ws == vs[k..];
    if k == 0 {
      assert vs[0..] == vs;
    } else {
      assert vs == [Test] + ws && vs[1..] == ws;
      NameUnfold(vs);
      assert Offset(ws, 0) == 0;
    }
  }

  /** `TEST_DATABASE_URL` and `TEST_DATABASE_PROVER_URL` come right after the names that they end in. */
  lemma {:induction false} TestAfter(a: nat, b: nat)
    requires a < b < |NAMES|
    ensures NAMES[a] != NAMES[b] && NAMES[a] != [Test] + NAMES[b]
  {
    var later := [Test] + NAMES[b];
    assert later[0] == Test && |later| == |NAMES[b]| + 1;
  }

  /** The text of the name at index `a`. */
  function Variable(a: nat): string
    requires a < |NAMES|
  {
    Name(NAMES[a])
  }

  function Variables(): set<string> {
    set a: nat | a < |NAMES| :: Variable(a)
  }

  /** Where one of the names occurs in another: in itself, or at the end of a `TEST_` form that is written later. */
  lemma {:induction false} NamesOccur(a: nat, b: nat, i: nat)
    requires a < |NAMES| && b < |NAMES| && OccursAt(Variable(a), Variable(b), i)
    ensures b <= a && i == |Variable(a)| - |Variable(b)| && (a == b ==> i == 0)
  {
    hide Name, Spelling, Shaped, NAMES;
    NamesShaped(a);
    NamesShaped(b);
    ShapedOccurs(NAMES[a], NAMES[b], i);
    if a < b {
      TestAfter(a, b);
    }
  }

  lemma {:induction false} NameIsName(ws: seq<Word>)
    requires ws != []
    ensures IsName(Name(ws))
  {
    hide Spelling;
    WordLetters(ws[0]);
    if |ws| > 1 {
      NameIsName(ws[1..]);
    }
  }

  /** Any two of the names overlap only at their ends. */
  lemma {:induction false} NamesSuffixOnly()
    ensures SuffixOnly(Variables())
  {
    hide Name, OccursAt, IsName;
    forall n | n in Variables()
      ensures IsName(n)
    {
      var a: nat :| a < |NAMES| && n == Variable(a);
      NamesShaped(a);
      NameIsName(NAMES[a]);
    }
    forall m, n, i: nat | m in Variables() && n in Variables() && OccursAt(m, n, i)
      ensures i == |m| - |n|
    {
      var a: nat :| a < |NAMES| && m == Variable(a);
      var b: nat :| b < |NAMES| && n == Variable(b);
      NamesOccur(a, b, i);
    }
  }

  /** Some of the variables in the order of the calls: all of them, or all but four inside Docker. */
  predicate InOrder(order: seq<nat>) {
    && (forall i :: 0 <= i < |order| ==> order[i] < |NAMES|)
    && (forall i, j :: 0 <= i < j < |order| ==> order[i] < order[j])
  }

  function Writes(order: seq<nat>, values: seq<string>): (r: seq<Write>)
    requires InOrder(order) && |values| == |order|
    ensures |r| == |order|
    ensures forall i :: 0 <= i < |r| ==> r[i] == Write(Variable(order[i]), values[i])
  {
    seq(|order|, i requires 0 <= i < |order| => Write(Variable(order[i]), values[i]))
  }

  /** A name is written before the names that end in it. */
  lemma {:induction false} NamesContainedFirst(order: seq<nat>, values: seq<string>)
    requires InOrder(order) && |values| == |order|
    ensures ContainedFirst(Writes(order, values))
  {
    hide Name, OccursAt, Contains, NAMES, Variable;
    var writes := Writes(order, values);
    forall i, j | 0 <= i < j < |writes|
      ensures !Contains(writes[i].name, writes[j].name)
    {
      if Contains(writes[i].name, writes[j].name) {
        var k := ContainsWitness(writes[i].name, writes[j].name);
        NamesOccur(order[i], order[j], k);
      }
    }
  }

  lemma {:induction false} RunMapKeys(m: map<string, string>, writes: seq<Write>, names: set<string>)
    requires m.Keys <= names && forall i :: 0 <= i < |writes| ==> writes[i].name in names
    ensures RunMap(m, writes).Keys <= names
    decreases |writes|
  {
    hide Contains;
    if writes != [] {
      RunMapKeys(ModifiedMap(m, writes[0].name, writes[0].value), writes[1..], names);
    }
  }

  function Names(order: seq<nat>): set<string>
    requires InOrder(order)
  {
    set i | 0 <= i < |order| :: Variable(order[i])
  }

  /** The file sets the given variables, each to its value, and no other variable. */
  ghost predicate Holds(contents: Option<string>, order: seq<nat>, values: seq<string>)
    requires InOrder(order) && |values| == |order|
  {
    && Bindings(contents).Keys == Names(order)
    && forall i :: 0 <= i < |order| ==> Bindings(contents)[Variable(order[i])] == values[i]
  }

  /** What the values must not do: hold a name, a line end or a trailing space. */
  ghost predicate Clean(values: seq<string>) {
    forall i :: 0 <= i < |values| ==> CleanValue(values[i], Variables())
  }

  lemma {:induction false} NamesDiffer(order: seq<nat>, i: nat, j: nat)
    requires InOrder(order) && i < |order| && j < |order| && Variable(order[i]) == Variable(order[j])
    ensures i == j
  {
    hide Name, NAMES, Variable;
    assert Variable(order[i])[0..] == Variable(order[i]);
    NamesOccur(order[i], order[j], 0);
    NamesOccur(order[j], order[i], 0);
  }

  /** The calls on a file that sets no other variables. */
  lemma {:induction false} PushedOnto(contents: Option<string>, order: seq<nat>, values: seq<string>)
    requires InOrder(order) && |values| == |order| && Clean(values)
    requires Tidy(contents, Variables()) && Closed(Bindings(contents), Writes(order, values))
    requires Bindings(contents).Keys <= Names(order)
    ensures forall i :: 0 <= i < |order| ==> Variable(order[i]) != []
    ensures var after := RunFile(contents, Writes(order, values));
      && Holds(after, order, values) && Tidy(after, Variables())
      && Closed(Bindings(after), Writes(order, values))
  {
    hide Tidy, Bindings, RunMap, RunFile, Contains, Closed, ContainedFirst, SuffixOnly, CleanWrites, IsLast, Clean;
    hide Variable, Variables, NAMES, Names, Writes, Holds;
    var writes := Writes(order, values);
    NamesSuffixOnly();
    NamesContainedFirst(order, values);
    CallsAreClean(order, values);
    RunOfModifies(contents, writes, Variables());
    RunRefinesMap(contents, writes, Variables());
    NamesOfWrites(order, values);
    RunMapKeys(Bindings(contents), writes, Names(order));
    var after := RunFile(contents, writes);
    forall i: nat | i < |order|
      ensures Variable(order[i]) in Bindings(after) && Bindings(after)[Variable(order[i])] == values[i]
    {
      WrittenOnce(order, values, i);
    }
    HoldsBy(after, order, values);
  }

  lemma {:induction false} CallsAreClean(order: seq<nat>, values: seq<string>)
    requires InOrder(order) && |values| == |order| && Clean(values)
    ensures CleanWrites(Writes(order, values), Variables())
  {
    hide CleanValue, Variable, NAMES;
  }

  lemma {:induction false} NamesOfWrites(order: seq<nat>, values: seq<string>)
    requires InOrder(order) && |values| == |order|
    ensures forall i :: 0 <= i < |order| ==> Writes(order, values)[i].name in Names(order)
  {
    hide Variable, NAMES;
  }

  lemma {:induction false} WrittenOnce(order: seq<nat>, values: seq<string>, i: nat)
    requires InOrder(order) && |values| == |order| && i < |order|
    ensures IsLast(Writes(order, values), i)
  {
    hide Variable, NAMES;
    var writes := Writes(order, values);
    forall j | i < j < |writes|
      ensures writes[j].name != writes[i].name
    {
      if writes[j].name == writes[i].name {
        NamesDiffer(order, i, j);
      }
    }
  }

  lemma {:induction false} HoldsBy(contents: Option<string>, order: seq<nat>, values: seq<string>)
    requires InOrder(order) && |values| == |order| && Bindings(contents).Keys <= Names(order)
    requires forall i: nat :: i < |order| ==>
      Variable(order[i]) in Bindings(contents) && Bindings(contents)[Variable(order[i])] == values[i]
    ensures Holds(contents, order, values)
  {
    hide Variable, NAMES, Bindings;
  }

  /** `pushConfig` leaves each of its variables with its own value in a file that did not exist. */
  lemma {:induction false} PushedFresh(order: seq<nat>, values: seq<string>)
    requires InOrder(order) && |values| == |order| && Clean(values)
    ensures forall i :: 0 <= i < |order| ==> Variable(order[i]) != []
    ensures Holds(RunFile(None, Writes(order, values)), order, values)
  {
    hide RunFile, CleanValue, Contains, Variable, NAMES, Holds;
    PushedOnto(None, order, values);
  }

  /** A second `pushConfig`, for another environment, replaces every value. */
  lemma {:induction false} PushedAgain(order: seq<nat>, first: seq<string>, second: seq<string>)
    requires InOrder(order) && |first| == |second| == |order| && Clean(first) && Clean(second)
    ensures forall i :: 0 <= i < |order| ==> Variable(order[i]) != []
    ensures Holds(RunFile(RunFile(None, Writes(order, first)), Writes(order, second)), order, second)
  {
    hide RunFile, CleanValue, Contains, Variable, NAMES, Tidy, Bindings;
    assert Tidy(None, Variables()) && Bindings(None) == map[] by { NothingSet(); }
    PushedOnto(None, order, first);
    var between := RunFile(None, Writes(order, first));
    forall i, k | 0 <= i < |order| && k in Bindings(between) && Contains(k, Writes(order, second)[i].name)
      ensures Writes(order, second)[i].name in Bindings(between)
    {
      assert Writes(order, first)[i].name == Writes(order, second)[i].name;
    }
    PushedOnto(between, order, second);
  }

  lemma {:induction false} NothingSet()
    ensures Tidy(None, Variables()) && Bindings(None) == map[]
  {
  }

  /******* The names in full *******/

  /** The words joined by underscores. */
  function Joined(words: seq<string>): string
    requires words != []
  {
    if |words| == 1 then words[0] else words[0] + "_" + Joined(words[1..])
  }

  lemma {:induction false} NameIsJoined(ws: seq<Word>, words: seq<string>)
    requires |ws| == |words| > 0 && forall i :: 0 <= i < |ws| ==> Spelling(ws[i]) == words[i]
    ensures Name(ws) == Joined(words)
  {
    hide Spelling;
    if |ws| > 1 {
      NameIsJoined(ws[1..], words[1..]);
    }
  }

  /** The variables of the web server. */
  lemma {:induction false} WebNames()
    ensures Variable(0) == Joined(["API", "WEB3", "JSON", "RPC", "HTTP", "PORT"])
    ensures Variable(1) == Joined(["API", "WEB3", "JSON", "RPC", "HTTP", "URL"])
    ensures Variable(2) == Joined(["API", "WEB3", "JSON", "RPC", "WS", "PORT"])
    ensures Variable(3) == Joined(["API", "WEB3", "JSON", "RPC", "WS", "URL"])
  {
    hide Name, Joined;
    NameIsJoined(NAMES[0], ["API", "WEB3", "JSON", "RPC", "HTTP", "PORT"]);
    NameIsJoined(NAMES[1], ["API", "WEB3", "JSON", "RPC", "HTTP", "URL"]);
    NameIsJoined(NAMES[2], ["API", "WEB3", "JSON", "RPC", "WS", "PORT"]);
    NameIsJoined(NAMES[3], ["API", "WEB3", "JSON", "RPC", "WS", "URL"]);
  }

  /** The other variables of the interfaces. */
  lemma {:induction false} ApiNames()
    ensures Variable(4) == Joined(["API", "EXPLORER", "PORT"])
    ensures Variable(5) == Joined(["API", "EXPLORER", "URL"])
    ensures Variable(6) == Joined(["API", "CONTRACT", "VERIFICATION", "PORT"])
    ensures Variable(7) == Joined(["API", "CONTRACT", "VERIFICATION", "URL"])
  {
    hide Name, Joined;
    NameIsJoined(NAMES[4], ["API", "EXPLORER", "PORT"]);
    NameIsJoined(NAMES[5], ["API", "EXPLORER", "URL"]);
    NameIsJoined(NAMES[6], ["API", "CONTRACT", "VERIFICATION", "PORT"]);
    NameIsJoined(NAMES[7], ["API", "CONTRACT", "VERIFICATION", "URL"]);
  }

  /** The variables of the monitoring. */
  lemma {:induction false} PrometheusNames()
    ensures Variable(8) == Joined(["API", "PROMETHEUS", "LISTENER", "PORT"])
    ensures Variable(9) == Joined(["API", "PROMETHEUS", "PUSHGATEWAY", "URL"])
    ensures Variable(10) == Joined(["API", "HEALTHCHECK", "PORT"])
    ensures Variable(11) == Joined(["CIRCUIT", "SYNTHESIZER", "PROMETHEUS", "PUSHGATEWAY", "URL"])
  {
    hide Name, Joined;
    NameIsJoined(NAMES[8], ["API", "PROMETHEUS", "LISTENER", "PORT"]);
    NameIsJoined(NAMES[9], ["API", "PROMETHEUS", "PUSHGATEWAY", "URL"]);
    NameIsJoined(NAMES[10], ["API", "HEALTHCHECK", "PORT"]);
    NameIsJoined(NAMES[11], ["CIRCUIT", "SYNTHESIZER", "PROMETHEUS", "PUSHGATEWAY", "URL"]);
  }

  /** The variables of the databases. */
  lemma {:induction false} DatabaseNames()
    ensures Variable(12) == Joined(["DATABASE", "URL"])
    ensures Variable(13) == Joined(["TEST", "DATABASE", "URL"])
    ensures Variable(14) == Joined(["DATABASE", "PROVER", "URL"])
    ensures Variable(15) == Joined(["TEST", "DATABASE", "PROVER", "URL"])
  {
    hide Name, Joined;
    NameIsJoined(NAMES[12], ["DATABASE", "URL"]);
    NameIsJoined(NAMES[13], ["TEST", "DATABASE", "URL"]);
    NameIsJoined(NAMES[14], ["DATABASE", "PROVER", "URL"]);
    NameIsJoined(NAMES[15], ["TEST", "DATABASE", "PROVER", "URL"]);
  }

  /** The path of the state keeper's database. */
  lemma {:induction false} StatePathName()
    ensures Variable(16) == Joined(["DATABASE", "STATE", "KEEPER", "DB", "PATH"])
  {
    hide Name, Joined;
    NameIsJoined(NAMES[16], ["DATABASE", "STATE", "KEEPER", "DB", "PATH"]);
  }

  /** The path of the Merkle tree. */
  lemma {:induction false} TreePathName()
    ensures Variable(17) == Joined(["DATABASE", "MERKLE", "TREE", "PATH"])
  {
    hide Name, Joined;
    NameIsJoined(NAMES[17], ["DATABASE", "MERKLE", "TREE", "PATH"]);
  }

  /** The path of its backup. */
  lemma {:induction false} BackupPathName()
    ensures Variable(18) == Joined(["DATABASE", "MERKLE", "TREE", "BACKUP", "PATH"])
  {
    hide Name, Joined;
    NameIsJoined(NAMES[18], ["DATABASE", "MERKLE", "TREE", "BACKUP", "PATH"]);
  }

  /******* The order matters *******/

  const DATABASE_URL := "DATABASE_URL"
  const TEST_DATABASE_URL := "TEST_DATABASE_URL"

  /** In the other order the longer name takes the value of the shorter one, which is never set. */
  lemma {:induction false} WrongOrder(u: string, v: string)
    ensures var after := RunMap(map[], [Write(TEST_DATABASE_URL, u), Write(DATABASE_URL, v)]);
      after == map[TEST_DATABASE_URL := v]
  {
    assert TEST_DATABASE_URL[5..] == DATABASE_URL;
    ContainsAt(TEST_DATABASE_URL, DATABASE_URL, 5);
    var writes := [Write(TEST_DATABASE_URL, u), Write(DATABASE_URL, v)];
    var m := ModifiedMap(map[], TEST_DATABASE_URL, u);
    assert m == map[TEST_DATABASE_URL := u];
    assert writes[1..] == [Write(DATABASE_URL, v)] && writes[1..][1..] == [];
    assert TEST_DATABASE_URL in m && Contains(TEST_DATABASE_URL, DATABASE_URL);
    var after := ModifiedMap(m, DATABASE_URL, v);
    assert after == map[TEST_DATABASE_URL := v];
    assert RunMap(after, []) == after;
    assert RunMap(m, writes[1..]) == after;
  }
}
