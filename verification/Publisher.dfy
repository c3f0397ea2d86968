/**
 Publishing the bytecodes of the system contracts: the ones that the chain does not know
 yet are filtered out, packed greedily into transactions of limited size, and sent with
 consecutive nonces.
 */
module Publisher {
  import opened Text

  /** The bytes of a contract's code. */
  type Bytecode = string

  const MAX_COMBINED_LENGTH: nat := 125000

  datatype Dependency = Dependency(name: string, bytecodes: seq<Bytecode>, address: string)

  datatype DeployedDependency = DeployedDependency(name: string, bytecodeHashes: seq<string>, address: string)

  /** A Solidity contract comes with the bytecodes it can create; a Yul one has only its own. */
  datatype SystemContract =
    | SolidityContract(codeName: string, address: string, dependencies: seq<Bytecode>, bytecode: Bytecode)
    | YulContract(codeName: string, address: string, bytecode: Bytecode)

  /** Every bytecode the contract needs to be known, its own last. */
  function FactoryDeps(c: SystemContract): (codes: seq<Bytecode>)
    ensures codes != [] && codes[|codes| - 1] == c.bytecode
  {
    match c
    case SolidityContract(_, _, dependencies, bytecode) => dependencies + [bytecode]
    case YulContract(_, _, bytecode) => [bytecode]
  }

  /** A call of `requestExecute`: what the chain receives. */
  datatype Transaction = Transaction(nonce: nat, factoryDeps: seq<Bytecode>)

  /** What the node answers about the chain before anything is published. */
  datatype Node = Node(hash: Bytecode -> string, marker: string -> bool, codeHash: string -> string)

  /******* Lengths *******/

  function TotalBytesLength(codes: seq<Bytecode>): nat {
    if codes == [] then 0 else |codes[0]| + TotalBytesLength(codes[1..])
  }

  function GetBytecodes(ds: seq<Dependency>): seq<Bytecode> {
    if ds == [] then [] else ds[0].bytecodes + GetBytecodes(ds[1..])
  }

  function Length(d: Dependency): nat {
    TotalBytesLength(d.bytecodes)
  }

  function BatchLength(ds: seq<Dependency>): nat {
    if ds == [] then 0 else Length(ds[0]) + BatchLength(ds[1..])
  }

  lemma {:induction false} TotalOfConcat(a: seq<Bytecode>, b: seq<Bytecode>)
    ensures TotalBytesLength(a + b) == TotalBytesLength(a) + TotalBytesLength(b)
  {
    if a == [] {
      assert a + b == b;
    } else {
      assert (a + b)[1..] == a[1..] + b;
      TotalOfConcat(a[1..], b);
    }
  }

  /** The combined length that a batch is sent with is the sum of its dependencies' lengths. */
  lemma {:induction false} BatchLengthIsTotal(ds: seq<Dependency>)
    ensures TotalBytesLength(GetBytecodes(ds)) == BatchLength(ds)
  {
    if ds != [] {
      TotalOfConcat(ds[0].bytecodes, GetBytecodes(ds[1..]));
      BatchLengthIsTotal(ds[1..]);
    }
  }

  lemma {:induction false} BatchLengthConcat(a: seq<Dependency>, b: seq<Dependency>)
    ensures BatchLength(a + b) == BatchLength(a) + BatchLength(b)
  {
    if a == [] {
      assert a + b == b;
    } else {
      assert (a + b)[1..] == a[1..] + b;
      BatchLengthConcat(a[1..], b);
    }
  }

  /******* Greedy batches *******/

  /** How many of the first dependencies fit into the room that is left. */
  function Fitting(ds: seq<Dependency>, room: int): (k: nat)
    ensures k <= |ds|
  {
    if ds == [] || Length(ds[0]) > room then 0 else 1 + Fitting(ds[1..], room - Length(ds[0]))
  }

  /** A batch takes the next dependency whatever its length, and then all that fit. */
  function FirstBatch(ds: seq<Dependency>): (k: nat)
    requires ds != []
    ensures 0 < k <= |ds|
  {
    1 + Fitting(ds[1..], MAX_COMBINED_LENGTH - Length(ds[0]))
  }

  function Batches(ds: seq<Dependency>): seq<seq<Dependency>> {
    if ds == [] then [] else [ds[..FirstBatch(ds)]] + Batches(ds[FirstBatch(ds)..])
  }

  function Flatten(batches: seq<seq<Dependency>>): seq<Dependency> {
    if batches == [] then [] else batches[0] + Flatten(batches[1..])
  }

  /** The dependencies cut into consecutive groups, none of them over the limit. */
  ghost predicate IsPartition(groups: seq<seq<Dependency>>, ds: seq<Dependency>) {
    Flatten(groups) == ds && forall i :: 0 <= i < |groups| ==> BatchLength(groups[i]) <= MAX_COMBINED_LENGTH
  }

  /** `Fitting` is the longest prefix within the room. */
  lemma {:induction false} FittingIsLongest(ds: seq<Dependency>, room: int, k: nat)
    requires k <= |ds|
    ensures k <= Fitting(ds, room) <==> k == 0 || BatchLength(ds[..k]) <= room
  {
    if k > 0 {
      assert ds[..k][1..] == ds[1..][..k - 1];
      if Length(ds[0]) <= room {
        FittingIsLongest(ds[1..], room - Length(ds[0]), k - 1);
        assert k == 1 ==> BatchLength(ds[..k]) == Length(ds[0]);
      }
    }
  }

  /** The first batch reaches at least as far as any group within the limit. */
  lemma {:induction false} FirstBatchIsLongest(ds: seq<Dependency>, k: nat)
    requires ds != [] && k <= |ds|
    ensures k <= FirstBatch(ds) <==> k <= 1 || BatchLength(ds[..k]) <= MAX_COMBINED_LENGTH
  {
    if k > 0 {
      FittingIsLongest(ds[1..], MAX_COMBINED_LENGTH - Length(ds[0]), k - 1);
      assert ds[..k][1..] == ds[1..][..k - 1];
    }
  }

  lemma {:induction false} BatchesFlatten(ds: seq<Dependency>)
    ensures Flatten(Batches(ds)) == ds
  {
    if ds != [] {
      BatchesFlatten(ds[FirstBatch(ds)..]);
    }
  }

  /** No batch is empty, and only a single dependency that exceeds the limit itself is sent over the limit. */
  lemma {:induction false} BatchesWithinLimit(ds: seq<Dependency>, i: nat)
    requires i < |Batches(ds)|
    ensures var batch := Batches(ds)[i];
      batch != [] && (BatchLength(batch) <= MAX_COMBINED_LENGTH || |batch| == 1)
  {
    if i > 0 {
      BatchesWithinLimit(ds[FirstBatch(ds)..], i - 1);
    } else {
      FirstBatchIsLongest(ds, FirstBatch(ds));
    }
  }

  /** Two batches that follow each other would not have fitted into one. */
  lemma {:induction false} AdjacentBatchesExceed(ds: seq<Dependency>, i: nat)
    requires i + 1 < |Batches(ds)|
    ensures BatchLength(Batches(ds)[i]) + BatchLength(Batches(ds)[i + 1]) > MAX_COMBINED_LENGTH
  {
    var k := FirstBatch(ds);
    if i > 0 {
      AdjacentBatchesExceed(ds[k..], i - 1);
    } else {
      var second := Batches(ds)[1];
      FirstBatchIsLongest(ds, k + 1);
      assert ds[..k + 1] == ds[..k] + [ds[k]];
      BatchLengthConcat(ds[..k], [ds[k]]);
      assert second == ds[k..][..FirstBatch(ds[k..])] && second[0] == ds[k];
      assert BatchLength([ds[k]]) == Length(ds[k]);
    }
  }

  /******* No way of cutting needs fewer batches *******/

  /** The groups without their first `n` dependencies. */
  function Drop(groups: seq<seq<Dependency>>, n: nat): seq<seq<Dependency>> {
    if groups == [] then []
    else if |groups[0]| <= n then Drop(groups[1..], n - |groups[0]|)
    else [groups[0][n..]] + groups[1..]
  }

  lemma {:induction false} PartitionCons(groups: seq<seq<Dependency>>, ds: seq<Dependency>)
    requires groups != []
    ensures IsPartition(groups, ds)
       <==> (&& groups[0] <= ds && BatchLength(groups[0]) <= MAX_COMBINED_LENGTH
             && IsPartition(groups[1..], ds[|groups[0]|..]))
  {
    hide BatchLength;
    var first, rest := groups[0], groups[1..];
    assert first <= ds ==> ds == first + ds[|first|..];
    assert (first + Flatten(rest))[|first|..] == Flatten(rest);
    assert forall i :: 0 < i < |groups| ==> groups[i] == rest[i - 1];
    assert forall i :: 0 <= i < |rest| ==> rest[i] == groups[i + 1];
  }

  lemma {:induction false} DropIsPartition(groups: seq<seq<Dependency>>, ds: seq<Dependency>, n: nat)
    requires IsPartition(groups, ds) && n <= |ds|
    ensures IsPartition(Drop(groups, n), ds[n..])
    ensures |Drop(groups, n)| <= |groups|
    ensures groups != [] && |groups[0]| <= n ==> |Drop(groups, n)| < |groups|
  {
    if groups != [] {
      hide IsPartition;
      var first, rest := groups[0], groups[1..];
      PartitionCons(groups, ds);
      if |first| <= n {
        DropIsPartition(rest, ds[|first|..], n - |first|);
        assert ds[n..] == ds[|first|..][n - |first|..];
      } else {
        DropWithinFirst(groups, ds, n);
      }
    }
  }

  lemma {:induction false} DropWithinFirst(groups: seq<seq<Dependency>>, ds: seq<Dependency>, n: nat)
    requires IsPartition(groups, ds) && groups != [] && n < |groups[0]| && n <= |ds|
    ensures IsPartition([groups[0][n..]] + groups[1..], ds[n..])
  {
    hide IsPartition, BatchLength;
    var first, rest := groups[0], groups[1..];
    var groups' := [first[n..]] + rest;
    PartitionCons(groups, ds);
    assert first == first[..n] + first[n..];
    BatchLengthConcat(first[..n], first[n..]);
    assert ds == first + ds[|first|..];
    assert ds[n..] == first[n..] + ds[|first|..];
    assert ds[n..][|first[n..]|..] == ds[|first|..];
    assert groups'[0] == first[n..] && groups'[1..] == rest;
    PartitionCons(groups', ds[n..]);
  }

  /** Greedy batching uses the fewest batches of any cut into consecutive groups within the limit. */
  lemma {:induction false} BatchesAreFewest(ds: seq<Dependency>, groups: seq<seq<Dependency>>)
    requires IsPartition(groups, ds)
    ensures |Batches(ds)| <= |groups|
    decreases |ds|
  {
    if ds != [] {
      var k := FirstBatch(ds);
      var n := |groups[0]|;
      assert groups[0] == ds[..n];
      FirstBatchIsLongest(ds, n);
      DropIsPartition(groups, ds, k);
      BatchesAreFewest(ds[k..], Drop(groups, k));
    }
  }

  /******* Transactions *******/

  function Transactions(batches: seq<seq<Dependency>>, nonce: nat): (ts: seq<Transaction>)
    ensures |ts| == |batches|
    ensures forall i :: 0 <= i < |ts| ==> ts[i] == Transaction(nonce + i, GetBytecodes(batches[i]))
  {
    if batches == [] then []
    else [Transaction(nonce, GetBytecodes(batches[0]))] + Transactions(batches[1..], nonce + 1)
  }

  function PublishedCodes(ts: seq<Transaction>): seq<Bytecode> {
    if ts == [] then [] else ts[0].factoryDeps + PublishedCodes(ts[1..])
  }

  lemma {:induction false} GetBytecodesConcat(a: seq<Dependency>, b: seq<Dependency>)
    ensures GetBytecodes(a + b) == GetBytecodes(a) + GetBytecodes(b)
  {
    if a == [] {
      assert a + b == b;
    } else {
      assert (a + b)[1..] == a[1..] + b;
      GetBytecodesConcat(a[1..], b);
    }
  }

  /** Batching neither loses, repeats nor reorders bytecodes. */
  lemma {:induction false} TransactionsCarryAll(batches: seq<seq<Dependency>>, nonce: nat)
    ensures PublishedCodes(Transactions(batches, nonce)) == GetBytecodes(Flatten(batches))
    decreases |batches|
  {
    if batches != [] {
      TransactionsCarryAll(batches[1..], nonce + 1);
      GetBytecodesConcat(batches[0], Flatten(batches[1..]));
    }
  }

  /******* What is to be published *******/

  predicate IsMarked(node: Node, code: Bytecode) {
    node.marker(node.hash(code))
  }

  function Unmarked(node: Node, codes: seq<Bytecode>): seq<Bytecode> {
    if codes == [] then []
    else (if IsMarked(node, codes[0]) then [] else [codes[0]]) + Unmarked(node, codes[1..])
  }

  function PreparedOne(node: Node, c: SystemContract): seq<Dependency> {
    var codes := Unmarked(node, FactoryDeps(c));
    if codes == [] then [] else [Dependency(c.codeName, codes, c.address)]
  }

  function Prepared(node: Node, contracts: seq<SystemContract>): seq<Dependency> {
    if contracts == [] then [] else PreparedOne(node, contracts[0]) + Prepared(node, contracts[1..])
  }

  /** The unknown bytecodes of every single contract fit into one transaction. */
  predicate Publishable(node: Node, contracts: seq<SystemContract>) {
    forall i :: 0 <= i < |contracts| ==>
      TotalBytesLength(Unmarked(node, FactoryDeps(contracts[i]))) <= MAX_COMBINED_LENGTH
  }

  function AllUnmarked(node: Node, contracts: seq<SystemContract>): seq<Bytecode> {
    if contracts == [] then [] else Unmarked(node, FactoryDeps(contracts[0])) + AllUnmarked(node, contracts[1..])
  }

  /** The contracts whose own bytecode, the last one, is not what the chain runs. */
  function Outdated(node: Node, contracts: seq<SystemContract>): seq<DeployedDependency>
  {
    if contracts == [] then [] else OutdatedOne(node, contracts[0]) + Outdated(node, contracts[1..])
  }

  function OutdatedOne(node: Node, c: SystemContract): seq<DeployedDependency>
  {
    var hash := node.hash(FactoryDeps(c)[|FactoryDeps(c)| - 1]);
    if hash != node.codeHash(c.address) then [DeployedDependency(c.codeName, [hash], c.address)] else []
  }

  lemma {:induction false} UnmarkedConcat(node: Node, a: seq<Bytecode>, b: seq<Bytecode>)
    ensures Unmarked(node, a + b) == Unmarked(node, a) + Unmarked(node, b)
  {
    if a == [] {
      assert a + b == b;
    } else {
      assert (a + b)[1..] == a[1..] + b;
      UnmarkedConcat(node, a[1..], b);
    }
  }

  lemma {:induction false} PreparedConcat(node: Node, a: seq<SystemContract>, b: seq<SystemContract>)
    ensures Prepared(node, a + b) == Prepared(node, a) + Prepared(node, b)
  {
    if a == [] {
      assert a + b == b;
    } else {
      assert (a + b)[1..] == a[1..] + b;
      PreparedConcat(node, a[1..], b);
    }
  }

  lemma {:induction false} OutdatedConcat(node: Node, a: seq<SystemContract>, b: seq<SystemContract>)
    ensures Outdated(node, a + b) == Outdated(node, a) + Outdated(node, b)
  {
    if a == [] {
      assert a + b == b;
    } else {
      assert (a + b)[1..] == a[1..] + b;
      OutdatedConcat(node, a[1..], b);
    }
  }

  lemma {:induction false} NothingPrepared(node: Node)
    ensures Prepared(node, []) == [] && Outdated(node, []) == [] && TotalBytesLength([]) == 0
  {
  }

  lemma {:induction false} OneMoreContract(node: Node, contracts: seq<SystemContract>, n: nat)
    requires n < |contracts|
    ensures Prepared(node, contracts[..n + 1]) == Prepared(node, contracts[..n]) + PreparedOne(node, contracts[n])
    ensures Outdated(node, contracts[..n + 1]) == Outdated(node, contracts[..n]) + OutdatedOne(node, contracts[n])
  {
    hide PreparedOne, OutdatedOne;
    var contract := contracts[n];
    assert contracts[..n + 1] == contracts[..n] + [contract];
    PreparedConcat(node, contracts[..n], [contract]);
    OutdatedConcat(node, contracts[..n], [contract]);
    assert Prepared(node, [contract]) == PreparedOne(node, contract) + Prepared(node, []);
    assert Outdated(node, [contract]) == OutdatedOne(node, contract) + Outdated(node, []);
  }

  /** Preparing keeps exactly the bytecodes that are not marked, and skips no contract that has some. */
  lemma {:induction false} PreparedCarriesUnmarked(node: Node, contracts: seq<SystemContract>)
    ensures GetBytecodes(Prepared(node, contracts)) == AllUnmarked(node, contracts)
  {
    if contracts != [] {
      var head := PreparedOne(node, contracts[0]);
      PreparedCarriesUnmarked(node, contracts[1..]);
      GetBytecodesConcat(head, Prepared(node, contracts[1..]));
      assert GetBytecodes(head) == Unmarked(node, FactoryDeps(contracts[0]));
    }
  }

  lemma {:induction false} PreparedFits(node: Node, contracts: seq<SystemContract>, i: nat)
    requires Publishable(node, contracts) && i < |Prepared(node, contracts)|
    ensures Length(Prepared(node, contracts)[i]) <= MAX_COMBINED_LENGTH
    ensures Prepared(node, contracts)[i].bytecodes != []
    decreases |contracts|
  {
    var codes := Unmarked(node, FactoryDeps(contracts[0]));
    assert Publishable(node, contracts[1..]);
    if codes == [] {
      assert Prepared(node, contracts) == Prepared(node, contracts[1..]);
      PreparedFits(node, contracts[1..], i);
    } else if i > 0 {
      PreparedFits(node, contracts[1..], i - 1);
    }
  }

  /** A run over all contracts: what it sends, for every chain and every list of contracts. */
  lemma {:induction false} RunPublishesUnmarked(node: Node, contracts: seq<SystemContract>, nonce: nat)
    requires Publishable(node, contracts)
    ensures var ts := Transactions(Batches(Prepared(node, contracts)), nonce);
      && PublishedCodes(ts) == AllUnmarked(node, contracts)
      && (forall i :: 0 <= i < |ts| ==>
            ts[i].nonce == nonce + i && TotalBytesLength(ts[i].factoryDeps) <= MAX_COMBINED_LENGTH
            && ts[i].factoryDeps != [])
  {
    var ds := Prepared(node, contracts);
    var ts := Transactions(Batches(ds), nonce);
    BatchesFlatten(ds);
    TransactionsCarryAll(Batches(ds), nonce);
    PreparedCarriesUnmarked(node, contracts);
    forall i | 0 <= i < |ts|
      ensures TotalBytesLength(ts[i].factoryDeps) <= MAX_COMBINED_LENGTH && ts[i].factoryDeps != []
    {
      PreparedBatchFits(node, contracts, i);
      BatchLengthIsTotal(Batches(ds)[i]);
    }
  }

  lemma {:induction false} BatchMembers(ds: seq<Dependency>, i: nat)
    requires i < |Batches(ds)|
    ensures forall d :: d in Batches(ds)[i] ==> d in ds
  {
    if i > 0 {
      BatchMembers(ds[FirstBatch(ds)..], i - 1);
    }
  }

  lemma {:induction false} PreparedBatchFits(node: Node, contracts: seq<SystemContract>, i: nat)
    requires Publishable(node, contracts) && i < |Batches(Prepared(node, contracts))|
    ensures var batch := Batches(Prepared(node, contracts))[i];
      BatchLength(batch) <= MAX_COMBINED_LENGTH && GetBytecodes(batch) != []
  {
    var ds := Prepared(node, contracts);
    var batch := Batches(ds)[i];
    BatchesWithinLimit(ds, i);
    BatchMembers(ds, i);
    assert batch[0] in ds;
    var j :| 0 <= j < |ds| && ds[j] == batch[0];
    PreparedFits(node, contracts, j);
    assert |batch| == 1 ==> BatchLength(batch) == Length(batch[0]);
  }

  /** Filtering keeps every occurrence of every bytecode that is not marked, and none that is. */
  lemma {:induction false} UnmarkedCounts(node: Node, codes: seq<Bytecode>, code: Bytecode)
    ensures multiset(Unmarked(node, codes))[code] == if IsMarked(node, code) then 0 else multiset(codes)[code]
  {
    if codes != [] {
      UnmarkedCounts(node, codes[1..], code);
      assert codes == [codes[0]] + codes[1..];
    }
  }

  /** `filterPublishedFactoryDeps` */
  method FilterPublishedFactoryDeps(node: Node, factoryDeps: seq<Bytecode>) returns (r: seq<Bytecode>, length: nat)
    ensures r == Unmarked(node, factoryDeps) && length == TotalBytesLength(r)
  {
    var currentLength := 0;
    var bytecodesToDeploy: seq<Bytecode> := [];
    for i := 0 to |factoryDeps|
      invariant bytecodesToDeploy == Unmarked(node, factoryDeps[..i])
      invariant currentLength == TotalBytesLength(bytecodesToDeploy)
    {
      var code := factoryDeps[i];
      assert factoryDeps[..i + 1] == factoryDeps[..i] + [code];
      UnmarkedConcat(node, factoryDeps[..i], [code]);
      if !IsMarked(node, code) {
        TotalOfConcat(bytecodesToDeploy, [code]);
        currentLength := currentLength + |code|;
        bytecodesToDeploy := bytecodesToDeploy + [code];
      }
    }
    assert factoryDeps[..|factoryDeps|] == factoryDeps;
    return bytecodesToDeploy, currentLength;
  }

  /******* The deployer *******/

  /** The current batch is one that greedy batching would still extend. */
  ghost predicate Open(current: seq<Dependency>) {
    current == [] || FirstBatch(current) == |current|
  }

  lemma {:induction false} OpenGrows(current: seq<Dependency>, d: Dependency)
    requires Open(current)
    requires current == [] || BatchLength(current) + Length(d) <= MAX_COMBINED_LENGTH
    ensures Open(current + [d])
  {
    var bigger := current + [d];
    BatchLengthConcat(current, [d]);
    assert BatchLength([d]) == Length(d);
    FirstBatchIsLongest(bigger, |bigger|);
    assert bigger[..|bigger|] == bigger;
  }

  /** A dependency that does not fit closes the current batch. */
  lemma {:induction false} OpenCloses(current: seq<Dependency>, d: Dependency, rest: seq<Dependency>)
    requires Open(current) && current != [] && BatchLength(current) + Length(d) > MAX_COMBINED_LENGTH
    ensures Batches(current + ([d] + rest)) == [current] + Batches([d] + rest)
  {
    var ds, k := current + ([d] + rest), |current|;
    FirstBatchIsLongest(current, k);
    assert current[..k] == current && ds[..k] == current && ds[k..] == [d] + rest;
    FirstBatchIsLongest(ds, k);
    assert ds[..k + 1] == current + [d];
    BatchLengthConcat(current, [d]);
    assert BatchLength([d]) == Length(d);
    FirstBatchIsLongest(ds, k + 1);
  }

  lemma {:induction false} NothingBatched(nonce: nat)
    ensures Open([]) && BatchLength([]) == 0 && Transactions([], nonce) == []
  {
  }

  lemma {:induction false} SingleBatch(d: Dependency)
    ensures Open([d]) && BatchLength([d]) == Length(d)
  {
  }

  lemma {:induction false} OpenIsLast(current: seq<Dependency>)
    requires Open(current)
    ensures Batches(current) == if current == [] then [] else [current]
  {
    if current != [] {
      assert current[..|current|] == current && current[|current|..] == [];
      assert Batches([]) == [];
    }
  }

  class ZkSyncDeployer {
    const node: Node
    var nonce: nat
    var dependenciesToUpgrade: seq<DeployedDependency>
    /** The transactions that were sent, in order. */
    var sent: seq<Transaction>

    constructor (node: Node, nonce: nat)
      ensures this.node == node && this.nonce == nonce && dependenciesToUpgrade == [] && sent == []
    {
      this.node := node;
      this.nonce := nonce;
      dependenciesToUpgrade := [];
      sent := [];
    }

    method PublishFactoryDeps(ds: seq<Dependency>)
      modifies this
      ensures dependenciesToUpgrade == old(dependenciesToUpgrade)
      ensures if ds == [] then sent == old(sent) && nonce == old(nonce)
              else sent == old(sent) + [Transaction(old(nonce), GetBytecodes(ds))] && nonce == old(nonce) + 1
    {
      if |ds| == 0 {
        return;
      }
      sent := sent + [Transaction(nonce, GetBytecodes(ds))];
      nonce := nonce + 1;
    }

    /** `publishDependencies`: one transaction for each greedy batch, with consecutive nonces. */
    method PublishDependencies(ds: seq<Dependency>)
      modifies this
      ensures dependenciesToUpgrade == old(dependenciesToUpgrade)
      ensures sent == old(sent) + Transactions(Batches(ds), old(nonce))
      ensures nonce == old(nonce) + |Batches(ds)|
    {
      hide Batches, BatchLength, Length, Open, GetBytecodes, Transactions;
      var currentLength := 0;
      var currentDependencies: seq<Dependency> := [];
      ghost var done: seq<seq<Dependency>> := [];
      assert [] + ds == ds && done + Batches(ds) == Batches(ds);
      NothingBatched(nonce);
      for i := 0 to |ds|
        invariant dependenciesToUpgrade == old(dependenciesToUpgrade)
        invariant Batches(ds) == done + Batches(currentDependencies + ds[i..])
        invariant Open(currentDependencies) && currentLength == BatchLength(currentDependencies)
        invariant sent == old(sent) + Transactions(done, old(nonce)) && nonce == old(nonce) + |done|
      {
        var dependency := ds[i];
        ghost var rest := ds[i + 1..];
        assert ds[i..] == [dependency] + rest;
        SingleBatch(dependency);
        if currentLength + Length(dependency) > MAX_COMBINED_LENGTH {
          if currentDependencies != [] {
            OpenCloses(currentDependencies, dependency, rest);
            OneMoreTransaction(done, currentDependencies, old(nonce));
            assert done + ([currentDependencies] + Batches([dependency] + rest))
                == (done + [currentDependencies]) + Batches([dependency] + rest);
            done := done + [currentDependencies];
          } else {
            assert [] + ([dependency] + rest) == [dependency] + rest;
          }
          PublishFactoryDeps(currentDependencies);
          currentLength := Length(dependency);
          currentDependencies := [dependency];
        } else {
          OpenGrows(currentDependencies, dependency);
          BatchLengthConcat(currentDependencies, [dependency]);
          assert currentDependencies + ([dependency] + rest) == (currentDependencies + [dependency]) + rest;
          currentLength := currentLength + Length(dependency);
          currentDependencies := currentDependencies + [dependency];
        }
      }
      assert currentDependencies + ds[|ds|..] == currentDependencies;
      OpenIsLast(currentDependencies);
      if |currentDependencies| > 0 {
        OneMoreTransaction(done, currentDependencies, old(nonce));
        PublishFactoryDeps(currentDependencies);
      } else {
        assert done + [] == done;
      }
    }

    /** `prepareContractsForPublishing`: throws when one contract's unknown bytecodes exceed the limit. */
    method PrepareContractsForPublishing(contracts: seq<SystemContract>) returns (r: Result<seq<Dependency>>)
      modifies this`dependenciesToUpgrade
      ensures r.Success? <==> Publishable(node, contracts)
      ensures r.Success? ==> r.value == Prepared(node, contracts)
      ensures r.Success? ==> dependenciesToUpgrade == old(dependenciesToUpgrade) + Outdated(node, contracts)
    {
      hide TotalBytesLength, Unmarked, Prepared, Outdated;
      NothingPrepared(node);
      assert contracts[..0] == [];
      var dependenciesToPublish: seq<Dependency> := [];
      for n := 0 to |contracts|
        invariant dependenciesToPublish == Prepared(node, contracts[..n])
        invariant Publishable(node, contracts[..n])
        invariant dependenciesToUpgrade == old(dependenciesToUpgrade) + Outdated(node, contracts[..n])
      {
        var contract := contracts[n];
        OneMoreContract(node, contracts, n);
        var hash := node.hash(FactoryDeps(contract)[|FactoryDeps(contract)| - 1]);
        if hash != node.codeHash(contract.address) {
          dependenciesToUpgrade :=
            dependenciesToUpgrade + [DeployedDependency(contract.codeName, [hash], contract.address)];
        }
        var bytecodesToPublish, currentLength := FilterPublishedFactoryDeps(node, FactoryDeps(contract));
        if |bytecodesToPublish| == 0 {
          NothingPrepared(node);
          continue;
        }
        if currentLength > MAX_COMBINED_LENGTH {
          return Failure("Can not publish dependencies of contract " + contract.codeName);
        }
        dependenciesToPublish :=
          dependenciesToPublish + [Dependency(contract.codeName, bytecodesToPublish, contract.address)];
      }
      assert contracts[..|contracts|] == contracts;
      r := Success(dependenciesToPublish);
    }

    /** The command: nothing is sent unless every contract can be published. */
    method PublishSystemContracts(contracts: seq<SystemContract>) returns (ok: bool)
      modifies this
      ensures ok <==> Publishable(node, contracts)
      ensures !ok ==> sent == old(sent) && nonce == old(nonce)
      ensures ok ==>
        && sent == old(sent) + Transactions(Batches(Prepared(node, contracts)), old(nonce))
        && PublishedCodes(sent[|old(sent)|..]) == AllUnmarked(node, contracts)
        && nonce == old(nonce) + |sent| - |old(sent)|
        && dependenciesToUpgrade == old(dependenciesToUpgrade) + Outdated(node, contracts)
    {
      var prepared := PrepareContractsForPublishing(contracts);
      if prepared.Failure? {
        return false;
      }
      PublishDependencies(prepared.value);
      RunPublishesUnmarked(node, contracts, old(nonce));
      assert sent[|old(sent)|..] == Transactions(Batches(Prepared(node, contracts)), old(nonce));
      ok := true;
    }
  }

  lemma {:induction false} OneMoreTransaction(done: seq<seq<Dependency>>, batch: seq<Dependency>, nonce: nat)
    ensures Transactions(done + [batch], nonce)
         == Transactions(done, nonce) + [Transaction(nonce + |done|, GetBytecodes(batch))]
  {
  }
}
