/**
 What a run of the publisher sends and records, in terms of the contracts and the chain alone: the
 bytecodes of every contract that the chain has not marked, and the contracts that the chain runs in
 an older version.
 */
module PublisherFacts {
  import opened Text
  import opened Publisher

  /** The bytecodes that must be known for one contract: what it can create, and its own. */
  function Required(c: SystemContract): seq<Bytecode> {
    (if c.SolidityContract? then c.dependencies else []) + [c.bytecode]
  }

  /** How often the contracts need this bytecode. */
  function Needs(contracts: seq<SystemContract>, code: Bytecode): nat {
    if contracts == [] then 0
    else
      var c := contracts[0];
      (if c.SolidityContract? then multiset(c.dependencies)[code] else 0)
      + (if c.bytecode == code then 1 else 0)
      + Needs(contracts[1..], code)
  }

  lemma {:induction false} AllUnmarkedCounts(node: Node, contracts: seq<SystemContract>, code: Bytecode)
    ensures multiset(AllUnmarked(node, contracts))[code]
         == if node.marker(node.hash(code)) then 0 else Needs(contracts, code)
  {
    if contracts != [] {
      UnmarkedCounts(node, FactoryDeps(contracts[0]), code);
      AllUnmarkedCounts(node, contracts[1..], code);
    }
  }

  /** A run sends a marked bytecode never, and any other one as often as the contracts need it. */
  lemma {:induction false} SentCounts(node: Node, contracts: seq<SystemContract>, nonce: nat, code: Bytecode)
    requires Publishable(node, contracts)
    ensures var ts := Transactions(Batches(Prepared(node, contracts)), nonce);
      multiset(PublishedCodes(ts))[code] == if node.marker(node.hash(code)) then 0 else Needs(contracts, code)
  {
    hide Publishable, Batches, Prepared, Transactions, PublishedCodes, AllUnmarked, Needs;
    RunPublishesUnmarked(node, contracts, nonce);
    AllUnmarkedCounts(node, contracts, code);
  }

  /******* Order *******/

  /** The bytecodes that all contracts need, one contract after the other. */
  function RequiredAll(contracts: seq<SystemContract>): seq<Bytecode> {
    if contracts == [] then [] else Required(contracts[0]) + RequiredAll(contracts[1..])
  }

  /** The positions of the codes that are not marked, in order. */
  ghost predicate Unknown(node: Node, codes: seq<Bytecode>, ks: seq<nat>) {
    Positions(ks, |codes|) && forall k: nat :: k < |codes| ==> (k in ks <==> !node.marker(node.hash(codes[k])))
  }

  lemma {:induction false} NothingUnmarked(node: Node)
    ensures Unmarked(node, []) == []
  {
  }

  lemma {:induction false} UnmarkedSnoc(node: Node, codes: seq<Bytecode>, code: Bytecode)
    ensures Unmarked(node, codes + [code])
         == Unmarked(node, codes) + if node.marker(node.hash(code)) then [] else [code]
  {
    UnmarkedConcat(node, codes, [code]);
    assert [code][1..] == [];
  }

  lemma {:induction false} UnmarkedInOrder(node: Node, codes: seq<Bytecode>) returns (ks: seq<nat>)
    ensures Unknown(node, codes, ks) && Unmarked(node, codes) == Picked(codes, ks)
  {
    hide OneMore, Positions, Picked, Unmarked;
    if codes == [] {
      ks := [];
      NothingPicked<Bytecode>();
      NothingUnmarked(node);
    } else {
      var init, n := codes[..|codes| - 1], |codes| - 1;
      var earlier := UnmarkedInOrder(node, init);
      var taken := !node.marker(node.hash(codes[n]));
      UnmarkedSnoc(node, init, codes[n]);
      assert codes == init + [codes[n]];
      OneMorePosition(earlier, n, taken);
      ks := OneMore(earlier, n, taken);
      PickedSnoc(init, codes[n], earlier, taken);
    }
  }

  lemma {:induction false} AllUnmarkedIsUnmarked(node: Node, contracts: seq<SystemContract>)
    ensures AllUnmarked(node, contracts) == Unmarked(node, RequiredAll(contracts))
  {
    if contracts != [] {
      AllUnmarkedIsUnmarked(node, contracts[1..]);
      UnmarkedConcat(node, Required(contracts[0]), RequiredAll(contracts[1..]));
      assert FactoryDeps(contracts[0]) == Required(contracts[0]);
    }
  }

  /**
   The bytecodes that a run sends are those that the contracts need and the chain has not marked, contract by
   contract, what a contract can create before its own; no transaction has more than 125000 bytes of them.
   */
  lemma {:induction false} SentInOrder(node: Node, contracts: seq<SystemContract>, nonce: nat) returns (ks: seq<nat>)
    requires Publishable(node, contracts)
    ensures Unknown(node, RequiredAll(contracts), ks)
    ensures var ts := Transactions(Batches(Prepared(node, contracts)), nonce);
      && PublishedCodes(ts) == Picked(RequiredAll(contracts), ks)
      && (forall i :: 0 <= i < |ts| ==> |Joined(ts[i].factoryDeps)| <= 125000)
  {
    hide Publishable, Batches, Prepared, Transactions, PublishedCodes, AllUnmarked, Unknown, Unmarked, Joined;
    RunPublishesUnmarked(node, contracts, nonce);
    AllUnmarkedIsUnmarked(node, contracts);
    ks := UnmarkedInOrder(node, RequiredAll(contracts));
    var ts := Transactions(Batches(Prepared(node, contracts)), nonce);
    forall i | 0 <= i < |ts|
      ensures |Joined(ts[i].factoryDeps)| <= 125000
    {
      TotalIsJoined(ts[i].factoryDeps);
    }
  }

  /******* Limits *******/

  /** The codes one after the other. */
  function Joined(codes: seq<Bytecode>): seq<char> {
    if codes == [] then [] else codes[0] + Joined(codes[1..])
  }

  lemma {:induction false} TotalIsJoined(codes: seq<Bytecode>)
    ensures TotalBytesLength(codes) == |Joined(codes)|
  {
    if codes != [] {
      TotalIsJoined(codes[1..]);
    }
  }

  /** The bytes of a contract that the chain has not marked. */
  function UnknownBytes(node: Node, codes: seq<Bytecode>): nat {
    if codes == [] then 0
    else (if node.marker(node.hash(codes[0])) then 0 else |codes[0]|) + UnknownBytes(node, codes[1..])
  }

  lemma {:induction false} UnknownBytesAre(node: Node, codes: seq<Bytecode>)
    ensures TotalBytesLength(Unmarked(node, codes)) == UnknownBytes(node, codes)
  {
    if codes != [] {
      UnknownBytesAre(node, codes[1..]);
      TotalOfConcat(if IsMarked(node, codes[0]) then [] else [codes[0]], Unmarked(node, codes[1..]));
    }
  }

  /** A run is possible exactly when no contract needs more than 125000 bytes that are not marked. */
  lemma {:induction false} PublishableIff(node: Node, contracts: seq<SystemContract>)
    ensures Publishable(node, contracts)
       <==> forall i :: 0 <= i < |contracts| ==> UnknownBytes(node, Required(contracts[i])) <= 125000
  {
    hide Unmarked, UnknownBytes, TotalBytesLength;
    forall i | 0 <= i < |contracts|
      ensures TotalBytesLength(Unmarked(node, FactoryDeps(contracts[i])))
           == UnknownBytes(node, Required(contracts[i]))
    {
      UnknownBytesAre(node, Required(contracts[i]));
      assert FactoryDeps(contracts[i]) == Required(contracts[i]);
    }
  }

  /******* What is to be upgraded *******/

  /** The chain runs another code at the contract's address. */
  predicate IsOld(node: Node, c: SystemContract) {
    node.hash(c.bytecode) != node.codeHash(c.address)
  }

  /** The record of each contract: its name, the hash of its own bytecode and its address. */
  function Records(node: Node, contracts: seq<SystemContract>): (r: seq<DeployedDependency>)
    ensures |r| == |contracts|
  {
    seq(|contracts|, k requires 0 <= k < |contracts| =>
      DeployedDependency(contracts[k].codeName, [node.hash(contracts[k].bytecode)], contracts[k].address))
  }

  /** The positions of the contracts whose code the chain does not run. */
  ghost predicate Old(node: Node, contracts: seq<SystemContract>, ks: seq<nat>) {
    Positions(ks, |contracts|) && forall k: nat :: k < |contracts| ==> (k in ks <==> IsOld(node, contracts[k]))
  }

  lemma {:induction false} OutdatedSnoc(node: Node, contracts: seq<SystemContract>, c: SystemContract)
    ensures Outdated(node, contracts + [c]) == Outdated(node, contracts)
              + if IsOld(node, c) then [DeployedDependency(c.codeName, [node.hash(c.bytecode)], c.address)] else []
  {
    OutdatedConcat(node, contracts, [c]);
    assert [c][1..] == [];
  }

  /**
   The contracts that are recorded are those whose own bytecode has another hash than the chain reports at their
   address, in order, each with its name, this hash and its address.
   */
  lemma {:induction false} RecordedInOrder(node: Node, contracts: seq<SystemContract>) returns (ks: seq<nat>)
    ensures Old(node, contracts, ks) && Outdated(node, contracts) == Picked(Records(node, contracts), ks)
  {
    hide OneMore, Positions, Picked, IsOld, Outdated;
    if contracts == [] {
      ks := [];
      NothingPicked<DeployedDependency>();
      NothingPrepared(node);
      assert Records(node, contracts) == [];
    } else {
      var init, c, n := contracts[..|contracts| - 1], contracts[|contracts| - 1], |contracts| - 1;
      var earlier := RecordedInOrder(node, init);
      OutdatedSnoc(node, init, c);
      assert contracts == init + [c];
      assert Records(node, contracts)
          == Records(node, init) + [DeployedDependency(c.codeName, [node.hash(c.bytecode)], c.address)];
      OneMorePosition(earlier, n, IsOld(node, c));
      ks := OneMore(earlier, n, IsOld(node, c));
      PickedSnoc(Records(node, init), Records(node, contracts)[n], earlier, IsOld(node, c));
    }
  }
}
