/** The chain of blocks: construction, appending with mining, and validation
    (blockchain.go:21-25, 45-79). The clock read by `time.Now()` is a
    parameter of the operations that read it. */
module Chains {
  import opened GoStrings
  import opened Blocks

  datatype Blockchain = Blockchain(genesisBlock: Block, chain: seq<Block>, difficulty: int)

  /** What every chain built by `createBlockchain` and `addBlock` satisfies:
      it is never empty and starts with its genesis block. `addBlock` and
      `isValid` index the chain, so both need it to be non-empty. */
  predicate WellFormed(bc: Blockchain)
  {
    |bc.chain| >= 1 && bc.chain[0] == bc.genesisBlock
  }

  /** The current tail, `chain[len(chain)-1]`. */
  function Tail(bc: Blockchain): Block
    requires |bc.chain| >= 1
  {
    bc.chain[|bc.chain| - 1]
  }

  /** The check `isValid` makes on one consecutive pair: the stored hash of
      `cur` is its recomputed digest and `cur` links to `prev`. */
  predicate EdgeValid(h: Hasher, prev: Block, cur: Block)
  {
    cur.hash == CalculateHash(h, cur) && cur.previousHash == prev.hash
  }

  /** Every consecutive pair passes the check; the genesis block is never
      recomputed, only used as the predecessor of the block after it. */
  ghost predicate Valid(h: Hasher, chain: seq<Block>)
  {
    forall i :: 0 <= i < |chain| - 1 ==> EdgeValid(h, chain[i], chain[i + 1])
  }

  /** `createBlockchain`: a genesis block with sentinel hash "0", empty
      previous hash, nil payload and nonce 0, held both as `genesisBlock` and
      as the only element of the chain. */
  function CreateBlockchain(difficulty: int, now: Time): (r: Blockchain)
    ensures WellFormed(r) && |r.chain| == 1
    ensures r.genesisBlock.hash == "0" && r.genesisBlock.previousHash == ""
    ensures r.genesisBlock.pow == 0 && r.genesisBlock.data == NilMap
    ensures r.genesisBlock.timestamp == now
    ensures r.difficulty == difficulty
    ensures forall h :: Valid(h, r.chain)
  {
    var genesis := Block(NilMap, "0", "", now, 0);
    Blockchain(genesis, [genesis], difficulty)
  }

  /** `isValid`: walks the pairs `(chain[i], chain[i+1])` and stops at the
      first that fails. */
  method IsValid(h: Hasher, bc: Blockchain) returns (ok: bool)
    requires |bc.chain| >= 1
    ensures ok <==> Valid(h, bc.chain)
    ensures |bc.chain| == 1 ==> ok
  {
    var i := 0;
    while i < |bc.chain| - 1
      invariant 0 <= i <= |bc.chain| - 1
      invariant forall j :: 0 <= j < i ==> EdgeValid(h, bc.chain[j], bc.chain[j + 1])
    {
      var previousBlock := bc.chain[i];
      var currentBlock := bc.chain[i + 1];
      if currentBlock.hash != CalculateHash(h, currentBlock) || currentBlock.previousHash != previousBlock.hash {
        return false;
      }
      i := i + 1;
    }
    return true;
  }

  /** A chain extended by one block is valid exactly when the old chain was
      and the new pair passes the check. */
  lemma ValidAppend(h: Hasher, chain: seq<Block>, b: Block)
    requires |chain| >= 1
    ensures Valid(h, chain + [b]) <==> Valid(h, chain) && EdgeValid(h, chain[|chain| - 1], b)
  {
    var c := chain + [b];
    if Valid(h, c) {
      forall i | 0 <= i < |chain| - 1
        ensures EdgeValid(h, chain[i], chain[i + 1])
      {
        assert c[i] == chain[i] && c[i + 1] == chain[i + 1];
      }
      assert c[|chain| - 1] == chain[|chain| - 1] && c[|chain|] == b;
    }
  }

  /** `addBlock`: a block linked to the current tail and stamped `now` is
      mined with the chain's difficulty and appended. */
  method AddBlock(h: Hasher, bc: Blockchain, data: Data, now: Time) returns (r: Blockchain)
    requires |bc.chain| >= 1
    requires bc.difficulty >= 0
    requires Minable(h, NewBlock(data, Tail(bc).hash, now), bc.difficulty)
    ensures |r.chain| == |bc.chain| + 1
    ensures r.chain[..|bc.chain|] == bc.chain
    ensures r.genesisBlock == bc.genesisBlock && r.difficulty == bc.difficulty
    ensures WellFormed(bc) ==> WellFormed(r)
    ensures IsMiningOf(h, NewBlock(data, Tail(bc).hash, now), bc.difficulty, Tail(r))
    ensures Tail(r).previousHash == Tail(bc).hash
    ensures LeadingZeros(Tail(r).hash, bc.difficulty)
    ensures bc.difficulty == 0 ==> r.chain == bc.chain + [NewBlock(data, Tail(bc).hash, now)]
    ensures Valid(h, bc.chain) && bc.difficulty >= 1 ==> Valid(h, r.chain)
  {
    var previousBlock := Tail(bc);
    var newBlock := NewBlock(data, previousBlock.hash, now);
    var mined := MineBlock(h, newBlock, bc.difficulty);
    r := bc.(chain := bc.chain + [mined]);
    assert Tail(r) == mined;
    assert r.chain[..|bc.chain|] == bc.chain;
    if bc.difficulty >= 1 {
      MineFresh(h, newBlock, bc.difficulty, mined);
      ValidAppend(h, bc.chain, mined);
    }
  }

  /** Appending with difficulty 0 to a chain whose hasher never returns the
      empty string (a SHA-256 hex digest has 64 characters) always yields an
      invalid chain: the new block keeps hash "" while its recomputation is
      a real digest. */
  lemma ZeroDifficultyAppendInvalid(h: Hasher, bc: Blockchain, data: Data, now: Time)
    requires forall p, x, t, n :: |h(p, x, t, n)| == 64
    requires |bc.chain| >= 1
    ensures !Valid(h, bc.chain + [NewBlock(data, Tail(bc).hash, now)])
  {
    var b := NewBlock(data, Tail(bc).hash, now);
    assert |CalculateHash(h, b)| == 64;
    ValidAppend(h, bc.chain, b);
  }

  /** `addBlock` with the hash-first mining of `MineBlockEager`: the new
      block's hash is always its digest, so validity is kept for every
      difficulty, 0 included. */
  method AddBlockEager(h: Hasher, bc: Blockchain, data: Data, now: Time) returns (r: Blockchain)
    requires |bc.chain| >= 1
    requires bc.difficulty >= 0
    requires MinableFrom(h, NewBlock(data, Tail(bc).hash, now), bc.difficulty)
    ensures |r.chain| == |bc.chain| + 1
    ensures r.chain[..|bc.chain|] == bc.chain
    ensures r.genesisBlock == bc.genesisBlock && r.difficulty == bc.difficulty
    ensures Tail(r).previousHash == Tail(bc).hash
    ensures Tail(r).data == data && Tail(r).timestamp == now
    ensures LeadingZeros(Tail(r).hash, bc.difficulty)
    ensures bc.difficulty == 0 ==> Tail(r).pow == 0
    ensures Valid(h, r.chain) <==> Valid(h, bc.chain)
  {
    var previousBlock := Tail(bc);
    var newBlock := NewBlock(data, previousBlock.hash, now);
    var mined := MineBlockEager(h, newBlock, bc.difficulty);
    r := bc.(chain := bc.chain + [mined]);
    assert Tail(r) == mined;
    assert r.chain[..|bc.chain|] == bc.chain;
    ValidAppend(h, bc.chain, mined);
  }

  /** Every fresh block can be mined at difficulty `d`. */
  ghost predicate AlwaysMinable(h: Hasher, d: nat)
  {
    forall data, prev, now :: Minable(h, NewBlock(data, prev, now), d)
  }

  /** `createBlockchain` followed by one `addBlock` per entry, as the demo
      program does before it asks `isValid`: the result holds one block per
      entry after genesis, each carrying its entry and linked to its
      predecessor; with a positive difficulty the whole chain is valid. */
  method BuildChain(h: Hasher, difficulty: int, genesisTime: Time, entries: seq<(Data, Time)>)
    returns (bc: Blockchain)
    requires difficulty >= 0
    requires AlwaysMinable(h, difficulty)
    ensures WellFormed(bc) && bc.difficulty == difficulty
    ensures bc.genesisBlock == CreateBlockchain(difficulty, genesisTime).genesisBlock
    ensures |bc.chain| == |entries| + 1
    ensures forall i :: 0 <= i < |entries| ==>
      bc.chain[i + 1].data == entries[i].0 && bc.chain[i + 1].timestamp == entries[i].1
    ensures forall i :: 1 <= i < |bc.chain| ==> bc.chain[i].previousHash == bc.chain[i - 1].hash
    ensures difficulty >= 1 ==> Valid(h, bc.chain)
  {
    bc := CreateBlockchain(difficulty, genesisTime);
    var n := 0;
    while n < |entries|
      invariant 0 <= n <= |entries|
      invariant WellFormed(bc) && bc.difficulty == difficulty
      invariant bc.genesisBlock == CreateBlockchain(difficulty, genesisTime).genesisBlock
      invariant |bc.chain| == n + 1
      invariant forall i :: 0 <= i < n ==>
        bc.chain[i + 1].data == entries[i].0 && bc.chain[i + 1].timestamp == entries[i].1
      invariant forall i :: 1 <= i < |bc.chain| ==> bc.chain[i].previousHash == bc.chain[i - 1].hash
      invariant difficulty >= 1 ==> Valid(h, bc.chain)
    {
      var (data, now) := entries[n];
      assert Minable(h, NewBlock(data, Tail(bc).hash, now), difficulty);
      ghost var before := bc;
      bc := AddBlock(h, bc, data, now);
      forall i | 0 <= i < n + 1
        ensures bc.chain[i + 1].data == entries[i].0 && bc.chain[i + 1].timestamp == entries[i].1
      {
        if i < n {
          assert bc.chain[i + 1] == bc.chain[..|before.chain|][i + 1];
        }
      }
      forall i | 1 <= i < |bc.chain|
        ensures bc.chain[i].previousHash == bc.chain[i - 1].hash
      {
        if i < n + 1 {
          assert bc.chain[i] == bc.chain[..|before.chain|][i];
          assert bc.chain[i - 1] == bc.chain[..|before.chain|][i - 1];
        }
      }
      n := n + 1;
    }
  }

  /** Overwriting the stored hash of a non-genesis block of a valid chain with
      any other string makes the chain invalid: the recomputation does not
      read the stored hash. */
  lemma TamperHashDetected(h: Hasher, chain: seq<Block>, i: int, s: string)
    requires Valid(h, chain)
    requires 1 <= i < |chain|
    requires s != chain[i].hash
    ensures !Valid(h, chain[i := chain[i].(hash := s)])
  {
    var t := chain[i := chain[i].(hash := s)];
    assert EdgeValid(h, chain[i - 1], chain[i]);
    assert !EdgeValid(h, t[i - 1], t[i]);
  }

  /** Pointing a non-genesis block of a valid chain at anything but its
      predecessor's hash makes the chain invalid. */
  lemma TamperLinkDetected(h: Hasher, chain: seq<Block>, i: int, p: string)
    requires Valid(h, chain)
    requires 1 <= i < |chain|
    requires p != chain[i - 1].hash
    ensures !Valid(h, chain[i := chain[i].(previousHash := p)])
  {
    var t := chain[i := chain[i].(previousHash := p)];
    assert t[i - 1] == chain[i - 1];
    assert !EdgeValid(h, t[i - 1], t[i]);
  }

  /** With an injective hasher, changing the payload, timestamp or nonce of a
      non-genesis block of a valid chain, while keeping its stored hash and
      link, makes the chain invalid. */
  lemma TamperContentDetected(h: Hasher, chain: seq<Block>, i: int, c: Block)
    requires Injective(h)
    requires Valid(h, chain)
    requires 1 <= i < |chain|
    requires c.hash == chain[i].hash && c.previousHash == chain[i].previousHash
    requires c.data != chain[i].data || c.timestamp != chain[i].timestamp || c.pow != chain[i].pow
    ensures !Valid(h, chain[i := c])
  {
    var t := chain[i := c];
    assert EdgeValid(h, chain[i - 1], chain[i]);
    assert CalculateHash(h, c) != CalculateHash(h, chain[i]);
    assert !EdgeValid(h, t[i - 1], t[i]);
  }

  /** The genesis block is only ever read for its hash: replacing it by any
      block with the same hash keeps a valid chain valid, whatever its
      payload, timestamp, nonce or previous hash. */
  lemma GenesisContentUnchecked(h: Hasher, chain: seq<Block>, g: Block)
    requires Valid(h, chain)
    requires |chain| >= 1
    requires g.hash == chain[0].hash
    ensures Valid(h, chain[0 := g])
  {
  }
}
