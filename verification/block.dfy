/** A block of the ledger, its hash and the proof-of-work search (blockchain.go:13-42).

    The digest is SHA-256 over the JSON encoding of the payload concatenated
    with the other fields. Neither SHA-256 nor JSON is modelled: the digest is
    an arbitrary total function `Hasher`, passed in as a parameter so that no
    proof can depend on how it is computed. */
module Blocks {
  import opened GoStrings

  /** One value of the payload map (Go `interface{}`), opaque to the ledger. */
  type Json(==, !new)

  /** The payload, Go `map[string]interface{}`. A zero `Block` holds the nil
      map, which is what the genesis block carries; it is distinct from an
      empty map because the two encode differently. */
  datatype Data = NilMap | Entries(entries: map<string, Json>)

  /** A point in time (Go `time.Time`), opaque; only its string form is hashed. */
  type Time(==, !new)

  /** The digest of (previousHash, payload, timestamp, pow). */
  type Hasher = (string, Data, Time, int) -> string

  datatype Block = Block(
    data: Data,
    hash: string,
    previousHash: string,
    timestamp: Time,
    pow: int)

  /** A block as `addBlock` builds it before mining: no hash yet, nonce 0. */
  function NewBlock(data: Data, previousHash: string, timestamp: Time): Block
  {
    Block(data, "", previousHash, timestamp, 0)
  }

  /** The digest of `b` with its nonce replaced by `pow`; `b.hash` is not an input. */
  function NonceHash(h: Hasher, b: Block, pow: int): string
  {
    h(b.previousHash, b.data, b.timestamp, pow)
  }

  /** `calculateHash`: the digest of the block's current fields. */
  function CalculateHash(h: Hasher, b: Block): string
  {
    NonceHash(h, b, b.pow)
  }

  /** The recomputed digest ignores the stored hash, and changes with nothing
      but the four hashed fields. */
  lemma CalculateHashIgnoresHash(h: Hasher, b: Block, c: Block)
    requires b.data == c.data && b.previousHash == c.previousHash
    requires b.timestamp == c.timestamp && b.pow == c.pow
    ensures CalculateHash(h, b) == CalculateHash(h, c)
  {
  }

  /** A hasher that never maps two different inputs to the same digest. */
  ghost predicate Injective(h: Hasher)
  {
    forall p1, x1, t1, n1, p2, x2, t2, n2 ::
      h(p1, x1, t1, n1) == h(p2, x2, t2, n2) ==> p1 == p2 && x1 == x2 && t1 == t2 && n1 == n2
  }

  /** Mining `b` stops: either the stored hash already meets the difficulty,
      or some larger nonce yields a digest that does. Without this the search
      in `mineBlock` runs forever. */
  ghost predicate Minable(h: Hasher, b: Block, d: nat)
  {
    LeadingZeros(b.hash, d) || exists k :: b.pow < k && LeadingZeros(NonceHash(h, b, k), d)
  }

  /** `r` is what `mineBlock(d)` leaves in `b`: only `pow` and `hash` change;
      if the stored hash already meets the difficulty nothing changes at all;
      otherwise `pow` is the FIRST nonce above the starting one whose digest
      meets the difficulty, and `hash` is that digest. */
  ghost predicate IsMiningOf(h: Hasher, b: Block, d: nat, r: Block)
  {
    && r.data == b.data
    && r.previousHash == b.previousHash
    && r.timestamp == b.timestamp
    && LeadingZeros(r.hash, d)
    && if LeadingZeros(b.hash, d) then r == b
       else
         && b.pow < r.pow
         && r.hash == NonceHash(h, b, r.pow)
         && forall k :: b.pow < k < r.pow ==> !LeadingZeros(NonceHash(h, b, k), d)
  }

  /** `mineBlock`: the stored hash is tested before anything is computed; each
      round increments `pow` and stores the fresh digest. */
  method MineBlock(h: Hasher, b: Block, difficulty: nat) returns (r: Block)
    requires Minable(h, b, difficulty)
    ensures IsMiningOf(h, b, difficulty, r)
    ensures b.pow <= r.pow
    ensures difficulty == 0 ==> r == b
  {
    r := b;
    ghost var w := b.pow;
    if !LeadingZeros(b.hash, difficulty) {
      w :| b.pow < w && LeadingZeros(NonceHash(h, b, w), difficulty);
    }
    while !HasPrefix(r.hash, Repeat('0', difficulty))
      invariant r.data == b.data && r.previousHash == b.previousHash && r.timestamp == b.timestamp
      invariant b.pow <= r.pow <= w
      invariant w == b.pow ==> LeadingZeros(b.hash, difficulty)
      invariant w > b.pow ==> LeadingZeros(NonceHash(h, b, w), difficulty)
      invariant r.pow == b.pow ==> r == b
      invariant r.pow > b.pow ==> r.hash == NonceHash(h, b, r.pow)
      invariant forall k :: b.pow < k < r.pow ==> !LeadingZeros(NonceHash(h, b, k), difficulty)
      decreases w - r.pow
    {
      r := r.(pow := r.pow + 1);
      r := r.(hash := CalculateHash(h, r));
    }
  }

  /** What mining does to a block fresh from `NewBlock`: with a positive
      difficulty the nonce 0 is skipped and the stored hash is the real digest;
      with difficulty 0 the loop never runs and the block keeps its empty hash. */
  lemma MineFresh(h: Hasher, b: Block, d: nat, r: Block)
    requires b.hash == "" && b.pow == 0
    requires IsMiningOf(h, b, d, r)
    ensures d >= 1 ==> r.pow >= 1 && r.hash == CalculateHash(h, r)
    ensures d == 0 ==> r.pow == 0 && r.hash == ""
  {
  }

  /** Mining is deterministic: the outcome is fixed by the block, the hasher
      and the difficulty. */
  lemma MiningDeterministic(h: Hasher, b: Block, d: nat, r1: Block, r2: Block)
    requires IsMiningOf(h, b, d, r1)
    requires IsMiningOf(h, b, d, r2)
    ensures r1 == r2
  {
  }

  /** Mining started at nonce `b.pow` stops: some nonce from `b.pow` on yields
      a digest that meets the difficulty. */
  ghost predicate MinableFrom(h: Hasher, b: Block, d: nat)
  {
    exists k :: b.pow <= k && LeadingZeros(NonceHash(h, b, k), d)
  }

  /** Mining that hashes the starting nonce before testing, so that the stored
      hash is always the digest of the stored fields. `pow` ends at the first
      nonce from `b.pow` on whose digest meets the difficulty. */
  method MineBlockEager(h: Hasher, b: Block, difficulty: nat) returns (r: Block)
    requires MinableFrom(h, b, difficulty)
    ensures r.data == b.data && r.previousHash == b.previousHash && r.timestamp == b.timestamp
    ensures LeadingZeros(r.hash, difficulty)
    ensures r.hash == CalculateHash(h, r)
    ensures b.pow <= r.pow
    ensures forall k :: b.pow <= k < r.pow ==> !LeadingZeros(NonceHash(h, b, k), difficulty)
    ensures difficulty == 0 ==> r.pow == b.pow
  {
    ghost var w :| b.pow <= w && LeadingZeros(NonceHash(h, b, w), difficulty);
    r := b.(hash := CalculateHash(h, b));
    while !HasPrefix(r.hash, Repeat('0', difficulty))
      invariant r.data == b.data && r.previousHash == b.previousHash && r.timestamp == b.timestamp
      invariant b.pow <= r.pow <= w
      invariant r.hash == NonceHash(h, b, r.pow)
      invariant forall k :: b.pow <= k < r.pow ==> !LeadingZeros(NonceHash(h, b, k), difficulty)
      decreases w - r.pow
    {
      r := r.(pow := r.pow + 1);
      r := r.(hash := CalculateHash(h, r));
    }
  }
}
