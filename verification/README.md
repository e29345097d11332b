# go_blockchain: a Dafny model of the proof-of-work ledger

The Go program `blockchain.go` keeps a chain of blocks. Each block holds a
payload map, the hash of the block before it, a timestamp, a nonce (`pow`)
and its own hash. The chain starts with a genesis block whose hash is the
sentinel `"0"`. `addBlock` builds a block that points at the current tail
and mines it: it raises `pow` until the block's hash starts with
`difficulty` zero characters. It then appends the block. `isValid` walks
every consecutive pair of blocks. It recomputes the later block's hash and
checks that the later block points at the earlier one.

The model has three modules, one per layer of the program:

- `GoStrings` (`gostrings.dfy`) holds `strings.Repeat`, `strings.HasPrefix`
  and the difficulty test `LeadingZeros` built from them.
- `Blocks` (`block.dfy`) holds the `Block` datatype, `calculateHash` and
  mining. `MineBlock` is the loop as written. `IsMiningOf` describes its
  result independently: the first nonce above the start whose digest meets
  the difficulty.
- `Chains` (`blockchain.dfy`) holds the `Blockchain` datatype,
  `createBlockchain`, `addBlock` and `isValid`. `IsValid` is the loop as
  written. The predicate `Valid` is the quantified statement it decides.
  Lemmas state when validity is kept and when tampering is detected.

The digest is an arbitrary total function `Hasher` taken as a parameter. It
maps (previous hash, payload, timestamp, nonce) to a string. Payload values
(`Json`) and timestamps (`Time`) are opaque types. The clock (`time.Now()`)
is a parameter of `CreateBlockchain` and `AddBlock`.

The mining loop has no bound. Each mining method therefore requires a
ghost witness: a nonce whose digest meets the difficulty (`Minable`,
`MinableFrom`). Termination is proved from that witness.

Three behaviours of the code shape the contracts:

- At difficulty 0 a fresh block is never hashed. The loop at
  blockchain.go:38 tests the stored hash `""` first, and `""` already has
  the empty prefix. So the block keeps hash `""` and nonce 0. The comment at
  blockchain.go:37 says the loop runs "until valid block is found", and
  `isValid` at blockchain.go:74 rejects a block whose stored hash differs
  from its recomputation. Such a block is therefore not valid (see
  Findings).
- `b.chain[1:]` (blockchain.go:71) and `b.chain[len(b.chain)-1]`
  (blockchain.go:59) panic on an empty chain. `IsValid` and `AddBlock`
  therefore require a non-empty chain. Every chain built by
  `createBlockchain` is non-empty.
- A changed stored hash or link of a non-genesis block is caught by
  blockchain.go:74 whatever the hasher. A changed payload, timestamp or
  nonce is caught only under `Injective`, a hasher that never maps two
  inputs to the same digest.

## Model

| member | source | states |
|---|---|---|
| GoStrings.Repeat | blockchain.go:38 | `strings.Repeat("0", d)` has length `d` and every character is `'0'` |
| GoStrings.LeadingZerosMeaning | blockchain.go:38 | the loop's exit test holds iff the hash has at least `d` characters and the first `d` are all `'0'` |
| GoStrings.LeadingZerosOfEmpty | blockchain.go:38 | the empty hash of a fresh block meets the difficulty iff the difficulty is 0 |
| GoStrings.LeadingZerosMonotone | blockchain.go:38 | a hash that meets difficulty `d` also meets every smaller difficulty |
| Blocks.CalculateHashIgnoresHash | blockchain.go:28-33 | the recomputed hash depends only on previous hash, payload, timestamp and nonce, never on the stored hash |
| Blocks.MineBlock | blockchain.go:36-42 | on return the hash starts with `d` zeros; payload, link and timestamp are unchanged and `pow` never decreases; a hash that already qualifies is left alone; otherwise `pow` is the first nonce above the start whose digest qualifies and `hash` is that digest; at difficulty 0 nothing changes |
| Blocks.MineFresh | blockchain.go:38-40 | on a fresh block with `d >= 1` mining ends with `pow >= 1` and the stored hash equal to the real digest; with `d == 0` it ends with `pow == 0` and hash `""` |
| Blocks.MiningDeterministic | blockchain.go:36-42 | two results of mining the same block at the same difficulty are equal |
| Blocks.MineBlockEager | blockchain.go:36-42 | corrected mining that hashes nonce `pow` first: the stored hash always equals the digest, it meets the difficulty, `pow` is the first qualifying nonce from the start, and at difficulty 0 `pow` is unchanged |
| Chains.CreateBlockchain | blockchain.go:45-55 | the new chain has exactly the genesis block, with hash `"0"`, empty link, nil payload, nonce 0 and the given timestamp; it keeps the given difficulty and is valid under every hasher |
| Chains.IsValid | blockchain.go:70-79 | returns true iff every consecutive pair passes the hash recomputation and link check; a one-block chain is valid |
| Chains.ValidAppend | blockchain.go:70-78 | a chain extended by one block is valid iff the old chain is valid and the new pair passes the check |
| Chains.AddBlock | blockchain.go:58-67 | the chain grows by exactly one block and keeps every old block, the genesis block and the difficulty; the new tail is the mined fresh block linked to the old tail's hash; with `d >= 1` a valid chain stays valid; with `d == 0` the appended block is the unmined fresh block |
| Chains.ZeroDifficultyAppendInvalid | blockchain.go:58-67 | with a hasher that returns 64-character digests, appending at difficulty 0 always gives an invalid chain |
| Chains.AddBlockEager | blockchain.go:58-67 | appending with the corrected mining grows the chain by one, links the tail, meets the difficulty, and keeps validity at every difficulty, 0 included |
| Chains.BuildChain | blockchain.go:45-67 | creating a chain with any `d >= 0` and appending `n` entries gives `n + 1` blocks, each holding its entry and linked to its predecessor; with `d >= 1` the chain is also valid |
| Chains.TamperHashDetected | blockchain.go:74 | overwriting a non-genesis block's hash with a different string makes a valid chain invalid |
| Chains.TamperLinkDetected | blockchain.go:74 | changing a non-genesis block's previous hash to anything but its predecessor's hash makes a valid chain invalid |
| Chains.TamperContentDetected | blockchain.go:74 | with an injective hasher, changing a non-genesis block's payload, timestamp or nonce makes a valid chain invalid |
| Chains.GenesisContentUnchecked | blockchain.go:71-74 | validity never looks at genesis beyond its hash: any genesis with the same hash keeps a valid chain valid |

## Left out

- SHA-256 and hex formatting (blockchain.go:31-32) are not modelled. The digest is an arbitrary `Hasher` parameter.
- `json.Marshal` is not modelled, nor its discarded error (blockchain.go:29). Neither is `time.Time.String` (blockchain.go:30). The hasher receives the payload and timestamp themselves.
- Chains.TamperContentDetected: `Injective` idealises collision resistance. Go's digest does not meet it. The discarded `json.Marshal` error (blockchain.go:29) turns every payload that cannot be encoded into the same `""`. Values such as `int(10)` and `float64(10)` encode identically. A 64-character digest cannot be injective anyway. Changes to payload content that Go's encoding does not distinguish go undetected.
- Payloads and chains are values in the model, while Go shares them by reference. `addBlock` stores the caller's map itself (blockchain.go:61), so a later write to that map changes the stored block in place. One map passed twice changes two blocks. `append` (blockchain.go:66) can share a backing array between copies of a `Blockchain`. The model sees such a later write only as the block replacement that `TamperContentDetected` describes.
- `time.Now()` (blockchain.go:48, 63) is a clock; it becomes a parameter.
- Blocks.MineBlock: does not model 64-bit wrap-around of `pow`. It would need 2^63 rounds, far beyond any reachable run.
- Termination of mining is not proved for an arbitrary hasher; the mining methods require a witness nonce instead. Expected cost of mining is not modelled.
- Chains.IsValid: requires a non-empty chain, because `b.chain[1:]` (blockchain.go:71) panics on an empty one.
- Chains.AddBlock: requires a non-empty chain, because `b.chain[len(b.chain)-1]` (blockchain.go:59) panics on an empty one. It also requires `difficulty >= 0`, because `strings.Repeat` panics on a negative count. `createBlockchain` accepts any difficulty, and `CreateBlockchain` does too.
- `main` and its printing (blockchain.go:81-91) are I/O. Only the create-append-validate sequence it performs is modelled, in `BuildChain`.
- Go's mutation through pointer receivers is modelled by returning the updated value.
- Concurrency is not modelled; the program is single-threaded.

## Findings

| source | as written | input that shows it | evidently intended | confidence | as-written member | corrected member |
|---|---|---|---|---|---|---|
| blockchain.go:38 | the loop tests the stored hash before hashing anything, so at difficulty 0 a fresh block keeps hash `""` and nonce 0 | `createBlockchain(0)`, then `addBlock(x)`, then `isValid()` returns false, because `""` differs from the 64-character digest | the loop runs "until valid block is found" (comment at blockchain.go:37), and validity means the stored hash equals its recomputation (blockchain.go:74); so mining at difficulty 0 should store the digest of nonce 0, and every appended block should pass `isValid` | medium, not executed | Chains.ZeroDifficultyAppendInvalid | Chains.AddBlockEager |

`AddBlock` states the as-written half: at difficulty 0 it appends the
unmined fresh block. `ZeroDifficultyAppendInvalid` shows that this chain is
invalid. `AddBlockEager` uses `MineBlockEager`, which hashes the starting
nonce before the first test, and keeps validity at every difficulty. The
rest of the model keeps the as-written `MineBlock` and `AddBlock`, because
they describe what the program does. At every positive difficulty both
versions keep a valid chain valid; they may pick different nonces.
