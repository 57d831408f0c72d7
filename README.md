# A verified model of a toy hash-linked ledger

This project models the `BlockChain` class of a small single-node ledger in Dafny. Each
node keeps a chain of blocks, a mempool of pending transactions and a set of peer
addresses. The class covers four things:

- mining: a proof-of-work search, then appending a block that takes over the whole mempool;
- chain validation: every block after genesis must name the digest of the block before it
  and carry a valid proof for that digest;
- consensus with peers: the local chain is replaced by the valid chain with the greatest
  reported length, and only when that length is strictly greater than the local length;
- peer registration: the normalised address is added to the peer set.

Modules:

- `Wrappers`: `Option` and `Result`.
- `Blocks`: `Transaction`, `Block`, `Chain`, the validity predicate `IsValidChain`,
  index contiguity, the proof-of-work predicates, and lemmas about them.
- `Consensus`: peer answers (`PeerResponse`) and the consensus loop as a pure function,
  `Scan`, with its lemmas.
- `Ledger`: the class `BlockChain`. Its fields `chain`, `currentTransactions` and `nodes`
  are updated in place by its methods. It also holds two client methods.

Three computations come from libraries and are fixed when a ledger is created, as
function-valued constants:

- the block digest `hash` (SHA-256 of the sorted-key JSON text), returning a 64-character
  lower-case hex string;
- the proof check `validProof` (a "0000" prefix of SHA-256 over the previous hash and the
  proof);
- the address normalisation `netloc` (`urlparse(address).netloc`).

The wall-clock timestamp and the node identifier are parameters. The peer requests are a
function `fetch` from an address to a `PeerResponse`, and a sequence `order` gives the
set's iteration order.

Some behaviour of the code is easy to misread; the model follows the code:

- An exception from `requests.get` (or a body that is not the expected JSON) is not
  caught. It aborts the whole consensus call, and the chain is left as it was. A peer
  that cannot be reached therefore aborts the call; it is not skipped. Only a non-200
  status is skipped.
- `valid_chain` indexes `chain[0]`, so a peer chain that is empty raises `IndexError` when
  it reaches the check. The model returns `Err(EmptyChain)` for it.
- `new_transaction` returns `last_block.index + 1`, not `len(chain) + 1`. The two agree
  for chains with contiguous indices (`Contiguous`), and the model proves that.
- The consensus rule compares the length the peer reports, not the length of the chain the
  peer sends. `HonestPeersGiveLongerChain` shows that an adopted chain is strictly longer
  when every peer reports its true length.
- The source stores the genesis previous hash as the integer `1`. The model uses the
  string `"1"`. The two differ only in the serialisation, which is abstract here. The
  genesis previous hash is never compared with anything.

## Model

| member | source | states |
|---|---|---|
| `Ledger.BlockChain.constructor` | block_chain.py:12-17 | the new ledger holds only the genesis block (index 1, proof 100, previous hash "1", no transactions), an empty mempool and no peers; that chain is valid and contiguous |
| `Ledger.BlockChain.RegisterNode` | block_chain.py:19-22 | the peer set gains the normalised address and nothing else |
| `Ledger.RegisterTwice` | block_chain.py:19-22 | registering the same address twice leaves the same peer set as registering it once (idempotent insertion) |
| `Ledger.BlockChain.ValidChain` | block_chain.py:24-37 | returns true exactly when every block from position 1 names its predecessor's digest and carries a valid proof for it; an empty chain raises `EmptyChain` |
| `Blocks.GenesisChainValid` | block_chain.py:26-28 | a chain of only a genesis block is valid (the loop never runs) |
| `Blocks.ValidChainAppend` | block_chain.py:28-37 | a non-empty chain plus one block is valid iff the chain is valid and the block links to its last block |
| `Blocks.TamperDetected` | block_chain.py:28-31 | replacing any block that has a successor by one with a different digest makes a valid chain invalid |
| `Ledger.BlockChain.ResolveConflicts` | block_chain.py:39-60 | on a failed request, or an empty peer chain whose reported length beats the running maximum, returns that fault and keeps the chain; otherwise it returns true exactly when the scan adopted a chain, and the new chain is that one (else the chain is unchanged); the chain stays non-empty, and a valid chain stays valid |
| `Consensus.ScanOutcome` | block_chain.py:43-55 | after a scan that does not raise: the final maximum is at least the local length and at least every qualifying answer's length; nothing is adopted iff the maximum stayed at the local length; an adopted chain comes from the first qualifying answer reporting the final maximum, which beats the local length |
| `Consensus.ReplacedOnlyByLongerValidChain` | block_chain.py:53-60 | in a scan that does not raise: an adopted chain is non-empty, valid, and reported by some peer with a length greater than the local length; nothing is adopted iff no qualifying answer reports more than the local length |
| `Consensus.SoleLongerPeerAdopted` | block_chain.py:47-58 | in a scan that does not raise: when exactly one answer qualifies with a length beyond the local length, that answer's chain and length are adopted |
| `Consensus.TieKeepsState` | block_chain.py:53-55 | an answer whose length equals the running maximum never changes the scan state |
| `Consensus.HonestPeersGiveLongerChain` | block_chain.py:50-53 | if every answer's reported length is its chain's length, an adopted chain is strictly longer than the local chain |
| `Consensus.ScanErrorPersists` | block_chain.py:47-53 | once a prefix of the scan has raised, the whole scan raises the same fault |
| `Consensus.ScanNextAnswer` | block_chain.py:47-55 | one more answer after a scan that has not raised: a failed request raises, a non-200 status or a length not beating the running maximum leaves the state, an empty chain then raises, a valid chain is adopted with its reported length, an invalid one is ignored |
| `Consensus.FailedRequestAborts` | block_chain.py:47-48 | one failed peer request makes the whole call raise |
| `Consensus.ScanErrorCause` | block_chain.py:47-53 | the call raises only if some request failed, or some answer carried an empty chain and reported a length beating the running maximum at its position |
| `Ledger.BlockChain.NewBlock` | block_chain.py:62-75 | appends exactly one block with index old length + 1, the old mempool, the given proof, previous hash and timestamp; earlier blocks are untouched; the mempool is empty afterwards; contiguous indices stay contiguous |
| `Ledger.BlockChain.NewTransaction` | block_chain.py:77-80 | appends exactly one {sender, recipient, amount} entry to the end of the mempool, leaves the chain unchanged, returns the last block's index + 1 (old length + 1 for a contiguous chain) |
| `Ledger.BlockChain.LastBlock` | block_chain.py:88-91 | the chain ends with the returned block |
| `Ledger.BlockChain.ProofOfWork` | block_chain.py:101-106 | the result is valid for the previous hash and no smaller non-negative proof is |
| `Blocks.FirstProofUnique` | block_chain.py:101-106 | the least valid proof is unique, so the search is deterministic for a fixed previous hash |
| `Ledger.BlockChain.Mine` | block_chain.py:117-122 | appends one block after the old last block's digest, with the least valid proof, holding the old mempool plus the reward transaction ("0" to the node, 50); empties the mempool; a valid chain stays valid and contiguous indices stay contiguous |
| `Ledger.MineFromGenesis` | block_chain.py:115-122 | from genesis, the first mine gives block 2 after the genesis digest with the least valid proof and only the reward; a transaction submitted next is expected in block 3 and lands only in the second mined block; the three-block chain is valid |

## Left out

- The Flask routes, their JSON bodies and status codes (block_chain.py:109-192), including the `/chain` snapshot route and the "Missing values" check: request/response plumbing. The block-building steps of `/mine` are modelled as `Mine`.
- SHA-256, `json.dumps(sort_keys=True)` and the "0000" prefix test: foreign library code, abstracted as the `hash` and `validProof` parameters. No property relies on their internals. `TamperDetected` assumes only that the forged block's digest differs.
- `urlparse(...).netloc`: a foreign parser, abstracted as the `netloc` parameter.
- `time()` and `uuid4()`: nondeterministic external values, passed in as `timestamp` and `nodeIdentifier`.
- Network access in consensus: `requests.get` is a given function `fetch`. The nondeterministic set iteration order is the parameter `order`.
- Malformed block dictionaries in a peer's chain (a missing key, a non-integer field): the model's blocks are always well formed. JSON values are typed: `amount` and `proof` are integers and `timestamp` is a real.
- Ledger.BlockChain.ProofOfWork: the source loop is unbounded. The model requires that some non-negative valid proof exists (`Solvable`) and says nothing about the case where none does.
- Ledger.BlockChain.Mine: inherits the same `Solvable` precondition from its call to `ProofOfWork`, for the last block's digest.
- Ledger.BlockChain.NewBlock: the `previous_hash or self.hash(all_blocks_string)` fallback names an undefined variable, so a falsy previous hash raises. The model requires a non-empty previous hash instead of modelling that error, and every caller passes one.
- Concurrency: the source is a single-threaded global object.
