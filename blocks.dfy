/**
 * The ledger's data model (transactions, blocks, chains), the rule a chain must keep
 * (every block links to its predecessor's digest and carries a valid proof for it),
 * and the proof-of-work predicate. The digest of a block (SHA-256 over the sorted-key
 * JSON text) and the proof check (SHA-256 over the previous hash and the proof, compared
 * with a "0000" prefix) are foreign computations: they are parameters here.
 */
module Blocks {

  datatype Transaction = Transaction(sender: string, recipient: string, amount: int)

  datatype Block = Block(
    index: int,
    timestamp: real,
    transactions: seq<Transaction>,
    proof: int,
    previousHash: string)

  type Chain = seq<Block>

  /** The exceptions of the core: indexing an empty chain, and a peer request that raised
      (no connection, or a 200 body that is not the expected JSON). */
  datatype Fault = EmptyChain | PeerRequestFailed

  predicate IsHexDigit(c: char) {
    '0' <= c <= '9' || 'a' <= c <= 'f'
  }

  /** A `hexdigest()` of SHA-256: 64 lower-case hexadecimal characters. */
  type HexDigest = s: string | |s| == 64 && forall i | 0 <= i < |s| :: IsHexDigit(s[i])
    witness seq(64, _ => '0')

  /** The digest of a block's canonical serialisation. */
  type HashFn = Block -> HexDigest

  /** Whether a proof is acceptable after a block with the given digest. */
  type ProofFn = (HexDigest, int) -> bool

  const GenesisProof: int := 100
  const GenesisPreviousHash: string := "1"
  const MiningRewardSender: string := "0"
  const MiningReward: int := 50

  function Genesis(timestamp: real): Block {
    Block(1, timestamp, [], GenesisProof, GenesisPreviousHash)
  }

  /** `block` may follow `prev`: it names prev's digest and carries a valid proof for it. */
  predicate Links(hash: HashFn, validProof: ProofFn, prev: Block, block: Block) {
    block.previousHash == hash(prev) && validProof(hash(prev), block.proof)
  }

  /** Every block after the first links to the block before it; the first is not checked. */
  predicate IsValidChain(hash: HashFn, validProof: ProofFn, chain: Chain) {
    forall i | 1 <= i < |chain| :: Links(hash, validProof, chain[i - 1], chain[i])
  }

  /** Block indices run 1, 2, 3, ... as blocks built by new_block from genesis have them. */
  predicate Contiguous(chain: Chain) {
    forall i | 0 <= i < |chain| :: chain[i].index == i + 1
  }

  /** Some non-negative proof is valid after `previousHash`, so the search ends. */
  ghost predicate Solvable(validProof: ProofFn, previousHash: HexDigest) {
    exists p: nat :: validProof(previousHash, p)
  }

  /** `proof` is the least non-negative proof that is valid after `previousHash`. */
  predicate IsFirstProof(validProof: ProofFn, previousHash: HexDigest, proof: nat) {
    validProof(previousHash, proof) && forall q: nat | q < proof :: !validProof(previousHash, q)
  }

  /** A chain holding only its genesis block is valid, whatever that block holds. */
  lemma GenesisChainValid(hash: HashFn, validProof: ProofFn, genesis: Block)
    ensures IsValidChain(hash, validProof, [genesis])
  {
  }

  /** A non-empty chain extended by one block is valid exactly when the chain was valid
      and the new block links to its last block. */
  lemma ValidChainAppend(hash: HashFn, validProof: ProofFn, chain: Chain, block: Block)
    requires |chain| > 0
    ensures IsValidChain(hash, validProof, chain + [block])
        <==> IsValidChain(hash, validProof, chain) && Links(hash, validProof, chain[|chain| - 1], block)
  {
    var longer := chain + [block];
    if IsValidChain(hash, validProof, longer) {
      forall i | 1 <= i < |chain|
        ensures Links(hash, validProof, chain[i - 1], chain[i])
      {
        assert longer[i - 1] == chain[i - 1] && longer[i] == chain[i];
      }
      assert longer[|chain| - 1] == chain[|chain| - 1] && longer[|chain|] == block;
    }
  }

  /** Replacing a block that has a successor by one with a different digest makes a valid
      chain invalid: the successor no longer names its predecessor's digest. Only the last
      block can be changed undetected. */
  lemma TamperDetected(hash: HashFn, validProof: ProofFn, chain: Chain, i: nat, forged: Block)
    requires IsValidChain(hash, validProof, chain)
    requires i + 1 < |chain|
    requires hash(forged) != hash(chain[i])
    ensures !IsValidChain(hash, validProof, chain[i := forged])
  {
    var tampered := chain[i := forged];
    assert tampered[i + 1] == chain[i + 1];
    assert !Links(hash, validProof, tampered[i], tampered[i + 1]);
  }

  /** The least valid proof is unique, so a search for it is deterministic. */
  lemma FirstProofUnique(validProof: ProofFn, previousHash: HexDigest, p: nat, q: nat)
    requires IsFirstProof(validProof, previousHash, p)
    requires IsFirstProof(validProof, previousHash, q)
    ensures p == q
  {
  }
}
