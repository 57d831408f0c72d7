/**
 * The ledger object of one node: its chain, its mempool of pending transactions and its
 * set of peers, with the operations that change them in place, the chain validator, the
 * proof-of-work search and the consensus step. The block digest, the proof check and the
 * URL normalisation are fixed when the ledger is created.
 */
module Ledger {
  import opened Wrappers
  import opened Blocks
  import opened Consensus

  class BlockChain {
    /** `hash`: SHA-256 over the block's sorted-key JSON text. */
    const hash: HashFn
    /** `valid_proof`: SHA-256 over the previous hash and the proof starts with "0000". */
    const validProof: ProofFn
    /** `urlparse(address).netloc`. */
    const netloc: string -> Address

    var chain: Chain
    var currentTransactions: seq<Transaction>
    var nodes: set<Address>

    /** The chain is never empty: it starts with genesis and is only replaced by a valid,
        non-empty chain. */
    ghost predicate Valid()
      reads this
    {
      |chain| > 0
    }

    /** A ledger holding only the genesis block (proof 100, previous hash "1"), with an
        empty mempool and no peers. */
    constructor (hash: HashFn, validProof: ProofFn, netloc: string -> Address, timestamp: real)
      ensures Valid()
      ensures this.hash == hash && this.validProof == validProof && this.netloc == netloc
      ensures chain == [Genesis(timestamp)] && currentTransactions == [] && nodes == {}
      ensures IsValidChain(hash, validProof, chain) && Contiguous(chain)
    {
      this.hash := hash;
      this.validProof := validProof;
      this.netloc := netloc;
      chain := [];
      currentTransactions := [];
      nodes := {};
      new;
      var genesis := NewBlock(GenesisProof, GenesisPreviousHash, timestamp);
      GenesisChainValid(hash, validProof, genesis);
    }

    /** Adds the normalised address to the peer set. */
    method RegisterNode(address: string)
      requires Valid()
      modifies this`nodes
      ensures Valid()
      ensures nodes == old(nodes) + {netloc(address)}
    {
      nodes := nodes + {netloc(address)};
    }

    /** The validator: walks the chain from its second block and answers false at the
        first block that does not link to its predecessor. Indexing an empty chain raises. */
    method ValidChain(candidate: Chain) returns (r: Result<bool, Fault>)
      ensures candidate == [] ==> r == Err(EmptyChain)
      ensures candidate != [] ==> r == Ok(IsValidChain(hash, validProof, candidate))
    {
      if candidate == [] {
        return Err(EmptyChain);
      }
      var lastBlock := candidate[0];
      var currentIndex := 1;
      while currentIndex < |candidate|
        invariant 1 <= currentIndex <= |candidate|
        invariant lastBlock == candidate[currentIndex - 1]
        invariant forall i | 1 <= i < currentIndex :: Links(hash, validProof, candidate[i - 1], candidate[i])
      {
        var block := candidate[currentIndex];
        if block.previousHash != hash(lastBlock) {
          return Ok(false);
        }
        if !validProof(hash(lastBlock), block.proof) {
          return Ok(false);
        }
        lastBlock := block;
        currentIndex := currentIndex + 1;
      }
      return Ok(true);
    }

    /** The consensus step: asks every peer (in `order`, an iteration order of `nodes`)
        for its chain and adopts the longest valid one that beats the local length. A
        failed request, or an empty chain whose reported length beats the running maximum,
        raises, and the chain is then left as it was. */
    method ResolveConflicts(order: seq<Address>, fetch: Address -> PeerResponse) returns (r: Result<bool, Fault>)
      requires Valid()
      requires EnumeratesPeers(order, nodes)
      modifies this`chain
      ensures Valid()
      ensures IsValidChain(hash, validProof, old(chain)) ==> IsValidChain(hash, validProof, chain)
      ensures match Scan(hash, validProof, |old(chain)|, Responses(order, fetch))
        case Err(e) => r == Err(e) && chain == old(chain)
        case Ok(st) =>
          r == Ok(st.newChain.Some?) &&
          chain == (if st.newChain.Some? then st.newChain.value else old(chain))
    {
      ghost var rs := Responses(order, fetch);
      var newChain: Option<Chain> := None;
      var maxLength := |chain|;
      var i := 0;
      while i < |order|
        invariant 0 <= i <= |order|
        invariant chain == old(chain)
        invariant Scan(hash, validProof, |chain|, rs[..i]) == Ok(ScanState(maxLength, newChain))
      {
        var response := fetch(order[i]);
        assert rs[..i + 1][..i] == rs[..i];
        match response {
          case RequestFailed =>
            ScanErrorPersists(hash, validProof, |chain|, rs, i + 1);
            return Err(PeerRequestFailed);
          case BadStatus =>
          case Answer(length, peerChain) =>
            if length > maxLength {
              var valid := ValidChain(peerChain);
              match valid {
                case Err(e) =>
                  ScanErrorPersists(hash, validProof, |chain|, rs, i + 1);
                  return Err(e);
                case Ok(isValid) =>
                  if isValid {
                    maxLength := length;
                    newChain := Some(peerChain);
                  }
              }
            }
        }
        i := i + 1;
      }
      assert rs[..|order|] == rs;
      ReplacedOnlyByLongerValidChain(hash, validProof, |chain|, rs);
      if newChain.Some? && newChain.value != [] {
        chain := newChain.value;
        return Ok(true);
      }
      return Ok(false);
    }

    /** Appends a block holding the whole mempool and empties the mempool. A falsy
        previous hash would reach the fallback branch, which raises: callers never pass one. */
    method NewBlock(proof: int, previousHash: string, timestamp: real) returns (block: Block)
      requires previousHash != ""
      modifies this`chain, this`currentTransactions
      ensures block == Block(|old(chain)| + 1, timestamp, old(currentTransactions), proof, previousHash)
      ensures chain == old(chain) + [block]
      ensures currentTransactions == []
      ensures Valid()
      ensures Contiguous(old(chain)) ==> Contiguous(chain)
    {
      block := Block(|chain| + 1, timestamp, currentTransactions, proof, previousHash);
      currentTransactions := [];
      chain := chain + [block];
    }

    /** Appends one transaction to the mempool and returns the index of the block after
        the last one, where it is expected to be mined. */
    method NewTransaction(sender: string, recipient: string, amount: int) returns (index: int)
      requires Valid()
      modifies this`currentTransactions
      ensures Valid()
      ensures currentTransactions == old(currentTransactions) + [Transaction(sender, recipient, amount)]
      ensures index == LastBlock().index + 1
      ensures Contiguous(chain) ==> index == |chain| + 1
    {
      currentTransactions := currentTransactions + [Transaction(sender, recipient, amount)];
      index := LastBlock().index + 1;
    }

    /** The block at the end of the chain. */
    function LastBlock(): (b: Block)
      reads this
      requires Valid()
      ensures chain == chain[..|chain| - 1] + [b]
    {
      chain[|chain| - 1]
    }

    /** The search: tries proofs 0, 1, 2, ... and returns the first valid one. */
    method ProofOfWork(previousHash: HexDigest) returns (proof: nat)
      requires Solvable(validProof, previousHash)
      ensures IsFirstProof(validProof, previousHash, proof)
    {
      ghost var bound: nat :| validProof(previousHash, bound);
      proof := 0;
      while !validProof(previousHash, proof)
        invariant proof <= bound
        invariant forall q: nat | q < proof :: !validProof(previousHash, q)
        decreases bound - proof
      {
        proof := proof + 1;
      }
    }

    /** Mining: searches the least proof after the last block's digest, adds the reward
        transaction to the mempool and appends a block holding the mempool. A valid chain
        stays valid, and one with contiguous indices keeps them. */
    method Mine(nodeIdentifier: string, timestamp: real) returns (block: Block)
      requires Valid()
      requires Solvable(validProof, hash(LastBlock()))
      modifies this`chain, this`currentTransactions
      ensures Valid()
      ensures chain == old(chain) + [block]
      ensures block.index == |old(chain)| + 1 && block.timestamp == timestamp
      ensures block.transactions == old(currentTransactions) + [Transaction(MiningRewardSender, nodeIdentifier, MiningReward)]
      ensures block.previousHash == hash(old(LastBlock()))
      ensures block.proof >= 0 && IsFirstProof(validProof, hash(old(LastBlock())), block.proof)
      ensures currentTransactions == []
      ensures IsValidChain(hash, validProof, old(chain)) ==> IsValidChain(hash, validProof, chain)
      ensures Contiguous(old(chain)) ==> Contiguous(chain)
    {
      var lastBlock := LastBlock();
      var previousHash := hash(lastBlock);
      var proof := ProofOfWork(previousHash);
      var _ := NewTransaction(MiningRewardSender, nodeIdentifier, MiningReward);
      block := NewBlock(proof, previousHash, timestamp);
      ValidChainAppend(hash, validProof, old(chain), block);
    }
  }

  /** Registering the same address again leaves the peer set as it was. */
  method RegisterTwice(ledger: BlockChain, address: string)
    requires ledger.Valid()
    modifies ledger`nodes
    ensures ledger.nodes == old(ledger.nodes) + {ledger.netloc(address)}
  {
    ledger.RegisterNode(address);
    ghost var once := ledger.nodes;
    ledger.RegisterNode(address);
    assert ledger.nodes == once;
  }

  /** From genesis, a first mine with an empty mempool gives block 2 after the genesis
      digest with the least valid proof; a transaction submitted afterwards is placed only
      in the block of the next mine, and the three-block chain is valid. */
  method MineFromGenesis(hash: HashFn, validProof: ProofFn, netloc: string -> Address,
                         t0: real, t1: real, t2: real, nodeIdentifier: string,
                         sender: string, recipient: string, amount: int)
    returns (genesis: Block, first: Block, expectedIndex: int, second: Block)
    requires forall h: HexDigest :: Solvable(validProof, h)
    ensures genesis == Genesis(t0)
    ensures first.index == 2 && first.previousHash == hash(genesis)
    ensures first.proof >= 0 && IsFirstProof(validProof, hash(genesis), first.proof)
    ensures first.transactions == [Transaction(MiningRewardSender, nodeIdentifier, MiningReward)]
    ensures expectedIndex == 3
    ensures second.index == 3 && second.previousHash == hash(first)
    ensures second.transactions == [Transaction(sender, recipient, amount),
                                    Transaction(MiningRewardSender, nodeIdentifier, MiningReward)]
    ensures IsValidChain(hash, validProof, [genesis, first, second])
  {
    var ledger := new BlockChain(hash, validProof, netloc, t0);
    genesis := ledger.LastBlock();
    first := ledger.Mine(nodeIdentifier, t1);
    expectedIndex := ledger.NewTransaction(sender, recipient, amount);
    second := ledger.Mine(nodeIdentifier, t2);
    assert ledger.chain == [genesis, first, second];
  }
}
