/** The node's ledger engine: its chain, its staged transactions and its known peers. */
module Ledger {
  import opened Wrappers
  import opened Decimal
  import opened Digest
  import opened Chain
  import opened Resolver

  /** Receiver and amount of the reward transaction a mining node stages for itself. */
  const RewardReceiver: string := "Node1"
  const RewardAmount: int := 10

  class Blockchain {
    var chain: seq<Block>
    var mempool: seq<Transaction>
    var nodes: set<string>

    /** The foreign primitives the engine calls: the block hash, SHA-256 of a text,
        and the authority (`host:port`) part of a URL. */
    const hash: BlockHash
    const sha256: Sha256
    const netloc: string -> string

    /** The chain always holds at least one block. */
    ghost predicate Valid()
      reads this
    {
      |chain| > 0
    }

    /** Creates the genesis block (proof 1, previous hash "0", no transactions) at `timestamp`. */
    constructor (hash: BlockHash, sha256: Sha256, netloc: string -> string, timestamp: string)
      ensures Valid()
      ensures chain == [Block(1, timestamp, 1, "0", [])]
      ensures mempool == [] && nodes == {}
      ensures this.hash == hash && this.sha256 == sha256 && this.netloc == netloc
    {
      this.hash, this.sha256, this.netloc := hash, sha256, netloc;
      chain, mempool := [], [];
      nodes := {};
      new;
      var _ := CreateBlock(1, "0", timestamp);
    }

    /** Seals the whole mempool into a new block at the end of the chain and empties the mempool. */
    method CreateBlock(proof: int, previousHash: string, timestamp: string) returns (block: Block)
      modifies this`chain, this`mempool
      ensures block == Block(|old(chain)| + 1, timestamp, proof, previousHash, old(mempool))
      ensures chain == old(chain) + [block]
      ensures mempool == []
      ensures Valid() && GetLastBlock() == block
      ensures Indexed(old(chain)) ==> Indexed(chain)
    {
      block := Block(|chain| + 1, timestamp, proof, previousHash, mempool);
      mempool := [];
      if Indexed(chain) { IndexedAppend(chain, block); }
      chain := chain + [block];
    }

    /** The last block of the chain. */
    function GetLastBlock(): (block: Block)
      reads this
      requires Valid()
      ensures chain == chain[..|chain| - 1] + [block]
      ensures Indexed(chain) ==> block.index == |chain|
    {
      chain[|chain| - 1]
    }

    /** Searches 1, 2, 3, ... for the first proof accepted against `previousProof`.
        The search ends only if such a proof exists. */
    method ProofOfWork(previousProof: int) returns (proof: int)
      requires exists p :: p >= 1 && Accepts(sha256, previousProof, p)
      ensures IsLeastProof(sha256, previousProof, proof)
    {
      ghost var bound :| bound >= 1 && Accepts(sha256, previousProof, bound);
      proof := 1;
      var checkProof := false;
      while !checkProof
        invariant 1 <= proof <= bound
        invariant forall q :: 1 <= q < proof ==> !Accepts(sha256, previousProof, q)
        invariant checkProof ==> Accepts(sha256, previousProof, proof)
        decreases bound - proof, !checkProof
      {
        var hashOperation := sha256(IntToString(proof * proof - previousProof * previousProof));
        if Prefix(hashOperation, LeadingZeros) == Target {
          checkProof := true;
        } else {
          proof := proof + 1;
        }
      }
    }

    /** Walks the adjacent pairs of `candidate`, checking hash linkage and the proof predicate.
        An empty candidate fails, as reading its first block raises. */
    method IsChainValid(candidate: seq<Block>) returns (result: Result<bool, Error>)
      ensures result.Failure? <==> candidate == []
      ensures result.Failure? ==> result.error == EmptyChain
      ensures result.Success? ==> (result.value <==> ValidChain(hash, sha256, candidate))
    {
      if candidate == [] {
        return Failure(EmptyChain);
      }
      var previousBlock := candidate[0];
      var blockIndex := 1;
      while blockIndex < |candidate|
        invariant 1 <= blockIndex <= |candidate|
        invariant previousBlock == candidate[blockIndex - 1]
        invariant forall i :: 1 <= i < blockIndex ==> Linked(hash, sha256, candidate[i - 1], candidate[i])
      {
        var block := candidate[blockIndex];
        if hash(previousBlock) != block.previousHash {
          return Success(false);
        }
        var previousProof := previousBlock.proof;
        var proof := block.proof;
        var hashOperation := sha256(IntToString(proof * proof - previousProof * previousProof));
        if Prefix(hashOperation, 4) != Target {
          return Success(false);
        }
        previousBlock := block;
        blockIndex := blockIndex + 1;
      }
      return Success(true);
    }

    /** Stages a transaction for the next block and returns the index that block is expected to get. */
    method AddTransaction(sender: string, receiver: string, amount: int) returns (nextIndex: int)
      requires Valid()
      modifies this`mempool
      ensures mempool == old(mempool) + [Transaction(sender, receiver, amount)]
      ensures nextIndex == GetLastBlock().index + 1
      ensures Indexed(chain) ==> nextIndex == |chain| + 1
    {
      mempool := mempool + [Transaction(sender, receiver, amount)];
      nextIndex := GetLastBlock().index + 1;
    }

    /** Records the authority part of `address` as a peer. */
    method AddNode(address: string)
      modifies this`nodes
      ensures nodes == old(nodes) + {netloc(address)}
    {
      nodes := nodes + {netloc(address)};
    }

    /** Asks every peer, in the iteration order `order` of `nodes`, for its chain (`fetch` stands for
        the request) and adopts the first reply with the greatest length that is strictly longer than
        the local chain and valid. Reports whether the chain was replaced; a raising request or an
        empty reported chain aborts it with the chain unchanged. */
    method ReplaceChain(order: seq<string>, fetch: string -> Response) returns (result: Result<bool, Error>)
      requires Valid() && IsEnumeration(order, nodes)
      modifies this`chain
      ensures Valid()
      ensures result.Failure? <==> Resolve(hash, sha256, |old(chain)|, None, Fetched(order, fetch)).Failure?
      ensures result.Failure? ==>
                result.error == Resolve(hash, sha256, |old(chain)|, None, Fetched(order, fetch)).error
      ensures result.Failure? ==> exists i :: 0 <= i < |order| && Fatal(|old(chain)|, fetch(order[i]))
      ensures result.Success? ==>
                (result.value <==> exists i :: 0 <= i < |order| && Qualifies(hash, sha256, |old(chain)|, fetch(order[i])))
      ensures result == Success(true) ==>
                exists i :: FirstLongest(hash, sha256, |old(chain)|, Fetched(order, fetch), i) && chain == fetch(order[i]).chain
      ensures result != Success(true) ==> chain == old(chain)
    {
      ghost var responses := Fetched(order, fetch);
      assert |responses| == |order| && forall k :: 0 <= k < |order| ==> responses[k] == fetch(order[k]);
      ghost var outcome := Resolve(hash, sha256, |chain|, None, responses);
      var longestChain: Option<seq<Block>> := None;
      var maxLength := |chain|;
      for k := 0 to |order|
        invariant chain == old(chain)
        invariant Resolve(hash, sha256, maxLength, longestChain, responses[k..]) == outcome
        invariant longestChain.Some? ==> ValidChain(hash, sha256, longestChain.value)
      {
        assert responses[k..][0] == fetch(order[k]) && responses[k..][1..] == responses[k + 1..];
        var response := fetch(order[k]);
        if response.Unreachable? {
          ResolveFailsOnFatal(hash, sha256, |chain|, None, responses);
          return Failure(PeerUnreachable);
        }
        if response.status == 200 {
          var localChain := response.chain;
          var localLength := response.length;
          if localLength > maxLength {
            var valid := IsChainValid(localChain);
            if valid.Failure? {
              ResolveFailsOnFatal(hash, sha256, |chain|, None, responses);
              return Failure(valid.error);
            }
            if valid.value {
              maxLength := localLength;
              longestChain := Some(localChain);
            }
          }
        }
      }
      assert responses[|order|..] == [];
      ResolveChoosesIff(hash, sha256, |chain|, None, responses);
      if longestChain.Some? {
        ResolveWinner(hash, sha256, |chain|, None, responses, longestChain.value);
        chain := longestChain.value;
        return Success(true);
      }
      return Success(false);
    }
  }

  /** One mining step: find the proof for the last block, hash the last block, stage the
      reward for `nodeAddress`, and seal the mempool into a new block created at `timestamp`. */
  method MineBlock(blockchain: Blockchain, nodeAddress: string, timestamp: string) returns (block: Block)
    requires blockchain.Valid()
    requires exists p :: p >= 1 && Accepts(blockchain.sha256, blockchain.GetLastBlock().proof, p)
    modifies blockchain`chain, blockchain`mempool
    ensures blockchain.Valid()
    ensures IsLeastProof(blockchain.sha256, old(blockchain.GetLastBlock()).proof, block.proof)
    ensures block == Block(|old(blockchain.chain)| + 1, timestamp, block.proof,
                           blockchain.hash(old(blockchain.GetLastBlock())),
                           old(blockchain.mempool) + [Transaction(nodeAddress, RewardReceiver, RewardAmount)])
    ensures blockchain.chain == old(blockchain.chain) + [block] && blockchain.mempool == []
    ensures ValidChain(blockchain.hash, blockchain.sha256, old(blockchain.chain)) ==>
              ValidChain(blockchain.hash, blockchain.sha256, blockchain.chain)
    ensures Indexed(old(blockchain.chain)) ==> Indexed(blockchain.chain)
  {
    var previousBlock := blockchain.GetLastBlock();
    var previousProof := previousBlock.proof;
    var proof := blockchain.ProofOfWork(previousProof);
    var previousHash := blockchain.hash(previousBlock);
    var _ := blockchain.AddTransaction(nodeAddress, RewardReceiver, RewardAmount);
    block := blockchain.CreateBlock(proof, previousHash, timestamp);
    ValidAppend(blockchain.hash, blockchain.sha256, old(blockchain.chain), block);
  }
}
