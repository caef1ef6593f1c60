/** Blocks, transactions and the validity of a chain of blocks. */
module Chain {
  import opened Digest

  /** A staged or sealed transfer. */
  datatype Transaction = Transaction(sender: string, receiver: string, amount: int)

  /** A block record: its 1-based position, creation time as text, sealing proof,
      the hash of its predecessor and the transactions it carries. */
  datatype Block = Block(index: int, timestamp: string, proof: int, previousHash: string, transactions: seq<Transaction>)

  /** SHA-256 over the block's JSON text with sorted keys, as a hexadecimal digest. */
  type BlockHash = Block -> string

  /** The exceptions the ledger engine lets escape to its caller. */
  datatype Error =
    | EmptyChain        // a chain with no block was indexed at position 0
    | PeerUnreachable   // the request for a peer's chain raised

  /** `next` may follow `previous`: it names its hash and its proof is accepted against it. */
  predicate Linked(hash: BlockHash, sha256: Sha256, previous: Block, next: Block) {
    next.previousHash == hash(previous) && Accepts(sha256, previous.proof, next.proof)
  }

  /** A non-empty chain in which every block is linked to the one before it. */
  predicate ValidChain(hash: BlockHash, sha256: Sha256, chain: seq<Block>) {
    |chain| > 0 && forall i :: 1 <= i < |chain| ==> Linked(hash, sha256, chain[i - 1], chain[i])
  }

  /** The blocks carry the indices 1, 2, ..., |chain| in order. */
  predicate Indexed(chain: seq<Block>) {
    forall i :: 0 <= i < |chain| ==> chain[i].index == i + 1
  }

  /** A chain of one block is valid, whatever the block holds. */
  lemma SingletonValid(hash: BlockHash, sha256: Sha256, block: Block)
    ensures ValidChain(hash, sha256, [block])
  {
  }

  /** Appending to a non-empty chain keeps it valid exactly when the old chain was valid
      and the new block is linked to its last block. */
  lemma ValidAppend(hash: BlockHash, sha256: Sha256, chain: seq<Block>, block: Block)
    requires |chain| > 0
    ensures ValidChain(hash, sha256, chain + [block]) <==>
            ValidChain(hash, sha256, chain) && Linked(hash, sha256, chain[|chain| - 1], block)
  {
    var longer := chain + [block];
    if ValidChain(hash, sha256, longer) {
      forall i | 1 <= i < |chain| ensures Linked(hash, sha256, chain[i - 1], chain[i]) {
        assert longer[i - 1] == chain[i - 1] && longer[i] == chain[i];
      }
      assert longer[|chain| - 1] == chain[|chain| - 1] && longer[|chain|] == block;
    }
  }

  /** Every non-empty prefix of a valid chain is valid. */
  lemma ValidPrefix(hash: BlockHash, sha256: Sha256, chain: seq<Block>, n: nat)
    requires ValidChain(hash, sha256, chain) && 0 < n <= |chain|
    ensures ValidChain(hash, sha256, chain[..n])
  {
  }

  /** Replacing a block by one that does not name its predecessor's hash breaks validity. */
  lemma TamperedLinkInvalid(hash: BlockHash, sha256: Sha256, chain: seq<Block>, i: nat, forged: Block)
    requires 1 <= i < |chain| && forged.previousHash != hash(chain[i - 1])
    ensures !ValidChain(hash, sha256, chain[i := forged])
  {
    var tampered := chain[i := forged];
    assert tampered[i - 1] == chain[i - 1] && tampered[i] == forged;
    assert !Linked(hash, sha256, tampered[i - 1], tampered[i]);
  }

  /** Appending to a contiguously indexed chain keeps it so exactly when the new index is one past its length. */
  lemma IndexedAppend(chain: seq<Block>, block: Block)
    requires Indexed(chain)
    ensures Indexed(chain + [block]) <==> block.index == |chain| + 1
  {
    assert (chain + [block])[|chain|] == block;
  }
}
