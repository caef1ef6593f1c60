/** Clients of the ledger engine: call sequences whose outcome follows from the operations' contracts. */
module Scenarios {
  import opened Wrappers
  import opened Digest
  import opened Chain
  import opened Resolver
  import opened Ledger

  /** Staging `transactions` one by one and then sealing gives a block holding exactly them, in order,
      after whatever was already staged. */
  method StageThenSeal(blockchain: Blockchain, transactions: seq<Transaction>, proof: int,
                       previousHash: string, timestamp: string) returns (block: Block)
    requires blockchain.Valid()
    modifies blockchain`chain, blockchain`mempool
    ensures block.transactions == old(blockchain.mempool) + transactions
    ensures blockchain.chain == old(blockchain.chain) + [block] && blockchain.mempool == []
  {
    for k := 0 to |transactions|
      invariant blockchain.chain == old(blockchain.chain)
      invariant blockchain.mempool == old(blockchain.mempool) + transactions[..k]
    {
      var t := transactions[k];
      var _ := blockchain.AddTransaction(t.sender, t.receiver, t.amount);
      assert transactions[..k + 1] == transactions[..k] + [t];
    }
    assert transactions[..|transactions|] == transactions;
    block := blockchain.CreateBlock(proof, previousHash, timestamp);
  }

  /** Sealing twice with nothing staged in between gives the second block no transactions. */
  method SealTwice(blockchain: Blockchain, proof1: int, hash1: string, time1: string,
                   proof2: int, hash2: string, time2: string) returns (first: Block, second: Block)
    modifies blockchain`chain, blockchain`mempool
    ensures first.transactions == old(blockchain.mempool) && second.transactions == []
    ensures blockchain.chain == old(blockchain.chain) + [first, second]
  {
    first := blockchain.CreateBlock(proof1, hash1, time1);
    second := blockchain.CreateBlock(proof2, hash2, time2);
  }

  /** A new node that has staged the transfer of 10 from "A" to "B". */
  method NodeWithTransfer(hash: BlockHash, sha256: Sha256, netloc: string -> string, genesisTime: string)
      returns (blockchain: Blockchain)
    ensures fresh(blockchain) && blockchain.hash == hash && blockchain.sha256 == sha256
    ensures blockchain.chain == [Block(1, genesisTime, 1, "0", [])]
    ensures blockchain.mempool == [Transaction("A", "B", 10)]
  {
    blockchain := new Blockchain(hash, sha256, netloc, genesisTime);
    var index := blockchain.AddTransaction("A", "B", 10);
  }

  /** A new node stages one transfer and mines: its chain has two valid, linked blocks and the
      second carries the transfer followed by the reward. */
  method MineOnFreshNode(hash: BlockHash, sha256: Sha256, netloc: string -> string,
                         nodeAddress: string, genesisTime: string, blockTime: string) returns (blockchain: Blockchain)
    requires exists p :: p >= 1 && Accepts(sha256, 1, p)
    ensures |blockchain.chain| == 2 && Indexed(blockchain.chain)
    ensures blockchain.chain[1].previousHash == hash(blockchain.chain[0])
    ensures blockchain.chain[1].transactions ==
              [Transaction("A", "B", 10), Transaction(nodeAddress, RewardReceiver, RewardAmount)]
    ensures ValidChain(hash, sha256, blockchain.chain) && blockchain.mempool == []
  {
    blockchain := NodeWithTransfer(hash, sha256, netloc, genesisTime);
    SingletonValid(hash, sha256, blockchain.chain[0]);
    ghost var seal :| seal >= 1 && Accepts(sha256, 1, seal);
    assert Accepts(blockchain.sha256, blockchain.GetLastBlock().proof, seal);
    var block := MineBlock(blockchain, nodeAddress, blockTime);
  }

  /** Registering the same address twice on a new node records one peer. */
  method RegisterTwice(hash: BlockHash, sha256: Sha256, netloc: string -> string,
                       timestamp: string, address: string) returns (blockchain: Blockchain)
    ensures blockchain.nodes == {netloc(address)} && |blockchain.nodes| == 1
    ensures |blockchain.chain| == 1 && blockchain.mempool == []
  {
    blockchain := new Blockchain(hash, sha256, netloc, timestamp);
    blockchain.AddNode(address);
    blockchain.AddNode(address);
  }

  /** A node whose single peer reports a strictly longer valid chain adopts it; a peer that is
      only tied in length leaves the local chain as it is. */
  method ResolveAgainstOnePeer(blockchain: Blockchain, peer: string, peerChain: seq<Block>, tied: bool)
      returns (replaced: bool)
    requires blockchain.Valid() && blockchain.nodes == {peer}
    requires ValidChain(blockchain.hash, blockchain.sha256, peerChain)
    modifies blockchain`chain
    ensures replaced == !tied
    ensures blockchain.chain == if tied then old(blockchain.chain) else peerChain
  {
    var length := if tied then |blockchain.chain| else |blockchain.chain| + 2;
    var fetch := (node: string) => Received(200, peerChain, length);
    ghost var before := |blockchain.chain|;
    assert Qualifies(blockchain.hash, blockchain.sha256, before, fetch([peer][0])) <==> !tied;
    var result := blockchain.ReplaceChain([peer], fetch);
    assert !Fatal(before, fetch([peer][0]));
    replaced := result == Success(true);
  }
}
