# VaultCoin ledger engine in Dafny

This project models the ledger engine of a VaultCoin node: the `Blockchain` class of
`cryptocurrency/test_nodes/vaultcoin_node_5001.py` and the mining sequence of its `/mine_block`
route. It also proves properties of that model. A node holds three pieces of state:

- a chain of blocks;
- a mempool of staged transactions;
- a set of peer authorities (`host:port`).

The engine offers these operations:

- it builds the genesis block;
- it stages transactions;
- it seals the mempool into a new block under a proof of work;
- it validates a chain by hash linkage and the proof predicate;
- it registers peers;
- it replaces its chain by the longest valid chain its peers report, if that chain is strictly longer.

Layout, one module per component:

- `wrappers.dfy` (`Wrappers`): `Option` and `Result`.
- `decimal.dfy` (`Decimal`): Python's `str` on integers, with its inverse.
- `digest.dfy` (`Digest`): the four-leading-zeros predicate `Accepts` and the "least proof" relation.
- `chain.dfy` (`Chain`): `Transaction`, `Block` and the errors. Also `ValidChain`, the declarative meaning of validation, and `Indexed`, contiguous 1-based indices.
- `resolver.dfy` (`Resolver`): the consensus scan `Resolve` as a function over `Fetched`, the list of replies, one per peer in iteration order, that `ReplaceChain` scans. The lemmas beside it characterise its result.
- `ledger.dfy` (`Ledger`): the `Blockchain` class, whose fields `chain`, `mempool` and `nodes` its methods update. Also the mining step `MineBlock`.
- `scenarios.dfy` (`Scenarios`): client call sequences whose outcome follows from the contracts. `NodeWithTransfer` is a helper that builds the starting node for `MineOnFreshNode`.

The engine's foreign primitives are `const` fields of the class, fixed at construction:

- `hash`: SHA-256 over the block's JSON text with sorted keys.
- `sha256`: SHA-256 of a text as a hexadecimal digest. Both mining and validation use it.
- `netloc`: the authority part of a URL.

The wall-clock timestamp is an argument. A peer request is a function `fetch` from peer to `Response`:

- `Unreachable`: the request raised.
- `Received(status, chain, length)`: a reply. The reported `length` is kept apart from the chain, because the code trusts it.

The iteration order of the peer set is an argument `order`, which must list every peer once.

The model follows the code as written in three places where a reader might expect otherwise:

- `replace_chain` does not catch exceptions from the request. An unreachable peer therefore aborts the whole resolution: `Failure(PeerUnreachable)`, with the chain unchanged. It is not skipped. Only non-200 replies are skipped.
- `is_chain_valid` reads `chain[0]` first, so on an empty chain it raises rather than returning false: `Failure(EmptyChain)`. A peer that reports an empty chain with a length above the running maximum aborts `replace_chain` the same way.
- `add_transaction` returns the last block's `index` plus one, not the chain length plus one. The two agree while indices are contiguous (`Indexed`). Validation checks neither indices nor the genesis block, so a chain adopted from a peer may break contiguity. No lemma claims contiguity after `ReplaceChain`.

## Model

| member | source | states |
|---|---|---|
| Ledger.Blockchain.constructor | cryptocurrency/test_nodes/vaultcoin_node_5001.py:13-17 | the chain is exactly one block with index 1, proof 1, previous hash "0" and no transactions; the mempool and the peer set are empty |
| Ledger.Blockchain.CreateBlock | cryptocurrency/test_nodes/vaultcoin_node_5001.py:19-27 | exactly one block is appended, with index old length + 1, the given proof and previous hash, and the old mempool in order as its transactions; earlier blocks are unchanged; the mempool is emptied; the result is the new last block; contiguous indices stay contiguous |
| Ledger.Blockchain.GetLastBlock | cryptocurrency/test_nodes/vaultcoin_node_5001.py:29-30 | the chain ends with the returned block; with contiguous indices its index is the chain length |
| Ledger.Blockchain.ProofOfWork | cryptocurrency/test_nodes/vaultcoin_node_5001.py:32-42 | returns the least p >= 1 whose digest of str(p*p - prev*prev) starts with four '0', the predicate validation checks |
| Ledger.Blockchain.IsChainValid | cryptocurrency/test_nodes/vaultcoin_node_5001.py:48-62 | fails exactly on the empty chain; otherwise returns true iff every block i >= 1 names the hash of block i-1 and its proof is accepted against block i-1's proof |
| Ledger.Blockchain.AddTransaction | cryptocurrency/test_nodes/vaultcoin_node_5001.py:64-70 | appends one (sender, receiver, amount) record to the end of the mempool, leaves the chain alone, returns the last block's index + 1 (the chain length + 1 while indices are contiguous) |
| Ledger.Blockchain.AddNode | cryptocurrency/test_nodes/vaultcoin_node_5001.py:72-74 | the peer set becomes the old set plus the address's authority; chain and mempool untouched |
| Ledger.Blockchain.ReplaceChain | cryptocurrency/test_nodes/vaultcoin_node_5001.py:77-95 | fails with the error the scan raises exactly when the scan aborts; otherwise returns true iff some status-200 reply reports a length greater than the local length and carries a valid chain; then the chain becomes the first reply holding the greatest such length; otherwise, ties included, the chain is unchanged; failures only come from an unreachable peer or an empty over-long chain; mempool and peers never change |
| Ledger.MineBlock | cryptocurrency/test_nodes/vaultcoin_node_5001.py:115-121 | appends one block whose proof is the least proof for the old last block, whose previous hash is that block's hash and whose transactions are the old mempool followed by the reward to "Node1" of 10; a valid chain stays valid and grows by one |
| Decimal.NatToString | cryptocurrency/test_nodes/vaultcoin_node_5001.py:37 | str of a natural number is a non-empty digit string without leading zero |
| Decimal.IntToString | cryptocurrency/test_nodes/vaultcoin_node_5001.py:37 | str of an integer starts with '-' exactly when it is negative and is digits otherwise |
| Decimal.NatToStringValue | cryptocurrency/test_nodes/vaultcoin_node_5001.py:37 | the digits of str(n) denote n |
| Decimal.IntToStringValue | cryptocurrency/test_nodes/vaultcoin_node_5001.py:37 | reading back str(n) as a signed numeral gives n |
| Decimal.IntToStringInjective | cryptocurrency/test_nodes/vaultcoin_node_5001.py:37 | different values of p*p - prev*prev are hashed as different texts |
| Digest.Prefix | cryptocurrency/test_nodes/vaultcoin_node_5001.py:38 | the slice h[:n] has length min(n, len h) and is a prefix of h |
| Digest.HasLeadingZerosChars | cryptocurrency/test_nodes/vaultcoin_node_5001.py:38 | a digest passes iff it has at least four characters and its first four are '0' |
| Digest.LeastProofUnique | cryptocurrency/test_nodes/vaultcoin_node_5001.py:32-42 | the search result is determined by the previous proof: two least proofs are equal |
| Chain.SingletonValid | cryptocurrency/test_nodes/vaultcoin_node_5001.py:48-62 | a chain of one block is valid |
| Chain.ValidAppend | cryptocurrency/test_nodes/vaultcoin_node_5001.py:48-62 | appending a block keeps a non-empty chain valid iff the chain was valid and the block links to its last block |
| Chain.ValidPrefix | cryptocurrency/test_nodes/vaultcoin_node_5001.py:48-62 | every non-empty prefix of a valid chain is valid |
| Chain.TamperedLinkInvalid | cryptocurrency/test_nodes/vaultcoin_node_5001.py:53-54 | replacing a block by one whose previous hash differs from its predecessor's hash makes the chain invalid |
| Chain.IndexedAppend | cryptocurrency/test_nodes/vaultcoin_node_5001.py:20 | appending keeps indices contiguous iff the new index is the old length + 1 |
| Resolver.Resolve | cryptocurrency/test_nodes/vaultcoin_node_5001.py:82-91 | the recursive rendering of the scan over the replies with its running maximum and held chain; any chain it chooses beyond the one it already held is valid |
| Resolver.ResolveChoosesIff | cryptocurrency/test_nodes/vaultcoin_node_5001.py:77-95 | when the scan succeeds it chooses a chain iff one was held already or some reply qualifies (status 200, strictly longer, valid) |
| Resolver.ResolveWinner | cryptocurrency/test_nodes/vaultcoin_node_5001.py:88-93 | a chosen chain is the held one when nothing qualifies, otherwise the chain of the first reply with the greatest qualifying length |
| Resolver.ResolveFailsOnFatal | cryptocurrency/test_nodes/vaultcoin_node_5001.py:83-88 | the scan aborts only on an unreachable peer or an empty chain reported longer than the local one |
| Resolver.UnreachableFails | cryptocurrency/test_nodes/vaultcoin_node_5001.py:83 | an unreachable peer anywhere in the order aborts the scan |
| Resolver.NoLongerPeerKeeps | cryptocurrency/test_nodes/vaultcoin_node_5001.py:88-95 | reachable peers no longer than the local chain, ties included, choose nothing |
| Scenarios.StageThenSeal | cryptocurrency/test_nodes/vaultcoin_node_5001.py:64-70 | staging t1..tn and sealing gives a block whose transactions are the earlier mempool followed by exactly t1..tn |
| Scenarios.SealTwice | cryptocurrency/test_nodes/vaultcoin_node_5001.py:24-25 | sealing twice with nothing staged in between gives the second block no transactions |
| Scenarios.MineOnFreshNode | cryptocurrency/test_nodes/vaultcoin_node_5001.py:115-121 | a new node that stages A to B 10 and mines has a valid, contiguously indexed chain of two blocks, the second linked to the first and carrying the transfer then the reward |
| Scenarios.RegisterTwice | cryptocurrency/test_nodes/vaultcoin_node_5001.py:72-74 | registering the same address twice records one peer |
| Scenarios.ResolveAgainstOnePeer | cryptocurrency/test_nodes/vaultcoin_node_5001.py:77-95 | a strictly longer valid peer chain is adopted and reported; a tied one is not |

## Left out

- The Flask application and its routes' HTTP handling (lines 99-190): request parsing, missing-key checks, JSON responses. They are an API shell around the engine. The mining sequence inside `/mine_block` is modelled as `MineBlock`.
- Node identity from `uuid4`, and `app.run` with its port binding: process start-up. The node address is an argument of `MineBlock`.
- SHA-256 and `json.dumps(sort_keys=True)`: foreign library calls. They are the `hash` and `sha256` parameters, so the `hash` method of the class is the `hash` field. Determinism holds because they are functions; collision resistance is not modelled.
- `datetime.datetime.now()`: the wall clock. Each block's timestamp text is an argument.
- `urlparse(...).netloc`: library parsing. It is the `netloc` parameter.
- `requests.get` and `response.json()`: network I/O. Each peer's outcome is `fetch(peer)`, which always returns. The source passes no timeout, so a peer that never answers blocks `replace_chain` forever; the model does not capture that. A 200 reply whose body is not the expected JSON, and so would raise, is not modelled.
- The iteration order of the peer set is unspecified in Python. It is the `order` argument, which lists every peer once.
- Python's dynamic records: a peer block with missing or ill-typed fields would raise `KeyError` or `TypeError`. Blocks here are typed records.
- Transaction fields: the `/add_transaction` route only checks that the three keys are present, so sender, receiver and amount can each be any JSON value. The model takes sender and receiver as strings and amount as an integer.
- Concurrency: `app.run` serves requests on threads by default, and the engine takes no lock. The model treats every operation as atomic, so it does not capture the races this permits. Two overlapping mining requests can both read the same last block and seal two blocks naming its hash, which breaks validity. Registering a peer while `replace_chain` iterates over the peer set raises because the set changed size.
- Ledger.Blockchain.ProofOfWork: the source loops forever when no proof exists. The model demands that some proof p >= 1 exists, so it does not capture that non-termination.
- Ledger.MineBlock: carries the same demand that a proof exists for the last block.
