# Blockchain ledger model

A Dafny model of the ledger behind the `basic_wallet_p` node, which is written in Python.
The node keeps a chain of blocks and a buffer of pending transactions. Each block carries:

- a 1-based `index`;
- a `timestamp`;
- the transactions it sealed;
- the `proof` that let it in;
- a `prev_block` link to its predecessor.

The node does four things:

- It admits transactions into the buffer.
- It seals the buffer into a new block when a miner submits a proof. The proof is valid when the SHA-256 of the last block's canonical JSON string followed by the proof's decimal form starts with six `'0'` hex digits.
- It pays the miner one unit.
- It derives an account's balance by replaying every transaction.

Modules:

- `Results`: `Option` and `Result`. They stand for Python's `None` and for a raised exception.
- `Text`: Python's `str.strip()`, using the full `str.isspace` character set. Also `str(n)` for integers, with a parser that proves the rendering injective.
- `Blockchain`: the `Blockchain` class.
  - It holds the `Tx`, `Block`, `Link` and `Ledger` datatypes.
  - Its operations are the constructor (`Init`), `NewTransaction`, `NewBlock`, `LastBlock`, `LastBlockString`, `Hash` and `ValidProof`.
  - Its ledger invariant is `Valid`: the genesis block comes first, indices are contiguous, and every later block is hash-linked to its predecessor.
- `Mining`: the ledger logic of the `/mine` handler (`Mine`). Also the operations a node can apply (`Step`, `Run`), with the proof that every reachable ledger is `Valid`.
- `Accounts`: the replay of the `/account_info` handler.
  - `AccountInfo` is written as the source's nested loops.
  - It is proved equal to a reference definition: received minus sent over chain transactions followed by pending ones.
  - Lemmas cover how sealing, admission and mining change what is replayed.

SHA-256 and `json.dumps(block, sort_keys=True)` are not modelled. They are the two function fields of a `Crypto` value, which every hashing operation takes as a parameter. `Hash(c, b)` is `c.sha(c.encode(b))`, and `last_block_string()` is `c.encode(last_block)`. So `c.sha(LastBlockString(c, l))` is the hash that a new block's link must equal.

Points where the model follows the code over its comments:

- The link is stored under the key `prev_block`, although the parameter and its docstring call it `previous_hash` (`:29`, `:41`, `:50`). The genesis block has link `1` (an integer, `Link.Number(1)`) and proof `100`.
- `valid_proof` checks six leading zeroes. Its docstring says three.
- `previous_hash or self.hash(self.last_block)` uses Python truthiness. A link of `0` or `""` therefore falls back to the hash of the last block. When that fallback is needed on an empty chain, `last_block` raises `IndexError`. `NewBlock` then returns `Failure(EmptyChain)`.
- In `mine`, the reward transaction `('0', id, 1)` is added *after* the block is sealed. It goes into the fresh, empty buffer, so it is carried by the *next* block (`RewardLandsInNextBlock`). Its recipient is `strip(id)`, because `new_transaction` strips both identifiers.
- `account_info` returns every replayed transaction, not only those that touch the account. The append is outside both `if`s.
- A rejected proof leaves the ledger unchanged. `Mine` reports this as `forged == None`, not as an exception.

## Model

| member | source | states |
|---|---|---|
| `Blockchain.Init` | basic_wallet_p/blockchain.py:10-15 | a new ledger has exactly one block: index 1, no transactions, proof 100, link the integer 1; the pending buffer is empty |
| `Blockchain.InitValid` | basic_wallet_p/blockchain.py:10-15 | the constructed ledger satisfies the invariant (genesis first, contiguous indices, hash links) and its last block has index 1 |
| `Blockchain.NewTransaction` | basic_wallet_p/blockchain.py:19-25 | the chain is untouched; pending grows by exactly one transaction at its end, whose sender and recipient are the stripped inputs; earlier pending entries are kept; on a chain with contiguous indices the reported index is the chain length plus 1 |
| `Blockchain.NewTransactionPreservesValid` | basic_wallet_p/blockchain.py:19-25 | admitting a transaction keeps the ledger invariant |
| `Blockchain.NewBlock` | basic_wallet_p/blockchain.py:45-57 | fails exactly when the chain is empty and no truthy link is supplied; on success it appends exactly one block to the unchanged old chain. That block has index old length + 1, holds exactly the old pending transactions in order, carries the given proof and timestamp, and links to the supplied truthy value or else to the hash of the old last block. Pending becomes empty, and contiguous indices stay contiguous |
| `Blockchain.NewBlockPreservesValid` | basic_wallet_p/blockchain.py:45-56 | sealing with no explicit link always succeeds on a valid ledger and keeps the genesis block, index contiguity and hash linkage |
| `Blockchain.NewBlockExplicitLink` | basic_wallet_p/blockchain.py:50 | with an explicit link, the sealed ledger is valid if and only if the link is falsy or equals the hash of the previous last block |
| `Blockchain.LastBlock` | basic_wallet_p/blockchain.py:94-96 | defined only on a non-empty chain; the result is a block of the chain, and on a contiguous chain it has the highest index, equal to the chain length |
| `Blockchain.LastBlockString` | basic_wallet_p/blockchain.py:119-122 | hashing the last block's canonical string gives the hash of the last block, the value a new block links to |
| `Blockchain.ValidProof` | basic_wallet_p/blockchain.py:113-117 | true if and only if the digest of block string ++ decimal proof has at least 6 characters and its first 6 are all `'0'`; it depends only on the hash function, the string and the proof |
| `Blockchain.GuessDeterminesProof` | basic_wallet_p/blockchain.py:113 | for a fixed block string, different proofs produce different puzzle inputs |
| `Text.Strip` | basic_wallet_p/blockchain.py:21-22 | the stripped identifier neither starts nor ends with whitespace, is a prefix of the input after its leading whitespace, and only whitespace follows it in the input |
| `Text.StripUnique` | basic_wallet_p/blockchain.py:21-22 | any split of a string into whitespace, a trimmed middle and whitespace has Strip's result as its middle |
| `Text.StripIdempotent` | basic_wallet_p/blockchain.py:21-22 | stripping an already-stripped identifier changes nothing |
| `Text.StripTrimmed` | basic_wallet_p/blockchain.py:21-22 | an identifier without surrounding whitespace is stored as given |
| `Text.IntToString` | basic_wallet_p/blockchain.py:113 | the textual form of a proof is non-empty and starts with `-` exactly for negative proofs |
| `Text.ParseIntToString` | basic_wallet_p/blockchain.py:113 | the decimal form of a proof reads back as the same integer |
| `Text.IntToStringInjective` | basic_wallet_p/blockchain.py:113 | distinct proofs have distinct decimal forms |
| `Mining.Mine` | basic_wallet_p/blockchain.py:162-181 | a block is forged if and only if the proof is valid for the last block's string. If not, the ledger is exactly as before. If so, the chain gains one block: index old length + 1, the old pending transactions, the proof, the timestamp, and a link to the hash of the previous last block. Pending is then exactly `[('0', strip(id), 1)]` |
| `Mining.MinePreservesValid` | basic_wallet_p/blockchain.py:167-172 | a mining step, accepted or rejected, keeps the ledger invariant |
| `Mining.RewardLandsInNextBlock` | basic_wallet_p/blockchain.py:170-172 | when a mining step succeeds, its block holds the earlier pending transactions; if the next mining step also succeeds, its block holds exactly the first miner's reward |
| `Mining.Step` | basic_wallet_p/blockchain.py:54-56 | admitting, sealing and mining only ever append to the chain: every earlier block stays as it was |
| `Mining.Run` | basic_wallet_p/blockchain.py:54-56 | over any sequence of operations the chain only grows, and the blocks it started with stay at the front unchanged |
| `Mining.ReachableValid` | basic_wallet_p/blockchain.py:10-57 | every ledger reachable from construction by admitting transactions, sealing without a link and mining keeps the genesis block, contiguous indices 1..n and hash links |
| `Accounts.ReplayAll` | basic_wallet_p/blockchain.py:216-223 | applying the per-transaction step to a sequence appends all of it to the visited list, unfiltered, and keeps the running amount equal to the fold over everything visited |
| `Accounts.AccountInfo` | basic_wallet_p/blockchain.py:213-231 | the returned list is all block transactions in chain order followed by the pending ones, and its length is the total transaction count; the amount is the total received by the account minus the total it sent over that list |
| `Accounts.NetIsReceivedMinusSent` | basic_wallet_p/blockchain.py:219-222 | the transaction-by-transaction running balance equals total received minus total sent |
| `Accounts.NetAppend` | basic_wallet_p/blockchain.py:225-231 | the balance over chain-then-pending is the balance over the chain plus the balance over pending |
| `Accounts.SelfTransferNetsZero` | basic_wallet_p/blockchain.py:219-222 | a transfer whose sender and recipient are the same leaves every account's balance unchanged |
| `Accounts.FlattenLength` | basic_wallet_p/blockchain.py:225-228 | the chain's transactions flattened in order are exactly as many as the blocks hold |
| `Accounts.NewBlockKeepsReplay` | basic_wallet_p/blockchain.py:48-54 | sealing moves transactions from pending into the chain without changing the replayed sequence, so no balance changes |
| `Accounts.NewTransactionExtendsReplay` | basic_wallet_p/blockchain.py:20-23 | admitting a transaction appends exactly that (stripped) transaction to the replayed sequence |
| `Accounts.MineCreditsMiner` | basic_wallet_p/blockchain.py:167-172 | a successful mining step appends exactly the reward to the replayed sequence and a rejected one changes nothing. The balance of strip(id) rises by 1 unless strip(id) is `'0'`, where the reward is a self-transfer; `account_info` compares the raw id, so an id with surrounding whitespace is not credited under its raw form |
| `Accounts.AliceBobSubmitted` | basic_wallet_p/blockchain.py:19-25 | after alice→bob 10 is submitted to a fresh ledger, the chain is the genesis block and pending is that one transfer |
| `Accounts.AliceBobScenario` | basic_wallet_p/blockchain.py:162-181 | after alice pays bob 10 and bob mines with a valid proof, block 2 holds only the transfer and the reward waits in pending. The replay is the two transactions; bob's balance is 11 and alice's is −10 |

## Left out

- HTTP routing, request parsing, `jsonify`, status codes, template rendering and process startup (`basic_wallet_p/blockchain.py:126-250`) are I/O around the ledger.
- The `_id is None` early return of `account_info` (`:209-210`) is request validation. The model's account id is always a string.
- `transaction_new` checks an undefined name `values` (`:142`) and raises `NameError`. This is request plumbing and is not modelled.
- Printing and swallowing exceptions in `mine` and `account_info` (`:183-189`, `:237-239`) are console I/O.
- Mining.Mine: the model's miner id is a string. In the source a non-string id raises `AttributeError` in `new_transaction` (`:172`) after `new_block` (`:170`) has appended the block, so the block stays sealed with no reward buffered and the handler answers 200 (`:183-189`).
- Blockchain.Hash: carries no contract of its own. It is the composition of two uninterpreted library calls, SHA-256 over `json.dumps(block, sort_keys=True)` (`:68-69`). Its role as the value every later block's `prev_block` must carry is stated by `Linked`, by the `prevBlock` clauses of `NewBlock` and `Mine`, and by `NewBlockPreservesValid`, `NewBlockExplicitLink` and `MinePreservesValid`.
- SHA-256 and the byte layout of `json.dumps(sort_keys=True)` are library calls. They are the uninterpreted fields of `Crypto`. Idempotent hashing holds because `Hash` is a function.
- `time()` is a clock read. It is a `real` parameter of `NewBlock`, `Init` and `Mine`.
- Amounts are `int` and proofs are `int`. The code only adds and subtracts amounts, and float or string proofs from JSON are not modelled.
- `uuid4` node identifiers (`:132`), the unused `self.score` (`:17`) and the unreachable lines after `return` in `hash` (`:72-91`) are not modelled.
- `new_transaction` on an empty chain would append and then raise. `NewTransaction` requires a non-empty chain: the constructor establishes this and every operation keeps it.
- `Mining.Run` applies `new_block` only without an explicit link. Explicit links other than the last block's hash are covered by `NewBlockExplicitLink`.
- Concurrent requests are not modelled; the model applies operations one at a time. The source has no lock, so under Flask's threaded server (`:250`) two `/mine` calls can interleave between `:167` and `:170`, and the second can append a block whose proof was checked against the previous tip.
- The conservation of amounts summed over all identifiers is not stated. What is stated is the per-account form: received minus sent, and self-transfers net to zero.
