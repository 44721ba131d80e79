# fs_blockchain in Dafny

A model of the ledger, block and consensus logic of the Rust repository
`fs_blockchain`, with proofs about it. The repository holds two drafts of
this logic, and both are modelled:

- the `blockchain` crate: transactions, a balance ledger, blocks that carry
  transactions and are mined by proof of work, an append-only chain, a
  rotating delegated-proof-of-stake (DPoS) policy and an error enum;
- the older top-level crate (`src/`): blocks that carry a string payload
  (defined twice, in `block.rs` and again in `transaction.rs`), a miner that
  turns a pool of pending transactions into the next block, a max-vote DPoS
  policy and a smaller error enum.

SHA-256, `serde_json` and the clock are parameters:

- `sha: Sha256` is any function from strings to 64-character digests;
- `json: TxJson` is any function from transaction lists to an optional
  string, where `None` means serialisation failed;
- `now: Timestamp` is the clock reading, a non-empty string.

Objects that the source changes in place are classes:

- `Ledger`, whose `balances` map is a field;
- the block classes, whose `nonce` and `hash` fields are mined in place;
- the two `Blockchain`s, which hold a sequence of block references;
- `Miner`;
- the two `DPoS` registries.

`Transaction` and the error enums, which the source only builds and copies,
are datatypes. So is `Delegate`: the source changes a delegate in place only
inside a registry (`delegate.votes += votes` on the element `iter_mut().find`
returns), and the model keeps it as a value and replaces that element of the
registry (`Credited`). Integer widths are explicit:

- `u32`, `u64` and `usize` are subset types of `nat`;
- the `len() as u32` cast in the miner is `AsU32`, which reduces modulo 2^32;
- the `wrapping_add` of the rotation counter is `WrappingInc`, which wraps to
  0 at 2^64.

`f64` amounts are exact reals.

Module layout follows the sources:

| file | module | source |
|---|---|---|
| words.dfy | Words | integer widths and casts |
| outcomes.dfy | Outcomes | `Option` and `Result` |
| text.dfy | Text | `format!` of integers, `"0".repeat(n)` |
| digests.dfy | Digests | the hash record and the proof-of-work target |
| transactions.dfy | Transactions | blockchain/src/blockchain/transaction.rs |
| ledger.dfy | Balances | blockchain/src/wallet/balance.rs |
| blocks.dfy | Blocks | blockchain/src/blockchain/block.rs |
| chain.dfy | Chain | blockchain/src/blockchain/chain.rs |
| delegates.dfy | Delegates | `Delegate`, `find` and `+=` from both dpos.rs files |
| rotating_dpos.dfy | RotatingDpos | blockchain/src/consensus/dpos.rs |
| app_errors.dfy | AppErrors | blockchain/src/core/errors.rs |
| data_block.dfy | DataBlocks | src/blockchain/block.rs |
| data_block_copy.dfy | DataBlockCopy | src/blockchain/transaction.rs |
| data_chain.dfy | DataChain | the chain of the older crate (assumed, see below) |
| miner.dfy | Miners | src/blockchain/miner.rs |
| max_vote_dpos.dfy | MaxVoteDpos | src/consensus/dpos.rs |
| legacy_errors.dfy | LegacyErrors | src/core/errors.rs |

Three points where the model had to choose:

- `src/blockchain/chain.rs` is not part of this model: the file is not
  available. `DataChain.Blockchain` assumes it behaves like the `blockchain`
  crate's chain, but with string-data blocks. The genesis block's data is
  unknown, so it is a parameter.
- `src/blockchain/miner.rs` imports a `Transaction` that
  `src/blockchain/transaction.rs` does not define. The `blockchain` crate's
  `Transaction` record stands in for it.
- For the max-vote policy, ties could have gone to the first delegate with
  the most votes. The code calls `Iterator::max_by_key`, which the Rust
  standard library documents as returning the last element when several are
  equally maximum. The model follows the code.

`mine` has no iteration bound in either crate. Each `Mine` therefore takes a
ghost `goal`: a nonce no larger than `u64::MAX` whose hash meets the target.
The loop decreases `goal - nonce`. The contracts hold for every such goal.
Nothing is said about hashes for which no goal exists; there the source
loops for ever or overflows the nonce (a panic in a debug build, a wrap to 0
in a release build).

## Model

| member | source | states |
|---|---|---|
| Transactions.NewTransaction | blockchain/src/blockchain/transaction.rs:13-21 | sender, recipient and amount are stored as given, with no check on the amount or on self-transfers; the timestamp is the clock reading and is not empty; construction cannot fail |
| Balances.Ledger.constructor | blockchain/src/wallet/balance.rs:15-19 | the map starts empty, so every account reads 0 |
| Balances.Ledger.GetBalance | blockchain/src/wallet/balance.rs:25-27 | the stored balance of an account that was written, and 0 for every other account |
| Balances.Ledger.SetBalance | blockchain/src/wallet/balance.rs:21-23 | afterwards the account reads the new amount, and every other account reads what it read before |
| Balances.Settle | blockchain/src/wallet/balance.rs:37-42 | the two inserts in source order: both parties become keys; for distinct parties the sender loses the amount, the recipient gains it, and every other account is unchanged; on a self-transfer the balance is unchanged, because the recipient is read after the debit |
| Balances.TotalAfterInsert | blockchain/src/wallet/balance.rs:37-42 | overwriting one account changes the sum of all balances by exactly the difference, whether or not the key existed |
| Balances.SettleConserves | blockchain/src/wallet/balance.rs:37-42 | a settled transfer leaves the sum of all balances unchanged, including when it creates the recipient's key |
| Balances.Ledger.ApplyTransaction | blockchain/src/wallet/balance.rs:31-45 | fails with `InsufficientFunds` exactly when the sender's balance is below the amount, and then changes nothing; otherwise the balances become `Settle` of the old ones; either way the sum of balances is unchanged |
| Transactions.JsonOr | blockchain/src/blockchain/block.rs:34-35 | `to_string(..).unwrap_or_else(..)`: the JSON text when serialisation succeeds, the fallback text when it fails; a block hashes the fallback `serialization_error` in place of its batch, and the miner stores "Ошибка сериализации" (src/blockchain/miner.rs:23-24) |
| Digests.HashRecord | blockchain/src/blockchain/block.rs:36-39 | the `format!` record: the index numeral, the timestamp, the payload, the previous hash and the nonce numeral, concatenated; `RecordDeterminesNonce` shows the nonce can be read back from it |
| Digests.RecordDeterminesNonce | src/blockchain/block.rs:31-35 | with the other fields fixed, the record `index ++ timestamp ++ data ++ prev_hash ++ nonce` determines the nonce |
| Blocks.HashDependsOnFieldsOnly | blockchain/src/blockchain/block.rs:33-44 | blocks that agree on index, timestamp, transactions, previous hash and nonce have the same `calculate_hash`; the stored hash is not an input |
| Blocks.Block.New | blockchain/src/blockchain/block.rs:18-31 | index, transactions and previous hash are stored as given, the timestamp is the clock reading, the nonce is 0 and the stored hash equals `calculate_hash` |
| Blocks.Block.Mine | blockchain/src/blockchain/block.rs:46-51 | only the nonce and hash change; the hash stays equal to `calculate_hash`; it then starts with `difficulty` zeros; the nonce never decreases; every nonce passed over misses the target; a block that already meets it, as with difficulty 0, is left unchanged; `difficulty` must not exceed the 64-character hash, or the slice would panic |
| Blocks.Block.CalculateHash | blockchain/src/blockchain/block.rs:33-44 | the digest of the record of the block's index, timestamp, serialised transactions (or `serialization_error`), previous hash and nonce; `HashDependsOnFieldsOnly` shows nothing else is an input |
| Balances.ReplayAll | blockchain/src/blockchain/block.rs:59-61 | the loop with `?`: each transaction in order is checked against the balances left by the earlier ones, the first one not covered stops the replay with `InsufficientFunds`; `ReplayShape` and `ReplayConserves` state its properties |
| Blocks.Block.ApplyBlock | blockchain/src/blockchain/block.rs:55-63 | the ledger and the result are those of `ReplayAll`: transactions are applied in order, and the first one not covered stops the call with `InsufficientFunds`; the block is only read |
| Balances.ReplayShape | blockchain/src/blockchain/block.rs:59-61 | success exactly when every transfer is covered by the balances it meets, and then the ledger is the left fold of the transfers; on failure there is a position k such that the first k transfers were covered and stay applied with no rollback, and the k-th is not covered, so k is the first failure |
| Balances.ReplayConserves | blockchain/src/blockchain/block.rs:59-61 | applying a block, even one that stops part way, conserves the sum of balances |
| Chain.Blockchain.New | blockchain/src/blockchain/chain.rs:8-13 | exactly one block, the genesis block, with index 0, no transactions and previous hash "0"; its hash is the last hash |
| Chain.Blockchain.LastHash | blockchain/src/blockchain/chain.rs:19-24 | the hash of the final block, and the empty string for an empty chain; `New` and `AddBlock` state that it is the newest block's hash after each change |
| Chain.Blockchain.AddBlock | blockchain/src/blockchain/chain.rs:15-24 | the block is appended unchecked, the length grows by one, the earlier blocks are unchanged, and the last hash is then the block's hash |
| Delegates.NewDelegate | blockchain/src/consensus/dpos.rs:11-17 | a new delegate keeps its id and name and has no votes |
| Delegates.FindDelegate | blockchain/src/consensus/dpos.rs:34 | `find` gives the position of the first delegate with the id, or nothing exactly when no delegate has it |
| Delegates.Locate | blockchain/src/consensus/dpos.rs:34 | the front-to-back scan of `iter_mut().find` returns what `FindDelegate` specifies |
| Delegates.Credited | blockchain/src/consensus/dpos.rs:35 | `votes` are added to the one delegate found, and every other delegate and the registry order stay as they were |
| RotatingDpos.DPoS.New | blockchain/src/consensus/dpos.rs:26-31 | the registry as given, with the rotation counter at 0 |
| RotatingDpos.DPoS.Vote | blockchain/src/consensus/dpos.rs:33-40 | an unknown id fails with `DelegateNotFound(id)` and changes nothing; a known id credits its first delegate only |
| RotatingDpos.Rank | blockchain/src/consensus/dpos.rs:47-48 | `sort_by_key(Reverse(votes))` as an insertion sort: it keeps the length; `RankPermutes`, `RankIsRanked` and `RankIsStable` show it is the stable sort by votes, most first |
| RotatingDpos.RankPermutes | blockchain/src/consensus/dpos.rs:47-48 | ranking rearranges the registry without losing or duplicating delegates |
| RotatingDpos.RankIsRanked | blockchain/src/consensus/dpos.rs:48 | ranked delegates are in order of votes, most first |
| RotatingDpos.RankIsStable | blockchain/src/consensus/dpos.rs:48 | the sort is stable: for every vote count, the delegates holding it keep their registry order |
| RotatingDpos.Top | blockchain/src/consensus/dpos.rs:50-54 | the round contains ten delegates, or all of them when there are fewer |
| RotatingDpos.TopDominates | blockchain/src/consensus/dpos.rs:50-54 | no delegate left out of the round has more votes than a delegate in it |
| RotatingDpos.Pick | blockchain/src/consensus/dpos.rs:56-59 | `top[counter % top.len()]`: the chosen delegate is always one of the round |
| RotatingDpos.DPoS.SelectDelegate | blockchain/src/consensus/dpos.rs:42-60 | an empty registry gives `NoDelegates` and the counter does not move; otherwise the result is `top[counter % top.len()]` and the counter advances by one with wrap-around; the registry is only read |
| RotatingDpos.Rotation | blockchain/src/consensus/dpos.rs:56-59 | with votes held fixed, `top.len()` consecutive selections return the round in ranked order, starting at the counter and wrapping round |
| RotatingDpos.RoundCoversTop | blockchain/src/consensus/dpos.rs:56-59 | such a run of selections returns each delegate of the round exactly once |
| RotatingDpos.PickPeriodic | blockchain/src/consensus/dpos.rs:56-59 | after `top.len()` selections the cycle repeats |
| AppErrors.Message | blockchain/src/core/errors.rs:12-17 | every one of the three variants has a message: `DelegateNotFound` begins "Делегат с id ", `TransactionError` begins "Ошибка транзакции: ", and `NoDelegates` is "Нет делегатов" |
| AppErrors.MessageInjective | blockchain/src/core/errors.rs:4-17 | distinct errors have distinct messages: the message recovers the variant, the id and the text |
| DataBlocks.Block.New | src/blockchain/block.rs:16-29 | index, data and previous hash are stored as given, the timestamp is non-empty, the nonce is 0, and the hash equals `calculate_hash` and is not empty, as the test at lines 57-64 expects |
| DataBlocks.NonceSeparatesHashes | src/blockchain/block.rs:67-73 | blocks that differ only in the nonce hash differently, when SHA-256 has no collision between their two records; that is assumed, not proved |
| DataBlocks.Block.CalculateHash | src/blockchain/block.rs:31-40 | the digest of the record of index, timestamp, data, previous hash and nonce; `NonceSeparatesHashes` shows that the nonce changes it |
| DataBlocks.Block.Mine | src/blockchain/block.rs:42-49 | only the nonce and hash change; the hash stays equal to `calculate_hash` and then starts with `difficulty` zeros, as the test at lines 76-82 expects; every nonce passed over misses; the nonce never decreases; `difficulty` must fit in the hash |
| DataBlockCopy.Block.New | src/blockchain/transaction.rs:16-29 | the same as the constructor in `block.rs`: nonce 0 and the hash equal to `calculate_hash` |
| DataBlockCopy.Block.CalculateHash | src/blockchain/transaction.rs:31-40 | the same record and digest as `DataBlocks.Block.CalculateHash` |
| DataBlockCopy.Block.Mine | src/blockchain/transaction.rs:42-47 | on return the first `difficulty` characters of the hash are zeros, the nonce has not decreased, and only the nonce and hash changed |
| DataChain.Blockchain.New | src/blockchain/miner.rs:12 | the assumed genesis-only chain, with index 0 and previous hash "0"; it is linked |
| DataChain.Blockchain.LastHash | src/blockchain/miner.rs:26 | the hash of the final block, and the empty string for an empty chain, as assumed of the missing chain file |
| DataChain.Blockchain.Linked | src/blockchain/miner.rs:25-31 | the linkage the miner builds: block `i` carries index `i as u32` and, after the genesis block, the hash of block `i - 1`; `New`, `AddBlock` and `MinePendingTransactions` state when it holds |
| DataChain.Blockchain.AddBlock | src/blockchain/miner.rs:31 | appends unchecked; the chain stays linked exactly when it was linked, the block carries the next index, and the block carries the old last hash |
| Miners.Miner.New | src/blockchain/miner.rs:10-16 | a fresh chain holding only the genesis block: index 0, previous hash "0", the genesis data, the clock reading, nonce 0, a hash equal to `calculate_hash` that is also the last hash; the chain is linked, the pool is empty and the difficulty is as given |
| Miners.Miner.AddTransaction | src/blockchain/miner.rs:18-20 | the transaction is appended to the end of the pool, and nothing else changes |
| Miners.Miner.MinePendingTransactions | src/blockchain/miner.rs:22-34 | the new block has index `len as u32` and the old last hash, its data is the old pool, and it is mined to the difficulty; the chain grows by exactly that block, with the earlier blocks unchanged; the pool is emptied; a linked chain (`block[i].index == i`, `block[i].prev_hash == block[i-1].hash`) stays linked |
| MaxVoteDpos.DPoS.New | src/consensus/dpos.rs:25-27 | the registry as given |
| MaxVoteDpos.DPoS.Vote | src/consensus/dpos.rs:29-36 | a known id credits its first delegate only; an unknown id fails with `DelegateNotFound(42)`, whatever id was asked for, and changes nothing |
| MaxVoteDpos.LastMaxIndex | src/consensus/dpos.rs:39 | `max_by_key` picks a position whose votes are at least every delegate's, and no later delegate has as many |
| MaxVoteDpos.DPoS.SelectDelegate | src/consensus/dpos.rs:38-40 | nothing exactly when the registry is empty; otherwise a delegate of the registry with the most votes, and the last such one; the registry is only read |
| MaxVoteDpos.DemoElection | src/main.rs:13-24 | the demo's scenario through the model's own `New` and `Vote`: after 100, 200 and 120 votes for delegates 1, 2 and 3, `select_delegate` returns delegate 2, Bob, with 200 votes |
| LegacyErrors.Message | src/core/errors.rs:11-14 | both variants have a message, with the same texts as the `blockchain` crate; there is no empty-registry variant |
| LegacyErrors.MessageInjective | src/core/errors.rs:4-14 | distinct errors have distinct messages |
| Text.DecimalInjective | src/blockchain/block.rs:32-35 | `format!("{}", n)` is injective on unsigned integers, so the numeral in a record determines the number |
| Words.AsU32 | src/blockchain/miner.rs:25 | `as u32` is the identity below 2^32 and otherwise reduces modulo 2^32 |
| Words.WrappingInc | blockchain/src/consensus/dpos.rs:57 | `wrapping_add(1)` adds one, and wraps to 0 at `usize::MAX` |

## Left out

- Hashing, serialisation and time: SHA-256, `serde_json` and `Utc::now` are parameters. Their output formats and internals are not modelled. Collision freedom is a hypothesis where it is used.
- Termination of `mine`: proven only when a goal nonce that meets the target exists, no larger than `u64::MAX`. Without one the source loops for ever, or overflows the `u64` nonce: a debug build panics; a release build wraps to 0 and may stop at a nonce below the starting one, which the model excludes (every `Mine` promises the nonce never decreases).
- Blocks.Block.Mine, DataBlocks.Block.Mine, DataBlockCopy.Block.Mine: the loop steps local copies of the nonce and hash and writes them back when it ends. The source writes the fields on every step, but nothing reads the block in between.
- Miners.Miner.MinePendingTransactions: does not repeat that the new nonce is the first to meet the target; `DataBlocks.Block.Mine` states that property.
- f64 arithmetic: balances and amounts are exact reals. Rounding, NaN and infinities are outside the model, so conservation is exact only in that idealisation.
- RotatingDpos.Rotation, RoundCoversTop, PickPeriodic: they assume consecutive counter values. When the `usize` counter wraps after 2^64 selections, the cycle is broken unless the round size divides 2^64. `SelectDelegate` itself models the wrap.
- RotatingDpos.DPoS.Vote, MaxVoteDpos.DPoS.Vote: `votes +=` may not overflow `u64`. The source panics on overflow in a debug build, and the model requires that it does not happen.
- `println!` after mining and the logging: output only.
- `src/blockchain/chain.rs` and the older crate's `Transaction`: not available; stand-ins as described above.
- The node binaries, their TCP, HTTP, TOML and UPnP code, their error wrapper, and the demo entry point `src/main.rs`: I/O and a demo that calls functions that do not exist. Only the demo's vote scenario is modelled, in `MaxVoteDpos.DemoElection`.
- Digest contents: a digest is any 64-character string; that its characters are lowercase hex is not used and not modelled.
