# Verification of the UTXO indexer and its storage service

Two services follow a Bitcoin chain for a set of watched addresses. The *indexer* polls a node,
scans new blocks, sends one block update per block over a socket, and sends a reorg event when a
recent block it processed is no longer the node's. The *storage service* keeps a versioned table of
outputs, in SQLite or in CSV-style maps, answers "what is spendable at height q", and can go back
to an earlier height. On top of both sit coin selection, transaction building and an idempotent
prepare route. This project models that system in Dafny and proves what it is for.

    dafny verify dfyconfig.toml

## Layout

- `NetworkShared`, `Wrappers`: the data on the socket.
- `History`: what a chain says about each outpoint (its *life*), independently of any store. A
  history is well-formed when updates carry their block's height and each outpoint is created at
  most once, spent at most once, never spent before its creation, and keeps one address. A spend
  of an output that was never recorded is allowed.
- `SqliteTable`, `SqliteDatasource`, `SqliteLaws` and `CsvTable`, `CsvDatasource`, `CsvLaws`: for
  each backend the state as a value, the class that updates it in place and is proved against that
  value, and what the value means. `Pending`, `StorageErrors`: block splitting and validation.
- `Database`: the storage service and its message handler. `ChainLog`: storage seen as a log of
  accepted blocks. `Backends`: both backends against one log. `StorageLaws`: what any run of messages
  does to single rows. `Ledger`: balances.
- `Indexer`: the cycle as a class over node and socket oracles that may fail or change between any
  two calls. `Protocol`: the steps a cycle can take, and what every run keeps. `Convergence`: what
  repeated cycles reach, also when the indexer is started again over a store that kept its rows.
- `Rpc`, `TxCache`, `Scan`, `ScanLaws`: batched fetching, the cache, the block scan and what its list says.
  `Pipeline`: from a valid
  chain through scan and store to a query.
- `Selection`, `Addresses`, `Http`, `Api`, `TwoCoins`, `Transactions`, `Prepare`: selection, building,
  preparing.

Three independent references carry the main results. `UnspentOnChain` and `Unspent` say what an
unspent output is without any table; `PlainScan` is one pass over a block without cache, chunks or
batches; `Replay` is a store that never saw a reorg.

## Where the code does less than one may expect

- SQLite writes a block's spends before its creations, so an output created and spent in one block
  is offered as spendable for good. `SqliteLaws.SpendableExactIff` shows that this is the only way a
  well-formed chain gets a wrong answer. CSV writes in the other order and has no such case.
- `is_final` does not protect a block in storage: the node's height decides what is flagged, storage's
  own latest height what a request can revert. While the indexer catches up, even storage's tip is
  both (`ChainLog.FlaggedYetReverted`). What saves it is the indexer: over whole runs a flagged block
  is reverted only if it is exactly the one five below the node and the node has not grown since
  (`Protocol.FlaggedLeavesAtTheEdge`).
- The CSV backend flags heights, not blocks: a finality message ahead of its block counts there and
  not in SQLite (`StorageLaws.FinalInCsvOnly`).
- A stale block goes unnoticed while the node is not above the indexer, or when the block lies below
  the window (`Indexer.ReorgNoticedIff`). The repository's own README promises reorgs of up to six
  blocks; convergence therefore assumes agreement below the window.
- A fork point of -1 (block 0 replaced) is the one request the two clamps disagree on
  (`ChainLog.ClampsAgree`).
- A failed batch may leave blocks in storage above the indexer's height, which no reorg check looks
  at. `SqliteLaws.RetryWithOtherBlocksIff` says exactly when sending other blocks next wipes them out.
- The indexer does not remember its height. A new start sends the whole chain again, and until it has
  caught up, outputs whose spend is not sent again yet are offered as spendable
  (`SqliteLaws.SpendableWhileSentAgain`). In the end the table is right (`Convergence.RestartsConverge`).
- The indexer's per-address selection does not pool addresses, although its select route does.
  `Api.PoolButNotFetchIff` says when the two differ, `TwoCoins` gives a store in which they do.
- The two selection loops treat a request for nothing differently (`Api.LoopsDiffer`).
- Change is dropped from the transaction, but still announced to the signing service, if the first
  selected address does not parse (`Transactions.ConservedIff`).

## Assumptions

- Messages are handled in the order sent. A reorg event or finality message is handled exactly when
  sending it succeeds, since nobody acknowledges it. A block update may be handled although its ack
  is lost.
- A block hash names one block of one height; `heightOf` is that map. A chain is *valid* when no txid
  repeats (the rule of BIP 30), no output is spent twice and spends follow creations.
- Storage does not change during one selection, and lists equal queries in the same order meanwhile.
- A *clean* run has no failed batch, forms a chain, and never asks to go below block 0.

## Model

| member | source | states |
|---|---|---|
| Convergence.Converges | indexer/src/indexer.rs:833-952 | Below a node that stands still, with storage any number of blocks ahead of the indexer, repeated cycles take one reorg cycle if the window diverged plus exactly the ceiling of the remaining distance over the batch limit, and no fewer; then the indexer is at the tip, every stored hash is the node's, the `utxo` table equals a from-scratch replay of the node's chain, and if the tip is above 5 every block at least five below it is stored and final |
| Convergence.RestartsConverge | indexer/src/indexer.rs:540-552 | The indexer forgets its height and the store keeps its rows, any number of times and also inside a batch: one more start from block 0 reaches the tip in exactly the batches the whole chain needs, with the node's table and the deep blocks final |
| Convergence.RestartIsAligned | indexer/src/indexer.rs:546-546 | Wherever the indexer stopped, a store that received blocks of the node's chain is a valid start for an indexer at height -1 |
| Convergence.AlignedReceives | indexer/src/indexer.rs:860-872 | Receiving further blocks, over any number of blocks already there, keeps the invariant of convergence |
| Convergence.RunsConverge | indexer/src/indexer.rs:833-952 | Every clean run can be followed by that convergence: the starting condition is reached by all of them |
| Convergence.StaysConverged | indexer/src/indexer.rs:834-837 | At the tip, further cycles change neither height nor tables |
| Convergence.AlignedConverges | indexer/src/indexer.rs:844-872 | Without a divergence the number of cycles is exactly the number of full batches, also when storage is any number of blocks ahead of the indexer |
| Convergence.ReorgCycle | indexer/src/indexer.rs:895-932 | A diverged window costs one cycle, after which indexer and storage stand together just below the least differing height |
| Protocol.HashesAreFinal | indexer/src/indexer.rs:895-952 | Over every run from every state, failed batches included: once `h` is processed and six below the node, no later step changes the stored hash or main-chain flag at `h` or takes the indexer below `h` |
| Protocol.AnswersAreFinal | indexer/src/indexer.rs:895-952 | Over every clean run from an empty store: once `h` is processed and six below the node, no later step changes what any spendable query at a height up to `h` lists |
| Protocol.FlaggedLeavesAtTheEdge | indexer/src/indexer.rs:875-928 | Over every run from an empty store, a block that is final and on the main chain leaves it only through a reorg to just below it, at a count that has not grown since, and only if it is the block five below that count |
| Protocol.FlagsStay | indexer/src/indexer.rs:833-952 | Over every run from every state, a final flag is never cleared |
| Protocol.RunsFlagDeep | indexer/src/indexer.rs:874-884 | In every run only blocks at least five below the node are flagged final |
| Protocol.LogsAreFinal | indexer/src/indexer.rs:895-952 | The first `h + 1` blocks that storage has accepted are never rewritten by later steps |
| Protocol.RunsStayInStep | indexer/src/indexer.rs:833-952 | In every clean run storage holds exactly the chain the indexer believes in, up to its last processed height |
| Protocol.StepKeepsInStep | indexer/src/indexer.rs:833-952 | Each step of a cycle, reorg, batch or finality message, keeps the two services in step |
| Indexer.BitcoinIndexer.ProcessNewBlocks | indexer/src/indexer.rs:833-893 | Whatever the node and the socket answer, one cycle is one allowed step and storage moves by that step; against a stable node it is exactly the planned step and succeeds |
| Indexer.BitcoinIndexer.ProcessAbove | indexer/src/indexer.rs:839-872 | When the node is above the indexer, the cycle is a reorg step or else a batch step; a failed reorg check goes on to the batch |
| Indexer.BitcoinIndexer.RunCycles | indexer/src/indexer.rs:955-968 | Any number of polling rounds, failures included, is a run of the protocol from the state they start in: steady if the node never goes down, and the iterated plan if the node stands still |
| Indexer.BitcoinIndexer.ProcessBatch | indexer/src/indexer.rs:844-892 | The batch: the height moves only after every block of it was acknowledged; the cycle succeeds only if the finality message was sent exactly when the node is above 5, and reports the number of blocks; a failed block leaves the height |
| Indexer.BitcoinIndexer.SendBlocks | indexer/src/indexer.rs:860-867 | The blocks storage has received are consecutive from the last processed height, also when the loop stops early |
| Indexer.BitcoinIndexer.SendBlock | indexer/src/indexer.rs:863-866 | One block of the loop: fetched by hash, of the wanted height, and stored whenever it was acknowledged |
| Indexer.BitcoinIndexer.GetBlockData | indexer/src/indexer.rs:602-619 | The block update has the hash the node gave for the height, and the height and content the node gave for the hash |
| Indexer.BitcoinIndexer.CheckForReorg | indexer/src/indexer.rs:895-932 | Under arbitrary changing answers a reported reorg takes the height strictly down, at most one below the window, and storage was asked for that height, and without one every processed window height agreed when compared; under a stable view the answer is true exactly when a window height differs, the new height is the least such minus one, and at most one height is probed |
| Indexer.BitcoinIndexer.FindForkPoint | indexer/src/indexer.rs:935-952 | The result lies between one below the minimum and one below the start, and a height at or above the minimum agreed when probed; against a stable node it is the greatest agreeing height, found in exactly that many probes |
| Indexer.BitcoinIndexer.GoBackBelow | indexer/src/indexer.rs:917-927 | Height and storage go back together to the fork point, or neither moves |
| Indexer.BitcoinIndexer.SendBlockUpdate | network-shared/src/lib.rs:70-102 | Success needs the ack of this very height; a lost ack may leave the block stored |
| Indexer.BitcoinIndexer.Send | network-shared/src/lib.rs:104-120 | A message without an ack takes effect exactly when it was sent |
| Indexer.BitcoinIndexer.GetStoredHash | network-shared/src/lib.rs:122-160 | The hash query answers from storage and changes nothing |
| Indexer.LastMatch | indexer/src/indexer.rs:938-951 | The greatest height below a start at which node and storage agree, or one below the minimum |
| Indexer.FirstMismatch | indexer/src/indexer.rs:912-916 | The least window height at which node and storage differ, or one above the window |
| Indexer.ReorgNoticedIff | indexer/src/indexer.rs:834-917 | A cycle reports a reorg exactly when the node is above the indexer and some processed height at most five below the node differs: no growth, or a divergence further down, goes unnoticed |
| ChainLog.ReceivingReaches | storage/src/database.rs:32-72 | Receiving consecutive blocks of a chain leaves storage with exactly its prefix, also if an earlier attempt delivered some of them |
| ChainLog.ReceivingAppends | storage/src/network/socket.rs:72-94 | Block updates append to the log that the two tables represent |
| ChainLog.RevertingCuts | storage/src/database.rs:217-252 | A reorg event cuts the log at the clamped height: rows, hashes and main-chain flags |
| ChainLog.ClampExact | storage/src/database.rs:217-229 | A revert request goes to its height if that is at least max(latest - 6, 0), and otherwise to exactly that bound |
| ChainLog.ClampsAgree | storage/src/database.rs:217-229 | For every fork point the indexer can report, with storage not ahead of the node, storage reverts to exactly that height if and only if it is not -1 |
| ChainLog.RevertKeepsFinal | storage/src/database.rs:217-252 | Whatever is requested, all rows and main-chain blocks up to max(latest - 6, 0) survive, with their spendability at those heights |
| ChainLog.RemovableIff | storage/src/database.rs:217-252 | Some request takes a block off the main chain exactly when it lies above max(latest - 6, 0) |
| ChainLog.FlaggedYetReverted | storage/src/database.rs:200-229 | After a finality message for any node height `c`, a block is flagged and still removable exactly when it was flagged before or lies at or below a positive `c - 5`, and lies above max(latest - 6, 0) of storage's own latest height |
| ChainLog.FinalityKeeps | storage/src/database.rs:200-215 | Flagging blocks as final changes no hash, main-chain flag or row |
| ChainLog.HashAnswers | storage/src/database.rs:254-259 | The hash answers are those of the log, and the empty hash elsewhere |
| ChainLog.LatestOf | storage/src/datasources/sqlite.rs:162-178 | The latest block is the tip of the log, 0 for an empty store |
| Backends.SameAnswers | storage/src/datasources/csv.rs:139-379 | Backend simulation: after every run of messages that forms a chain, with no surviving block creating and spending one output, SQLite and CSV give the same spendable rows, hashes, replies and latest block |
| Backends.RunsHoldTheLog | storage/src/datasources/csv.rs:139-379 | After every such run both backends represent the same log, same-block spends or not |
| Backends.SameSpendable | storage/src/datasources/csv.rs:139-257 | The two replays list the same spendable rows; SQLite's extra rows for unknown spends are never listed |
| Backends.CsvReceivingAppends | storage/src/datasources/csv.rs:139-203 | A block update appends to the log the CSV maps represent |
| Backends.CsvRevertingCuts | storage/src/datasources/csv.rs:339-379 | A revert cuts that log, up to empty address buckets |
| Backends.ProcessBlockIntoCsv | storage/src/database.rs:32-72 | Over the CSV datasource too, a block is applied as a whole or rejected as a whole |
| Backends.ServeFromCsv | storage/src/network/socket.rs:71-137 | One message over the CSV datasource: the new state and the reply |
| SqliteLaws.ReplaySlot | storage/src/datasources/sqlite.rs:87-191 | The row of every outpoint in closed form: first write fixes the row, last write its spent columns, with spends written before creations of the same block |
| SqliteLaws.RowColumns | storage/src/datasources/sqlite.rs:93-100 | Column by column: a row has the coin columns of its outpoint's first update and the spent columns of its spend, or none |
| SqliteLaws.RevertRestores | storage/src/datasources/sqlite.rs:511-541 | Reverting to `h` restores, row for row, the table held after block `h`, for every `h` from -1 up |
| SqliteLaws.ReorgEqualsRewrite | storage/src/datasources/sqlite.rs:511-541 | Old branch, revert to the common height, new branch: the same table as common prefix plus new branch into an empty store |
| SqliteLaws.TimeTravel | storage/src/datasources/sqlite.rs:212-221 | A query at `q` after a longer history, or after a revert to any `h >= q`, lists the unspent rows of the store that saw only blocks up to `q` |
| SqliteLaws.QueryCommutesWithRevert | storage/src/datasources/sqlite.rs:212-221 | On any table with sound rows, querying at `q` is reverting to `q` and listing what is left |
| SqliteLaws.SpendableMatchesChain | storage/src/datasources/sqlite.rs:193-270 | Without same-block spends, an outpoint is listed exactly when the chain created it for the address and has not spent it |
| SqliteLaws.SpendableExactIff | storage/src/datasources/sqlite.rs:186-190 | Writing spends before creations gives the chain's answer to every query if and only if no block creates and spends one outpoint |
| SqliteLaws.SameBlockSpendIsOffered | storage/src/datasources/sqlite.rs:186-190 | An outpoint created and spent in one block is listed as spendable from that block on |
| SqliteLaws.ReplayRowsOk | storage/src/datasources/sqlite.rs:87-129 | In the table of every well-formed history spent columns are set or clear together and no spend is older than its row |
| SqliteLaws.FirstAndLastWrite | storage/src/datasources/sqlite.rs:97-100 | Any run of upserts to one row: the first fixes the row, the last its spent columns |
| SqliteLaws.RetryIsHarmless | indexer/src/indexer.rs:860-872 | A batch that failed after any block and is sent again in full leaves the table of one sending, for all updates and all tables |
| SqliteLaws.ResendFromStart | indexer/src/indexer.rs:540-552 | A table that the rest of a chain would complete to its replay is also completed by sending the chain again from its first block, whatever the table mixes |
| SqliteLaws.SpendableWhileSentAgain | indexer/src/indexer.rs:540-552 | While a restarted indexer sends the chain again and has reached block `k`, a query at `q` lists exactly what the chain has unspent at `q` and also what it had unspent at `k`: outputs spent in between are open again for that time |
| SqliteLaws.RetryWithOtherBlocksIff | indexer/src/indexer.rs:860-872 | If the retry sends other blocks, the failed batch leaves no trace if and only if every row it wrote was known before and is written again or kept its spent columns, or is created again as the same coin |
| CsvLaws.ReplaySlot | storage/src/datasources/csv.rs:139-203 | The entry of every outpoint in closed form, with inserts before marks |
| CsvLaws.EntryColumns | storage/src/datasources/csv.rs:145-197 | Column by column: an entry has the columns of the creation and the spent columns of the spend, or none |
| CsvLaws.RevertRestores | storage/src/datasources/csv.rs:348-379 | Reverting to `h` restores the entries held after block `h`; only empty buckets may remain |
| CsvLaws.ReorgEqualsRewrite | storage/src/datasources/csv.rs:348-379 | The reorg equals the rewrite, up to empty buckets |
| CsvLaws.SpendableMatchesChain | storage/src/datasources/csv.rs:221-257 | An outpoint is listed exactly when the chain created it for the address and has not spent it, same-block spends included |
| CsvLaws.EffectDecides | storage/src/datasources/csv.rs:145-197 | Any run of inserts and marks does one of three things to an entry: nothing, mark it if present, or set it |
| CsvLaws.RetryIsHarmless | indexer/src/indexer.rs:860-872 | A re-sent batch leaves the entries of one sending, for all updates and all maps |
| Ledger.BalanceLedger | storage/src/datasources/sqlite.rs:87-221 | In every state a well-formed run reaches, per address and height, the spendable sum is what was received minus what was spent, and every row's spent columns are consistent |
| Ledger.BalanceOfTable | storage/src/datasources/sqlite.rs:212-221 | The same balance for any table with sound rows |
| SqliteDatasource.SqliteDatasource.BulkUpsertUtxos | storage/src/datasources/sqlite.rs:87-150 | All-or-nothing: either every update is upserted in order, or the first unacceptable one is reported and the table is unchanged |
| SqliteDatasource.SqliteDatasource.ProcessBlockUtxos | storage/src/datasources/sqlite.rs:180-191 | Updates before inserts, in one transaction; the first unacceptable one is reported |
| SqliteDatasource.SqliteDatasource.GetSpendableUtxosAtHeight | storage/src/datasources/sqlite.rs:193-270 | The guards, then each spendable row of the address once, in no promised order |
| SqliteDatasource.SqliteDatasource.StoreBlock | storage/src/datasources/sqlite.rs:417-435 | Upsert by height that keeps `is_final`; fails without effect if another height holds the hash |
| SqliteDatasource.SqliteDatasource.GetBlockHash | storage/src/datasources/sqlite.rs:437-479 | The main-chain hash, the empty hash for a missing block 0, an error below 0 |
| SqliteDatasource.SqliteDatasource.GetLatestBlock | storage/src/datasources/sqlite.rs:162-178 | The highest main-chain height, 0 if there is none |
| SqliteDatasource.SqliteDatasource.MarkBlocksAsFinal | storage/src/datasources/sqlite.rs:481-494 | Flags every block up to the threshold and nothing else |
| SqliteDatasource.SqliteDatasource.MarkBlocksAfterHeightNotMainChain | storage/src/datasources/sqlite.rs:496-509 | Clears the flag above the height and nothing else |
| SqliteDatasource.SqliteDatasource.RevertUtxosAfterHeight | storage/src/datasources/sqlite.rs:511-541 | Unspend, then delete: together the revert function whose exactness is proved above |
| CsvDatasource.CsvDatasource.ProcessBlockUtxos | storage/src/datasources/csv.rs:139-203 | Inserts, block entry, marks, latest block; what was written before a rejected update stays, and that update's error is reported |
| CsvDatasource.CsvDatasource.InsertNew | storage/src/datasources/csv.rs:148-170 | The first loop: entries overwritten and grouped up to the first unacceptable update, which is reported |
| CsvDatasource.GroupHolds | storage/src/datasources/csv.rs:166-169 | Each address gets exactly its own outputs of the block, in their order |
| CsvDatasource.CsvDatasource.MarkExisting | storage/src/datasources/csv.rs:177-197 | The second loop: entries marked only where they exist, up to the first unacceptable update, which is reported |
| CsvDatasource.CsvDatasource.StoreBlock | storage/src/datasources/csv.rs:304-318 | Hash, timestamp and main-chain membership of one height |
| CsvDatasource.CsvDatasource.GetBlockHash | storage/src/datasources/csv.rs:320-329 | The hash of a main-chain height |
| CsvDatasource.CsvDatasource.MarkBlocksAsFinal | storage/src/datasources/csv.rs:331-337 | Heights 0 to the threshold become final |
| CsvDatasource.CsvDatasource.MarkBlocksAfterHeightNotMainChain | storage/src/datasources/csv.rs:339-346 | Exactly the main-chain heights up to the given one stay |
| CsvDatasource.CsvDatasource.RevertUtxosAfterHeight | storage/src/datasources/csv.rs:348-379 | Every bucket is reverted in place, later block entries go, the latest block is the height |
| CsvDatasource.CsvDatasource.GetSpendableUtxosAtHeight | storage/src/datasources/csv.rs:221-257 | The guards, then each spendable entry of the bucket once |
| StorageLaws.FinalIff | storage/src/network/socket.rs:71-137 | Over every run of messages whatsoever, a block is final exactly when some finality message reached it while it was stored: storing it again, reverting or later messages never clear the flag |
| StorageLaws.ReceivedRow | storage/src/datasources/sqlite.rs:417-435 | A received block puts hash and time on the main chain at its height and keeps the final flag there, unless another height holds its hash: then no row changes |
| StorageLaws.RevertedRow | storage/src/database.rs:217-252 | A reorg event only takes blocks off the main chain; hash, time and final flag of every row stay |
| StorageLaws.RevertedTables | storage/src/database.rs:217-252 | From any state, a reorg event changes nothing while the latest block is 0; otherwise the exact height it goes to, the rows that stay, the spends that are undone and the blocks that leave the main chain |
| StorageLaws.FlaggedRow | storage/src/database.rs:200-215 | A finality message above 5 flags exactly the rows at least five below it and changes nothing else |
| StorageLaws.HashesStayUnique | storage/src/datasources/sqlite.rs:417-435 | Over every run of messages no two heights hold one hash |
| StorageLaws.RejectedBlock | storage/src/database.rs:35-66 | One faulty update or a negative height, and a block changes no row of the table |
| StorageLaws.CsvRejectedBlock | storage/src/network/socket.rs:71-94 | Over CSV such a block leaves its hash and nothing else |
| StorageLaws.RowsStayAcceptable | storage/src/database.rs:35-66 | Over every run of messages no negative amount and no empty address is stored |
| StorageLaws.CsvFinalIff | storage/src/datasources/csv.rs:331-337 | The CSV backend flags exactly the heights from 0 on that some finality message reached, stored or not |
| StorageLaws.FinalInBoth | storage/src/datasources/csv.rs:331-337 | What SQLite calls final, CSV calls final |
| StorageLaws.FinalInCsvOnly | storage/src/datasources/csv.rs:331-337 | The converse fails for a finality message ahead of its block |
| Database.CollectChanges | storage/src/database.rs:35-66 | Validation and sorting: spends and creations in their order, or the error of the first faulty update, a negative amount before an empty address |
| Database.SafeRevertHeight | storage/src/database.rs:218-229 | The clamp of a revert request |
| Database.UtxoDatabase.ProcessBlock | storage/src/database.rs:32-72 | The block is applied as a whole or rejected as a whole, with the first offending update's error |
| Database.UtxoDatabase.SelectUtxosForAmount | storage/src/database.rs:92-144 | The guards in order, then the greedy selection from some listing of the spendable rows |
| Database.UtxoDatabase.UpdateFinalityStatus | storage/src/database.rs:200-215 | Flags up to `height - 5` when that is positive |
| Database.UtxoDatabase.RevertToHeight | storage/src/database.rs:217-252 | The clamped revert of both tables; nothing while the latest block is 0 |
| Database.UtxoDatabase.GetBlockHash | storage/src/database.rs:254-259 | The answer as the indexer reads it: every failure is the empty hash |
| Database.HandleSocketConnection | storage/src/network/socket.rs:39-140 | One message: the new state and the reply; a rejected block still leaves its hash and is acknowledged |
| Selection.TakeFromFront | storage/src/database.rs:122-132 | The accumulating loop takes a greedy prefix and its total |
| Selection.AccumulateOldestFirst | storage/src/database.rs:118-143 | Sort, accumulate, compare |
| Selection.SortIsStable | storage/src/database.rs:118-120 | The sort is by height, a permutation, and keeps the order within each height |
| Selection.StableSortIsUnique | storage/src/database.rs:118-120 | Only one list is a stable height sort of another, so nothing depends on how the library sorts |
| Selection.TakeIsShortestPrefix | storage/src/database.rs:122-132 | The greedy result is the shortest prefix that reaches the target, or the whole list |
| Selection.OldestFirstMeans | storage/src/database.rs:118-137 | A shortest prefix of a stable height sort is part of the input, leaves nothing older out and takes no coin too many |
| Selection.SelectFailsIff | storage/src/database.rs:134-143 | On a non-empty list selection fails exactly when the total is below the target, and reports that total |
| Selection.SelectIsOldestFirst | storage/src/database.rs:118-137 | Otherwise: the shortest prefix of the stable sort that reaches the target, a sub-multiset of the input, nothing left out is older, and the excess is less than the last output |
| Http.SpendableRoute | storage/src/network/http.rs:211-273 | Exactly the listed rows within the guards; the exact condition of each status |
| Http.SelectRoute | storage/src/network/http.rs:276-360 | Over every store that holds a chain: the exact condition of each status; an empty success for an address without outputs; otherwise the shortest oldest-first prefix reaching the target, part of the listed rows, with an excess below its last output; never an internal error |
| Http.StoredAmounts | storage/src/database.rs:49-57 | Since storage validates every update, no query of a store that holds a chain lists a negative amount |
| Api.FetchSelectedUtxos | indexer/src/api.rs:277-358 | The loop in enumeration order, with its early return and its refusals |
| Api.FetchSelectedUtxosDeterministic | indexer/src/api.rs:386-475 | The loop in text order, with its inner break and final check; for positive amounts the lexicographically least funded address pays with its oldest coins, or the request is refused because it has too little |
| Api.Collect | indexer/src/api.rs:336-344 | Outputs are pushed until the target is reached, with their total |
| Api.LeastFundedPays | indexer/src/api.rs:393-475 | For positive amounts the deterministic selection is the oldest coins of the lexicographically least watched address with anything spendable, or fails because that address has too little |
| Api.LoopsDiffer | indexer/src/api.rs:277-475 | The two loops agree on every request for more than is already selected; on requests for nothing one succeeds with nothing and the other is refused |
| Api.GatherIsChosen | indexer/src/api.rs:277-358 | Amounts are never pooled: the first address with anything spendable pays everything or the request is refused |
| Api.FetchSucceedsIff | indexer/src/api.rs:277-358 | Success exactly when the first funded address alone covers the amount, and then its oldest-first selection |
| Api.EnumerationDoesNotMatter | indexer/src/api.rs:393-398 | The deterministic variant gives one answer per watch set, however the set is enumerated |
| Addresses.TextLeIsLexicographic | indexer/src/api.rs:396-396 | The order of the addresses is the lexicographic one |
| Addresses.SortIgnoresEnumeration | indexer/src/api.rs:393-398 | Sorting by text forgets the enumeration order |
| Api.SelectUtxosHandler | indexer/src/api.rs:213-275 | Pools all addresses, skipping refused ones, and takes the shortest oldest-first prefix of the pool |
| Api.PoolIsUnion | indexer/src/api.rs:229-247 | The pool is put together address by address, from exactly the rows that storage lists for the addresses it accepts |
| Api.PoolSucceedsIff | indexer/src/api.rs:249-268 | The pooling route succeeds exactly when everything together is enough |
| Api.FetchImpliesPool | indexer/src/api.rs:213-358 | Whatever the per-address selection pays, the pooling route pays |
| Api.PoolButNotFetchIff | indexer/src/api.rs:213-358 | The pooling route pays and the per-address selection refuses exactly when the first funded address has too little and all together have enough |
| TwoCoins.PoolDoesNotImplyFetch | indexer/src/api.rs:213-358 | The converse fails in a store that holds a chain of one block: two addresses with one coin each cannot pay two coins |
| Transactions.BuildUnsignedTransaction | indexer/src/api.rs:493-560 | The loop, guards and change rule of the builder |
| Transactions.BuiltPaysRequest | indexer/src/api.rs:518-559 | A built transaction spends exactly the selection, pays the amount to the destination first and what is left over the fee to the first selected address, and loses nothing |
| Transactions.BuildFailsIff | indexer/src/api.rs:502-516 | Too little selected, or else a destination that does not parse; nothing else fails |
| Transactions.CastsWrap | indexer/src/api.rs:519-546 | The casts keep non-negative numbers in range and turn negative ones into their two's complement |
| Transactions.InputsSpendTheSelection | indexer/src/api.rs:518-532 | With parseable txids, one input per selected output, in order |
| Transactions.ConservedIff | indexer/src/api.rs:540-634 | A built transaction pays out what it takes in less the fee, and the signing service is told the same outputs, exactly when no change is due or the first selected address parses |
| Transactions.ValueIsConserved | indexer/src/api.rs:581-634 | From request to transaction: a successful selection always builds; the transaction spends exactly the selected outputs, pays the amount to the destination and the rest less the fee to the first selected address, and its change is at least 0 and below its last output; the signing service is told the same |
| Prepare.PreimageIsInjective | indexer/src/api.rs:360-367 | Different requests have different cache-key preimages |
| Prepare.PreimageFields | indexer/src/api.rs:360-367 | Four bytes of height, eight of amount, eight of fee, each the number modulo its width, then the destination |
| Prepare.LittleEndianValue | indexer/src/api.rs:362-364 | The bytes stand, least significant first, for the number modulo their width |
| Prepare.LittleEndianInjective | indexer/src/api.rs:362-364 | Fixed-width two's-complement bytes determine the number |
| Prepare.PrepareHandler.Prepare | indexer/src/api.rs:712-792 | A remembered answer is returned; otherwise the request is worked out, only success is remembered, and the txid names a transaction that pays the amount to the destination from the oldest coins of the least funded address, conserving value |
| Prepare.FreshNamesPayment | indexer/src/api.rs:738-769 | The txid of a request that is worked out names a transaction that pays exactly that request |
| Prepare.FreshFailsIff | indexer/src/api.rs:738-766 | Such a request fails only for want of a parseable destination or of funds at the least funded address |
| Prepare.RepeatsAgree | indexer/src/api.rs:722-780 | Every repetition of a request that succeeded is answered with the same txid, whatever happens to storage in between |
| Prepare.AnswersBelong | indexer/src/api.rs:722-780 | Without hash collisions in the run, every answer was worked out for that very request |
| Rpc.Demultiplex | indexer/src/indexer.rs:293-312 | Replies in any order, with errors, unknown ids and repetitions, are sorted back to exactly the answered items |
| Rpc.FetchInBatches | indexer/src/indexer.rs:271-364 | For any batch size, the batched fetch builds the map of answered items |
| Rpc.FetchOneByOne | indexer/src/indexer.rs:566-577 | So does the one-by-one fetch |
| Rpc.Fetch | indexer/src/indexer.rs:559-599 | Either client gives the same map; only a transport failure of the external one fails the fetch |
| TxCache.LruCache.Put | indexer/src/indexer.rs:664-667 | The key becomes the most recently used; nothing else changes, except that a full cache loses exactly its least recently used entry to a new key |
| TxCache.LruCache.Get | indexer/src/indexer.rs:647-649 | A lookup changes no entry and makes a found key the most recently used |
| Scan.ProcessTransactions | indexer/src/indexer.rs:622-717 | The scan equals one plain pass that asks the node directly, for any chunk size, cache capacity, eviction and consistent cache contents, and for either client |
| ScanLaws.ScanIsExact | indexer/src/indexer.rs:719-824 | The update list has one update for each watched output and each input spending a findable watched output, none besides, in block order, and every column of each is what the output, the input and the block call for |
| ScanLaws.UpdateCarriesOutput | indexer/src/indexer.rs:733-817 | Every update carries the value, script, script type, address and time of the output it names; a spend also the spending transaction and the input's key |
| Scan.ProcessChunks | indexer/src/indexer.rs:686-703 | Chunking does not change the update list |
| Scan.ProcessTransactionChunk | indexer/src/indexer.rs:719-824 | A chunk equals the plain pass over it; only position 0 of the block is the coinbase |
| Scan.ScanOutputs | indexer/src/indexer.rs:732-756 | Watched outputs by position |
| Scan.ScanInputs | indexer/src/indexer.rs:758-817 | At most one spend per input, from the transaction map first and the output map otherwise |
| Scan.LookUpBlock | indexer/src/indexer.rs:634-658 | After the lookup phase every input is cached, or its transaction and output are both asked for; nothing cached is asked for |
| Scan.PutFetched | indexer/src/indexer.rs:665-667 | Transactions put just before are not evicted while they fit |
| Scan.FillCache | indexer/src/indexer.rs:663-668 | Whatever is evicted, the cache keeps agreeing with the node and gains only fetched transactions; all of them, if they fit |
| Scan.MissingOutputs | indexer/src/indexer.rs:673-682 | Exactly the wanted outputs that the transactions at hand do not have |
| Scan.LookupsAgree | indexer/src/indexer.rs:670-684 | On every input of the block the collected maps find the same watched output as the node |
| Scan.NobodyWatched | indexer/src/indexer.rs:629-632 | The shortcut for an empty watch set skips no update |
| Pipeline.ScanIsWellFormed | indexer/src/indexer.rs:622-824 | The scan of a valid chain is a well-formed history, which is what the storage theorems assume |
| Pipeline.ConvergedStoreIsUtxoSet | indexer/src/indexer.rs:833-952 | From the node to the answer: after the cycles of the convergence theorem, against a node whose blocks scan as a valid chain, a query at any height lists exactly the chain's unspent outputs of the watched address, each with the output's own value and script |
| Pipeline.ListedRowIsOutput | storage/src/datasources/sqlite.rs:193-270 | Every row that a query of the scanned chain lists is an output of the chain, with that output's value, script, address, block and time |
| Pipeline.CsvListedEntryIsOutput | storage/src/datasources/csv.rs:221-257 | The same for CSV |
| Pipeline.SpendableIsUtxoSet | storage/src/datasources/sqlite.rs:193-270 | Over SQLite, for the scan of a valid chain: a query at any height lists exactly the outputs the chain has paid to the watched address and not spent, if no block creates and spends one watched output |
| Pipeline.CsvSpendableIsUtxoSet | storage/src/datasources/csv.rs:221-257 | The same over CSV, without that condition |

## Left out

- Protocol.AnswersAreFinal: excludes runs with a failed batch, because blocks of such a batch may be reorganised away before the retry and then survive in the table; hashes are covered without that exclusion by `Protocol.HashesAreFinal`.
- Protocol.HashesAreFinal: a run is one life of the indexer process; what a new start does to the store is stated in `Convergence` and `SqliteLaws`.
- Convergence.Converges: blocks that storage holds above the indexer's height are assumed to be the node's, and block 0 and everything below the window to agree, because the code repairs none of these.
- Indexer.BitcoinIndexer.constructor: the start height is fixed to 0 and the batch limit is at least 1.
- Indexer.BitcoinIndexer.GetBlockData: the node oracle gives a block already scanned; what the scan does is `Scan.ProcessTransactions`, and the two meet in `Pipeline.ConvergedStoreIsUtxoSet` through the histories of both.
- Indexer.BitcoinIndexer.Send: a message that was sent but never handled, or handled twice, is not modelled.
- Transactions.ValueIsConserved: totals are assumed to fit 63 bits; sums in the selection loops, and heights, are unbounded integers, so their overflow is not modelled.
- Scan.ProcessTransactions: the parallel map over a chunk is an ordered loop, the chunk size is a parameter instead of 500, and the casts of positions to 32 bits and of values to 64 bits are not modelled.
- Prepare.RepeatsAgree: handlers run one at a time, and the creation time and the file copy of the cache are not modelled.
- Prepare.AnswersBelong: SHA-256 is a function without collisions among the requests of the run, and UTF-8 decoding is an arbitrary function; the cache is empty at the start of the run.
- Backends.ServeFromCsv: the source has one service over a datasource interface; here its handler is written once for each of the two classes, with the validation, splitting and clamping shared.
- Http: the two query routes are functions of a view of storage; failures of storage itself, of the HTTP transport and of JSON parsing are not modelled.
- The key "txid:vout" is kept as a pair instead of one string.
- The watch set is fixed while a chain is scanned; an address watched late appears only as a spend of an unrecorded output.
- The SQL engine, connection pools, migrations and row parsing: tables are maps and each statement is one update of them.
- Bitcoin scripts, addresses and transaction encoding, script types and public keys: arbitrary functions.
- Sockets, serialization, retries and polling delays.
- Signed-transaction storage and its pagination, CSV file loading, lookups by key, API keys, enclave calls and configuration.
