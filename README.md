# CTxMemPool in Dafny

This project models the memory pool of unconfirmed transactions from `src/txmempool.cpp` and proves properties of that model. It covers:

- **The transaction index** `mapTx`: hash to entry.
- **The spend index** `mapNextTx`: an outpoint to the pooled input that spends it.
- **The overrides** `mapDeltas` for priority and fee.
- **The two counters.** `nTransactionsUpdated` counts updates. `totalTxSize` is the sum of the entries' serialized sizes.
- **The operations on them:**
  - `addUnchecked` and the removals: `remove`, `removeConflicts`, `removeCoinbaseSpends`, `removeForBlock` and `clear`;
  - the queries: `exists`, `lookup`, `queryHashes`, `HasNoInputsOf` and `pruneSpent`;
  - the prioritisation calls;
  - the bookkeeping half of `check`;
  - the version header of the fee-estimates file.
- **`CCoinsViewMemPool`**, the coin view that answers from the pool before the view beneath it.
- **`CBlockAverage`**, two circular buffers of 100 fee and priority samples, with their sanity checks.

The pool is a class, `MemPool.TxMemPool`, whose methods update its map fields in place. Its invariant `Valid()` has three parts:

- Every entry is filed under its own transaction's hash (`PoolIndex.KeysAreHashes`).
- The two indexes agree in both directions. Every input of every pooled transaction is recorded as spent by that transaction at its own input index. Every record names a pooled spender whose input spends the recorded outpoint. (`PoolIndex.SpendIndexComplete` and `PoolIndex.SpendIndexSound`; the three together are `PoolIndex.Consistent`)
- `totalTxSize` is the sum of the entry sizes (`PoolIndex.SumSizes`).

Every state-changing method keeps `Valid()` and states its new state. `remove` is the centre of the model: a breadth-first work queue over spenders. Its loop invariant is the value-level predicate `PoolIndex.Removing`. These results about `remove` are proved:

- the plain form erases exactly the named entry;
- the recursive form leaves no pooled transaction spending an output of a removed one;
- every removed transaction descends from the root;
- `removed` lists exactly the erased entries, without repeats.

The other removals are built on `remove` exactly as the source composes them. Their loop states are `Conflicts.Resolving`, `Sweeps.Swept` and `Sweeps.Connecting`.

Some functions and predicates only compute. Their properties are stated by the lemmas and methods about them in the table below. They model these source lines:

- `MemPool.TxMemPool.Exists` is `exists`, used at src/txmempool.cpp:221.
- `CoinsView.HaveCoins` is `HaveCoins` at 567-570.
- `FeeSamples.FeeIsSane` and `FeeSamples.PriorityIsSane` are the single-value `AreSane` overloads at 96-103 and 112-115.
- `MemPool.FeeEstimatesHeader` is the header written at 495-496, and `MemPool.AcceptsFeeEstimates` is the test at 510-511.
- `MemPool.ImmatureInput` and `MemPool.SpendsImmatureCoin` are the input test of `removeCoinbaseSpends` at 309-316.
- `MemPool.DeltaOf` is the pair that `mapDeltas[hash]` finds or creates at zero at 526.

`remove`, `removeConflicts` and `removeForBlock` append to a list the caller passes by reference (lines 256, 326 and 345). The model returns a fresh list instead: the caller's list followed by the returned one is what the source leaves.

Modules:

- **`Types`**: hashes, outpoints, transactions, entries, coins, and the 32-bit addition.
- **`PoolIndex`**: the invariant on values, the size sums, and the state of `remove`.
- **`Conflicts`**: the state of `removeConflicts`.
- **`Sweeps`**: the states of `removeCoinbaseSpends` and `removeForBlock`.
- **`MemPool`**: the class and its module-level specification functions.
- **`CoinsView`**: the coin view.
- **`FeeSamples`**: the ring class `Ring`, modelled on `boost::circular_buffer` over a fixed array, and the class `BlockAverage` built on it.

Some inputs of the source are parameters of the model:

- the coins of the chain view, as a `map<Hash, Coins>`;
- the maturity depth `COINBASE_MATURITY`;
- the client version;
- the two sample vectors that `CBlockAverage::Write`/`Read` serialize.

## Model

| member | source | states |
|---|---|---|
| Types.AddU32 | src/txmempool.cpp:193-197 | adding to an `unsigned int` yields a value below 2^32, equal to the plain sum when it does not wrap |
| Types.AddU32Mod | src/txmempool.cpp:187-197 | a count kept without bound and read modulo 2^32 moves exactly as the wrapping 32-bit counter |
| PoolIndex.SumSizesInsert | src/txmempool.cpp:207-212 | filing a fresh entry raises the sum of sizes by exactly its size |
| PoolIndex.SumSizesErase | src/txmempool.cpp:293-294 | erasing an entry lowers the sum of sizes by exactly its size |
| PoolIndex.SumOverSplit | src/txmempool.cpp:387-389 | the summed total does not depend on which entry is split off first |
| PoolIndex.SumOverAdd | src/txmempool.cpp:389 | adding one more key to the keys summed adds that entry's size |
| PoolIndex.InsertKeepsConsistent | src/txmempool.cpp:207-210 | filing a fresh transaction and recording each of its distinct, unspent inputs keeps both directions of the spend index |
| PoolIndex.EraseKeepsConsistent | src/txmempool.cpp:289-294 | erasing an entry with the records of its inputs keeps the invariant and drops exactly the records naming it |
| PoolIndex.SpenderSpends | src/txmempool.cpp:283-286 | a record found for an output of `parent` names a pooled transaction that spends an output of `parent` |
| PoolIndex.ListedSpendersSpend | src/txmempool.cpp:282-287 | every spender collected for a parent's outputs is pooled and spends that parent |
| PoolIndex.CoversAfterSkip | src/txmempool.cpp:276-279 | popping a hash that is not pooled keeps every recorded spender of a removed transaction queued |
| PoolIndex.CoversAfterErase | src/txmempool.cpp:280-294 | popping a pooled hash, queueing its spenders and erasing its input records keeps every recorded spender queued |
| PoolIndex.CoveredMeansClosed | src/txmempool.cpp:275 | once the queue is empty, no pooled transaction spends an output of a removed one |
| PoolIndex.DescendsAfterErase | src/txmempool.cpp:280-292 | the erased head and the spenders it queues descend from the root |
| PoolIndex.RemovedFromStep | src/txmempool.cpp:292-294 | erasing one more pooled entry appends exactly it to the removal list |
| PoolIndex.RemovedFromCompose | src/txmempool.cpp:336 | two removals in a row remove exactly the concatenation of their lists |
| PoolIndex.RemovingStart | src/txmempool.cpp:261-274 | the initial queue (the root, plus the spenders of its outputs when it is not pooled) establishes the state of `remove` |
| PoolIndex.RemovingSkip | src/txmempool.cpp:276-279 | skipping a queued hash that is no longer pooled keeps the state of `remove` |
| PoolIndex.RemovingErase | src/txmempool.cpp:280-295 | one erasure keeps the state of `remove`, appending the erased transaction |
| PoolIndex.RemovingDone | src/txmempool.cpp:275-297 | at the end, the recursive form leaves nothing spending a removed transaction or a non-pooled root; the plain form removed exactly the root's entry |
| PoolIndex.PlainRemoval | src/txmempool.cpp:275-295 | the plain `remove` erases exactly the root's entry and the records of its inputs, and otherwise changes nothing |
| PoolIndex.PooledEntriesMembers | src/txmempool.cpp:348-353 | an entry is in the snapshot exactly when it is pooled under the hash of a block transaction |
| Conflicts.ResolvingStart | src/txmempool.cpp:331 | the state of `removeConflicts` holds before its first input |
| Conflicts.ResolvingSkip | src/txmempool.cpp:332-335 | an input that is not spent, or is spent by `tx` itself, is passed over |
| Conflicts.ResolvingRemove | src/txmempool.cpp:332-336 | removing the conflicting spender of an input with its descendants resolves that input and keeps the state |
| Conflicts.UnopposedAfterRemove | src/txmempool.cpp:336 | once the conflicting spender is gone, its input of `tx` is no longer recorded under another hash |
| Conflicts.ClosedAfterRemove | src/txmempool.cpp:336 | a later removal keeps earlier removals closed: nothing left spends them |
| Conflicts.ConflictsDescendAppend | src/txmempool.cpp:334-336 | what one conflict's removal reports conflicts with `tx` or spends a transaction removed before it |
| Conflicts.PooledUnopposed | src/txmempool.cpp:335 | for a transaction that is itself pooled, every input is recorded as its own, so there is no conflict |
| Conflicts.ResolvingDone | src/txmempool.cpp:331-339 | every other spender of an input of `tx` is gone, and nothing is removed exactly when there was no such spender |
| Sweeps.HashesAppend | src/txmempool.cpp:336 | the hashes of a concatenated removal list are the union of both parts' hashes |
| Sweeps.DescendsFromAnyAppend | src/txmempool.cpp:320-323 | appending what a recursive `remove` of one selected transaction reports keeps descent from the selection |
| Sweeps.SweptStart | src/txmempool.cpp:320 | the sweep state holds before any removal |
| Sweeps.SweptAppend | src/txmempool.cpp:320-323 | one more recursive removal keeps the sweep: nothing left spends anything removed |
| Sweeps.ConflictsDescendAnyAppend | src/txmempool.cpp:358 | appending one block transaction's conflicts keeps their descent from conflicts with the block |
| Sweeps.ConnectingStart | src/txmempool.cpp:355 | the state of `removeForBlock` holds before its first transaction |
| Sweeps.ConnectingStep | src/txmempool.cpp:355-360 | the plain `remove` and then `removeConflicts` of one block transaction advance the state of `removeForBlock` |
| Sweeps.ConnectingKeys | src/txmempool.cpp:357-358 | after one more block transaction, exactly the block hashes so far and the conflicts are missing |
| Sweeps.ConnectingUnopposed | src/txmempool.cpp:358 | the inputs of the block transactions so far stay unopposed |
| Sweeps.ConnectingConflicts | src/txmempool.cpp:358 | every conflict was pooled as listed, and nothing left spends one |
| Sweeps.ConnectingDone | src/txmempool.cpp:355-360 | after the block, the pool lost exactly the block hashes and the conflicts, and every block input is unopposed |
| MemPool.ToInt32 | src/txmempool.cpp:314 | `int(...)` of an `unsigned int`: a signed 32-bit value congruent to the input modulo 2^32 |
| MemPool.CoinAge | src/txmempool.cpp:314 | the wrapped height difference, read back as signed, equals the true difference whenever that fits in 32 bits |
| MemPool.Prioritised | src/txmempool.cpp:526-528 | the override of `hash` gains both deltas from zero or from its old value, and no other override changes |
| MemPool.PrioritiseAdditive | src/txmempool.cpp:526-528 | two prioritisations of one hash add up |
| MemPool.PrioritiseCommutes | src/txmempool.cpp:526-528 | prioritisations in either order give the same overrides |
| MemPool.Spend | src/txmempool.cpp:182 | marks exactly output `n` spent and keeps the length |
| MemPool.FeeEstimatesHeaderAccepted | src/txmempool.cpp:510-511 | a header written with version 120000 required is accepted exactly by readers of version 120000 or later |
| MemPool.ImmatureDescent | src/txmempool.cpp:305-323 | descent from the selected transactions is descent from pooled transactions that spend an immature coin |
| MemPool.TxMemPool.constructor | src/txmempool.cpp:153-167 | an empty, valid pool with no updates counted, as line 153 sets; the zero total is the model's choice (see "## Left out") |
| MemPool.TxMemPool.PruneSpent | src/txmempool.cpp:174-185 | marks spent exactly those outputs of `hashTx` that the spend index records |
| MemPool.TxMemPool.GetTransactionsUpdated | src/txmempool.cpp:187-191 | the 32-bit reading of the update count, equal to the count while it fits |
| MemPool.TxMemPool.AddTransactionsUpdated | src/txmempool.cpp:193-197 | the count grows by `n` and its 32-bit reading wraps as `+=` on `unsigned int` does |
| MemPool.TxMemPool.AddUnchecked | src/txmempool.cpp:200-216 | files the entry, records each input as spent by it at its index, keeps every other record, counts one update, adds its size, keeps `Valid` |
| MemPool.TxMemPool.RecordInputs | src/txmempool.cpp:209-210 | records input `i` as `InPoint(hash, i)` for each `i` and keeps every other record |
| MemPool.TxMemPool.EraseInputs | src/txmempool.cpp:289-290 | drops exactly the records of the given inputs |
| MemPool.TxMemPool.HasNoInputsOf | src/txmempool.cpp:218-224 | true exactly when no input spends an output of a pooled transaction |
| MemPool.TxMemPool.CollectSpenders | src/txmempool.cpp:282-287 | lists exactly the recorded spenders of the parent's outputs |
| MemPool.TxMemPool.EraseEntry | src/txmempool.cpp:289-295 | erases an entry and its input records, lowers the total by its size, counts one update, keeps `Valid` |
| MemPool.TxMemPool.Remove | src/txmempool.cpp:256-299 | see `remove` above: exact removal list, closure and descent in the recursive form, exactly one entry in the plain form, one update per erasure |
| MemPool.TxMemPool.RemoveQueued | src/txmempool.cpp:275-297 | runs the work queue to empty, keeping the state of `remove` and counting one update per erasure |
| MemPool.TxMemPool.EraseHead | src/txmempool.cpp:280-295 | erases the pooled head of the queue and queues its spenders, keeping the state of `remove` |
| MemPool.TxMemPool.RemoveConflicts | src/txmempool.cpp:326-340 | afterwards no input of `tx` is recorded under another hash; every such spender and its descendants are gone; nothing changes exactly when there was no conflict, in particular for a pooled `tx` |
| MemPool.TxMemPool.RemoveConflictAt | src/txmempool.cpp:332-337 | removing one input's conflicting spender advances the state of `removeConflicts` |
| MemPool.TxMemPool.Clear | src/txmempool.cpp:365-372 | both indexes are empty, the total is zero, one update is counted, and `mapDeltas` is kept |
| MemPool.TxMemPool.QueryHashes | src/txmempool.cpp:451-459 | every pooled hash exactly once |
| MemPool.TxMemPool.Lookup | src/txmempool.cpp:461-468 | finds a transaction exactly when its hash is pooled, and then the one filed under it |
| MemPool.TxMemPool.PrioritiseTransaction | src/txmempool.cpp:522-531 | the overrides become `Prioritised` of the old ones |
| MemPool.TxMemPool.ApplyDeltas | src/txmempool.cpp:533-542 | adds the recorded override to the caller's values, or leaves them alone when there is none |
| MemPool.TxMemPool.ClearPrioritisation | src/txmempool.cpp:544-548 | drops exactly the override of `hash` |
| MemPool.TxMemPool.HasImmatureInput | src/txmempool.cpp:308-317 | true exactly when some input's coin is missing, or is a coinbase or coinstake younger than the maturity depth, and the input is not pooled |
| MemPool.TxMemPool.SelectImmatureSpends | src/txmempool.cpp:305-319 | selects exactly the pooled transactions that spend an immature coin |
| MemPool.TxMemPool.RemoveCoinbaseSpends | src/txmempool.cpp:301-324 | every pooled transaction that spent an immature coin is gone, everything removed descends from one, nothing left spends a removed one, `Valid` is kept |
| MemPool.TxMemPool.RemoveSelected | src/txmempool.cpp:320-323 | the recursive `remove` of one selected transaction keeps the sweep state |
| MemPool.TxMemPool.SnapshotEntries | src/txmempool.cpp:348-353 | the pooled entries of the block's transactions, in block order |
| MemPool.TxMemPool.RemoveForBlock | src/txmempool.cpp:345-362 | the pool loses exactly the block's hashes and their conflicts; no block input stays spent by another; every conflict was pooled and descends from a block conflict; the block's overrides are dropped; the snapshot is what was pooled |
| MemPool.TxMemPool.ConnectTx | src/txmempool.cpp:356-359 | one block transaction's removal, conflict removal and override drop advance the state of `removeForBlock` |
| MemPool.TxMemPool.CheckBookkeeping | src/txmempool.cpp:374-449 | true exactly when both directions of the spend index hold and the total matches; always true on a valid pool |
| MemPool.TxMemPool.CheckInputsRecorded | src/txmempool.cpp:387-410 | true exactly when every input of every entry is recorded as its own; its sum then equals the sum of sizes |
| MemPool.TxMemPool.InputsRecorded | src/txmempool.cpp:405-409 | true exactly when each input of the entry is recorded as `InPoint(h, i)` |
| MemPool.TxMemPool.CheckSpendersPooled | src/txmempool.cpp:438-446 | true exactly when every record names a pooled spender whose input spends the recorded outpoint |
| CoinsView.CoinsFromTx | src/txmempool.cpp:560 | every output available, not coinbase, at the pool's height; pruned exactly when there are no outputs |
| CoinsView.GetCoins | src/txmempool.cpp:553-565 | a pooled transaction's coins when it is pooled; otherwise the base view's coins exactly when they exist and are not pruned |
| CoinsView.PoolShadowsBase | src/txmempool.cpp:555-561 | for a pooled transaction, the answer does not depend on the base view |
| CoinsView.GetCoinsNotPruned | src/txmempool.cpp:564 | the coins handed out are pruned only for a pooled transaction without outputs |
| CoinsView.GetCoinsImpliesHaveCoins | src/txmempool.cpp:567-570 | whatever `GetCoins` finds, `HaveCoins` reports |
| CoinsView.HaveCoinsWithoutGetCoins | src/txmempool.cpp:564-569 | for a pruned base entry `HaveCoins` holds while `GetCoins` finds nothing |
| FeeSamples.PushBack | src/txmempool.cpp:67-70 | the newest sample is last, the length grows up to 100, and the result is the newest 100 of old and new |
| FeeSamples.PushAll | src/txmempool.cpp:138 | pushing a batch never exceeds the capacity |
| FeeSamples.PushBackNewest | src/txmempool.cpp:67-70 | pushing onto the newest 100 gives the newest 100 of the extended sequence |
| FeeSamples.PushAllKeepsNewest | src/txmempool.cpp:138 | inserting a batch at the end leaves the newest 100 of old and new samples |
| FeeSamples.ReadRestoresWritten | src/txmempool.cpp:125-146 | reading back at most 100 written samples into empty buffers restores them all |
| FeeSamples.Ring.constructor | src/txmempool.cpp:65 | an empty ring of capacity 100 |
| FeeSamples.Ring.Size | src/txmempool.cpp:77 | the number of samples (`FeeSamples`, `PrioritySamples`), at most 100 |
| FeeSamples.Ring.Push | src/txmempool.cpp:69 | the array ring holds `PushBack` of its old samples |
| FeeSamples.Ring.PushSeq | src/txmempool.cpp:138 | the array ring holds `PushAll` of its old samples and the batch |
| FeeSamples.Ring.ToSeq | src/txmempool.cpp:57-62 | the samples, oldest first |
| FeeSamples.FeesAreSane | src/txmempool.cpp:104-111 | true exactly when every fee rate is non-negative and at most 10000 times the relay minimum |
| FeeSamples.PrioritiesAreSane | src/txmempool.cpp:116-123 | true exactly when every priority is non-negative |
| FeeSamples.BlockAverage.constructor | src/txmempool.cpp:65 | both buffers empty |
| FeeSamples.BlockAverage.RecordFee | src/txmempool.cpp:67-70 | pushes the fee rate onto the fee buffer |
| FeeSamples.BlockAverage.RecordPriority | src/txmempool.cpp:72-75 | pushes the priority onto the priority buffer |
| FeeSamples.BlockAverage.GetFeeSamples | src/txmempool.cpp:77-83 | appends the fee samples, oldest first, and returns their number |
| FeeSamples.BlockAverage.GetPrioritySamples | src/txmempool.cpp:84-90 | appends the priority samples, oldest first, and returns their number |
| FeeSamples.BlockAverage.Write | src/txmempool.cpp:125-131 | both buffers' samples, fees first |
| FeeSamples.BlockAverage.Read | src/txmempool.cpp:133-150 | a batch with an insane fee fails and changes nothing; otherwise the fees are pushed; an insane priority then fails with the fees kept; otherwise both batches are pushed |

## Left out

- `CTxMemPoolEntry::GetPriority` computes on `double`; `GetMinFee` also calls `pow` and reads the clock. There is no floating-point model here. Priorities and priority deltas are `real`.
- `DynamicMemoryUsage` depends on allocator sizes, which have no model here.
- The CTxMemPoolEntry constructors become the `Entry` datatype. The serialized size is a field rather than computed from the transaction.
- `check` lines 383-437 are left out. They replay the pool's transactions against a copy of the coin view with `CheckInputs`/`UpdateCoins`, the script and consensus code that is not part of this model. The bookkeeping assertions are modelled. `fSanityCheck` gates the whole of `check` and the `assert(coins)` at line 313; both are left out.
- The policy estimator is not part of this model. `processTransaction`, `removeTx`, `processBlock` and the `estimateFee`/`estimatePriority` queries (lines 470-489) are left out. So are the estimator's own data in `WriteFeeEstimates`/`ReadFeeEstimates`. `RemoveForBlock` drops the `nBlockHeight` and `fCurrentEstimate` parameters and returns the snapshot it would hand to `processBlock` as `confirmed`.
- File streams and exceptions:
  - Of `WriteFeeEstimates`/`ReadFeeEstimates` only the version header and its acceptance test are modelled.
  - `CBlockAverage::Write`/`Read` take and return the two deserialized vectors.
  - A thrown exception becomes `FeeSamples.ReadOutcome`.
- `LOCK(cs)`, the logging calls and concurrency are left out. Each method runs atomically.
- `CCoins` is reduced to the availability of outputs, a coinbase-or-coinstake flag and a height. `CoinsView.CoinsFromTx` builds the coins of a pooled transaction that way, with the flag clear: the pool admits no coinbase or coinstake. Those coins treat every output of the transaction as unspent, so `CoinsView.GetCoinsNotPruned` (pruned only for a pooled transaction without outputs) is a fact about this reduction. The base view is a map, and its `HaveCoins` is modelled as "the map has an entry, pruned or not", which is what `CoinsView.HaveCoinsWithoutGetCoins` rests on.
- `CAmount` and `uint64_t` overflow are left out. Fees, fee deltas and `totalTxSize` are unbounded integers.
- Map iteration order: `QueryHashes`, `SelectImmatureSpends`, `PruneSpent` and the `check` loops take the keys in an order the model leaves open, where `std::map` goes in ascending order. Their results do not depend on that order, except the order of `QueryHashes`' list and of `SelectImmatureSpends`' selection.
- MemPool.TxMemPool.constructor starts `totalTxSize` at 0. The constructor at lines 153-167 does not initialise that field, so it is zero only for a pool in static storage, such as the global pool, or after `clear()` at line 370. The minimum relay fee that the constructor takes feeds only the estimator and `GetMinFee`. Both are left out, so the model takes no parameter.
- `MemPool.TxMemPool.AddUnchecked` requires what its callers check beforehand: the hash is the transaction's own and not yet pooled, and its inputs are distinct and not spent by a pooled transaction. The source does not check these itself.
- MemPool.TxMemPool.GetTransactionsUpdated: `nTransactionsUpdated` is a count without bound. The source's `unsigned int` field holds it modulo 2^32, which is what this function returns.
- `CInPoint` holds a pointer to the spending transaction. The model holds the spender's hash instead: in a valid pool, that hash files exactly that transaction.
- MemPool.TxMemPool.RemoveCoinbaseSpends returns the list of what it removed, which the source collects and discards.
- MemPool.TxMemPool.RemoveForBlock returns everything it erased only as a ghost value `erased`. That covers both the block's own transactions, which the source collects in `dummy` and discards, and the conflicts, which it hands back in `conflicts`, as the model does too.
- `src/qt/lsrtoken.h` is a GUI declaration with no bearing on the pool.
- `MEMPOOL_HEIGHT` is defined in txmempool.h, which is not part of this model. It is restated as 0x7FFFFFFF.
