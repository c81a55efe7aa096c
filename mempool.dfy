/**
 * `CTxMemPool`: the transaction index `mapTx`, the spend index `mapNextTx`,
 * the priority/fee overrides `mapDeltas` and the two counters, with the
 * operations that insert, query and remove transactions.
 */
module MemPool {
  import opened Types
  import opened PoolIndex
  import opened Conflicts
  import opened Sweeps

  /** The signed reading of a 32-bit pattern, as `int(...)` of an `unsigned int` does it. */
  function ToInt32(x: nat): (r: int)
    requires x < U32
    ensures -0x8000_0000 <= r < 0x8000_0000
    ensures r % U32 == x
  {
    if x < 0x8000_0000 then x else x - U32
  }

  /**
   * `int(nMemPoolHeight - coins->nHeight)`: the subtraction wraps modulo 2^32
   * and the difference is read back as a signed integer.
   */
  function CoinAge(poolHeight: nat, coinHeight: int): (age: int)
    ensures -0x8000_0000 <= age < 0x8000_0000
    ensures -0x8000_0000 <= poolHeight - coinHeight < 0x8000_0000 ==> age == poolHeight - coinHeight
  {
    ToInt32((poolHeight - coinHeight) % U32)
  }

  /**
   * An input that `removeCoinbaseSpends` objects to: its previous
   * transaction is not pooled and its coins are missing, or are a coinbase or
   * coinstake younger than the maturity depth.
   */
  predicate ImmatureInput(pool: Pool, coins: map<Hash, Coins>, op: OutPoint, poolHeight: nat, maturity: int)
  {
    && op.hash !in pool
    && (op.hash !in coins
        || (coins[op.hash].isCoinBaseOrStake && CoinAge(poolHeight, coins[op.hash].height) < maturity))
  }

  predicate SpendsImmatureCoin(pool: Pool, coins: map<Hash, Coins>, tx: Tx, poolHeight: nat, maturity: int)
  {
    exists i :: 0 <= i < |tx.vin| && ImmatureInput(pool, coins, tx.vin[i], poolHeight, maturity)
  }

  /** The override recorded for `hash`, or the zero pair that `mapDeltas[hash]` creates. */
  function DeltaOf(deltas: map<Hash, Delta>, hash: Hash): (d: Delta)
  {
    if hash in deltas then deltas[hash] else Delta(0.0, 0)
  }

  /** `mapDeltas` after `PrioritiseTransaction(hash, p, f)`. */
  function Prioritised(deltas: map<Hash, Delta>, hash: Hash, p: real, f: int): (r: map<Hash, Delta>)
    ensures r.Keys == deltas.Keys + {hash}
    ensures r[hash].priority == DeltaOf(deltas, hash).priority + p
    ensures r[hash].fee == DeltaOf(deltas, hash).fee + f
    ensures forall h :: h in deltas && h != hash ==> r[h] == deltas[h]
  {
    var d := DeltaOf(deltas, hash);
    deltas[hash := Delta(d.priority + p, d.fee + f)]
  }

  /** Two prioritisations of one hash accumulate: the override is the sum of both. */
  lemma PrioritiseAdditive(deltas: map<Hash, Delta>, hash: Hash, p1: real, f1: int, p2: real, f2: int)
    ensures DeltaOf(Prioritised(Prioritised(deltas, hash, p1, f1), hash, p2, f2), hash)
         == Delta(DeltaOf(deltas, hash).priority + p1 + p2, DeltaOf(deltas, hash).fee + f1 + f2)
  {
  }

  /** Prioritisations commute: the order of two calls does not matter. */
  lemma PrioritiseCommutes(deltas: map<Hash, Delta>, h1: Hash, p1: real, f1: int, h2: Hash, p2: real, f2: int)
    ensures Prioritised(Prioritised(deltas, h1, p1, f1), h2, p2, f2)
         == Prioritised(Prioritised(deltas, h2, p2, f2), h1, p1, f1)
  {
  }

  /** `CCoins::Spend(n)`: marks output `n` spent; an index out of range changes nothing. */
  function Spend(available: seq<bool>, n: nat): (r: seq<bool>)
    ensures |r| == |available|
    ensures forall k :: 0 <= k < |r| ==> r[k] == (available[k] && k != n)
  {
    if n < |available| then available[n := false] else available
  }

  /** The version a reader needs for files this code writes (0.12.00). */
  const FEE_ESTIMATES_VERSION_REQUIRED: int := 120000

  /** The two header fields of a fee-estimates file. */
  datatype FeeFileHeader = FeeFileHeader(versionRequired: int, versionThatWrote: int)

  /** The header `WriteFeeEstimates` puts in front of the estimator's data. */
  function FeeEstimatesHeader(clientVersion: int): (header: FeeFileHeader)
  {
    FeeFileHeader(FEE_ESTIMATES_VERSION_REQUIRED, clientVersion)
  }

  /** `ReadFeeEstimates` refuses a file that asks for a newer reader than this one. */
  predicate AcceptsFeeEstimates(header: FeeFileHeader, clientVersion: int)
  {
    !(header.versionRequired > clientVersion)
  }

  /**
   * A header written by any version is accepted by exactly the readers of
   * version 0.12.00 or later.
   */
  lemma FeeEstimatesHeaderAccepted(writer: int, reader: int)
    ensures AcceptsFeeEstimates(FeeEstimatesHeader(writer), reader) <==> reader >= 120000
  {
  }

  /**
   * `removed[k]` is, or spends an output of, a transaction of `pool0` that
   * spends an immature coin, or spends an output of a transaction removed
   * before it.
   */
  ghost predicate RemovedForImmaturityAt(pool0: Pool, coins: map<Hash, Coins>, poolHeight: nat, maturity: int,
                                         removed: seq<Tx>, k: nat)
    requires k < |removed|
  {
    || (exists h :: h in pool0 && SpendsImmatureCoin(pool0, coins, pool0[h].tx, poolHeight, maturity)
                  && (removed[k] == pool0[h].tx || Spends(removed[k], pool0[h].tx)))
    || exists j :: 0 <= j < k && Spends(removed[k], removed[j])
  }

  ghost predicate RemovedForImmaturity(pool0: Pool, coins: map<Hash, Coins>, poolHeight: nat, maturity: int, removed: seq<Tx>)
  {
    forall k :: 0 <= k < |removed| ==> RemovedForImmaturityAt(pool0, coins, poolHeight, maturity, removed, k)
  }

  /** Descent from the selected transactions is descent from immature spends. */
  lemma ImmatureDescent(pool0: Pool, coins: map<Hash, Coins>, poolHeight: nat, maturity: int, txs: seq<Tx>, removed: seq<Tx>)
    requires KeysAreHashes(pool0)
    requires forall t :: t in txs ==>
      exists h :: h in pool0 && pool0[h].tx == t && SpendsImmatureCoin(pool0, coins, t, poolHeight, maturity)
    requires forall k :: 0 <= k < |removed| ==> removed[k].hash in pool0 && pool0[removed[k].hash].tx == removed[k]
    requires DescendsFromAny(removed, txs)
    ensures RemovedForImmaturity(pool0, coins, poolHeight, maturity, removed)
  {
    forall k | 0 <= k < |removed|
      ensures RemovedForImmaturityAt(pool0, coins, poolHeight, maturity, removed, k)
    {
      if exists i :: 0 <= i < |txs| && (removed[k].hash == txs[i].hash || Spends(removed[k], txs[i])) {
        var i :| 0 <= i < |txs| && (removed[k].hash == txs[i].hash || Spends(removed[k], txs[i]));
        assert txs[i] in txs;
        var h :| h in pool0 && pool0[h].tx == txs[i] && SpendsImmatureCoin(pool0, coins, txs[i], poolHeight, maturity);
        if removed[k].hash == txs[i].hash {
          assert removed[k] == pool0[h].tx;
        }
        assert SpendsImmatureCoin(pool0, coins, pool0[h].tx, poolHeight, maturity)
            && (removed[k] == pool0[h].tx || Spends(removed[k], pool0[h].tx));
      }
    }
  }

  class TxMemPool {
    var mapTx: Pool
    var mapNextTx: SpendIndex
    var mapDeltas: map<Hash, Delta>
    /**
     * How many times the pool has been updated, counted without bound; the
     * source's `unsigned int` field holds this number modulo 2^32, which is
     * what `GetTransactionsUpdated` reads.
     */
    var nTransactionsUpdated: nat
    var totalTxSize: nat

    /**
     * The bookkeeping that `check` asserts: the index and the spend index
     * agree in both directions, and `totalTxSize` is the sum of entry sizes.
     */
    ghost predicate Valid()
      reads this
    {
      && Consistent(mapTx, mapNextTx)
      && totalTxSize == SumSizes(mapTx)
    }

    /**
     * An empty pool with no updates counted. The total starts at zero here;
     * the constructor in txmempool.cpp sets only the update count, and the
     * total is zero there only for a statically allocated pool.
     */
    constructor ()
      ensures Valid()
      ensures mapTx == map[] && mapNextTx == map[] && mapDeltas == map[]
      ensures nTransactionsUpdated == 0 && totalTxSize == 0
    {
      mapTx, mapNextTx, mapDeltas := map[], map[], map[];
      nTransactionsUpdated, totalTxSize := 0, 0;
    }

    /** `exists`: whether a transaction with this hash is pooled. */
    predicate Exists(hash: Hash)
      reads this
    {
      hash in mapTx
    }

    /**
     * Marks spent, in a copy of the coins of `hashTx`, every output that a
     * pooled transaction spends, and no other.
     */
    method PruneSpent(hashTx: Hash, coins: seq<bool>) returns (pruned: seq<bool>)
      ensures |pruned| == |coins|
      ensures forall n :: 0 <= n < |coins| ==> pruned[n] == (coins[n] && OutPoint(hashTx, n) !in mapNextTx)
    {
      pruned := coins;
      var todo := set op | op in mapNextTx && op.hash == hashTx;
      while todo != {}
        invariant forall op :: op in todo ==> op in mapNextTx && op.hash == hashTx
        invariant |pruned| == |coins|
        invariant forall n :: 0 <= n < |coins| ==>
          pruned[n] == (coins[n] && !(OutPoint(hashTx, n) in mapNextTx && OutPoint(hashTx, n) !in todo))
        decreases todo
      {
        var op :| op in todo;
        pruned := Spend(pruned, op.n);
        todo := todo - {op};
      }
    }

    /** `GetTransactionsUpdated`: the counter as the source's 32-bit field holds it. */
    function GetTransactionsUpdated(): (r: nat)
      reads this
      ensures r < U32
      ensures nTransactionsUpdated < U32 ==> r == nTransactionsUpdated
    {
      nTransactionsUpdated % U32
    }

    /** `AddTransactionsUpdated`: `n` more updates; the 32-bit reading wraps around. */
    method AddTransactionsUpdated(n: nat)
      requires n < U32
      modifies this`nTransactionsUpdated
      ensures nTransactionsUpdated == old(nTransactionsUpdated) + n
      ensures GetTransactionsUpdated() == AddU32(old(GetTransactionsUpdated()), n)
    {
      AddU32Mod(nTransactionsUpdated, n);
      nTransactionsUpdated := nTransactionsUpdated + n;
    }

    /**
     * Files `entry` under `hash` and records each of its inputs as spent by
     * it. The callers have already checked the transaction: its hash is new,
     * its inputs are distinct and no pooled transaction spends them.
     */
    method AddUnchecked(hash: Hash, entry: Entry)
      requires Valid()
      requires hash == entry.tx.hash && hash !in mapTx
      requires DistinctInputs(entry.tx.vin)
      requires forall i :: 0 <= i < |entry.tx.vin| ==> entry.tx.vin[i] !in mapNextTx
      modifies this`mapTx, this`mapNextTx, this`nTransactionsUpdated, this`totalTxSize
      ensures Valid()
      ensures mapTx == old(mapTx)[hash := entry]
      ensures mapNextTx.Keys == old(mapNextTx).Keys + InputSet(entry.tx.vin)
      ensures forall op :: op in old(mapNextTx) ==> mapNextTx[op] == old(mapNextTx)[op]
      ensures forall i :: 0 <= i < |entry.tx.vin| ==> mapNextTx[entry.tx.vin[i]] == InPoint(hash, i)
      ensures nTransactionsUpdated == old(nTransactionsUpdated) + 1
      ensures totalTxSize == old(totalTxSize) + entry.TxSize()
    {
      ghost var pool0, next0 := mapTx, mapNextTx;
      mapTx := mapTx[hash := entry];
      RecordInputs(hash, mapTx[hash].tx.vin);
      nTransactionsUpdated := nTransactionsUpdated + 1;
      totalTxSize := totalTxSize + entry.TxSize();
      InsertKeepsConsistent(pool0, next0, mapNextTx, hash, entry);
      SumSizesInsert(pool0, hash, entry);
    }

    /** The loop of `addUnchecked`: records input `i` of `vin` as spent by `InPoint(hash, i)`. */
    method RecordInputs(hash: Hash, vin: seq<OutPoint>)
      requires DistinctInputs(vin)
      requires forall i :: 0 <= i < |vin| ==> vin[i] !in mapNextTx
      modifies this`mapNextTx
      ensures mapNextTx.Keys == old(mapNextTx).Keys + InputSet(vin)
      ensures forall op :: op in old(mapNextTx) ==> mapNextTx[op] == old(mapNextTx)[op]
      ensures forall i :: 0 <= i < |vin| ==> mapNextTx[vin[i]] == InPoint(hash, i)
    {
      for i := 0 to |vin|
        invariant mapNextTx.Keys == old(mapNextTx).Keys + InputSet(vin[..i])
        invariant forall op :: op in old(mapNextTx) ==> mapNextTx[op] == old(mapNextTx)[op]
        invariant forall j :: 0 <= j < i ==> mapNextTx[vin[j]] == InPoint(hash, j)
      {
        assert InputSet(vin[..i + 1]) == InputSet(vin[..i]) + {vin[i]} by {
          assert forall j :: 0 <= j < i ==> vin[..i + 1][j] == vin[..i][j];
        }
        mapNextTx := mapNextTx[vin[i] := InPoint(hash, i)];
      }
      assert vin[..|vin|] == vin;
    }

    /** The loop of `remove` that erases the records of the inputs in `vin`. */
    method EraseInputs(vin: seq<OutPoint>)
      modifies this`mapNextTx
      ensures mapNextTx == old(mapNextTx) - InputSet(vin)
    {
      for i := 0 to |vin|
        invariant mapNextTx == old(mapNextTx) - InputSet(vin[..i])
      {
        assert InputSet(vin[..i + 1]) == InputSet(vin[..i]) + {vin[i]} by {
          assert forall j :: 0 <= j < i ==> vin[..i + 1][j] == vin[..i][j];
        }
        mapNextTx := mapNextTx - {vin[i]};
      }
      assert vin[..|vin|] == vin;
    }

    /** True exactly when no input of `tx` spends an output of a pooled transaction. */
    method HasNoInputsOf(tx: Tx) returns (b: bool)
      ensures b <==> forall i :: 0 <= i < |tx.vin| ==> tx.vin[i].hash !in mapTx
    {
      for i := 0 to |tx.vin|
        invariant forall j :: 0 <= j < i ==> tx.vin[j].hash !in mapTx
      {
        if Exists(tx.vin[i].hash) {
          return false;
        }
      }
      return true;
    }

    /** The spenders the spend index records for the outputs of `parent`. */
    method CollectSpenders(parent: Tx) returns (found: seq<Hash>)
      ensures ListsSpenders(mapNextTx, parent, found)
    {
      found := [];
      for i := 0 to parent.voutCount
        invariant forall n :: 0 <= n < i && OutPoint(parent.hash, n) in mapNextTx ==>
          mapNextTx[OutPoint(parent.hash, n)].spender in found
        invariant forall s :: s in found ==>
          exists n :: 0 <= n < i && OutPoint(parent.hash, n) in mapNextTx && mapNextTx[OutPoint(parent.hash, n)].spender == s
      {
        var op := OutPoint(parent.hash, i);
        if op !in mapNextTx {
          continue;
        }
        found := found + [mapNextTx[op].spender];
      }
    }

    /**
     * One step of `remove`: erases the records of the inputs of the pooled
     * transaction `hash`, then its entry, and lowers `totalTxSize` by its size.
     */
    method EraseEntry(hash: Hash) returns (tx: Tx)
      requires Valid() && hash in mapTx
      modifies this`mapTx, this`mapNextTx, this`totalTxSize, this`nTransactionsUpdated
      ensures Valid()
      ensures tx == old(mapTx)[hash].tx && tx.hash == hash
      ensures mapTx == old(mapTx) - {hash}
      ensures |mapTx.Keys| + 1 == |old(mapTx).Keys|
      ensures mapNextTx == old(mapNextTx) - InputSet(tx.vin)
      ensures SubPool(mapTx, mapNextTx, old(mapTx), old(mapNextTx))
      ensures totalTxSize + tx.size == old(totalTxSize)
      ensures nTransactionsUpdated == old(nTransactionsUpdated) + 1
    {
      ghost var pool0, next0 := mapTx, mapNextTx;
      tx := mapTx[hash].tx;
      EraseInputs(tx.vin);
      SumSizesErase(pool0, hash);
      totalTxSize := totalTxSize - mapTx[hash].TxSize();
      mapTx := mapTx - {hash};
      nTransactionsUpdated := nTransactionsUpdated + 1;
      assert mapTx.Keys == pool0.Keys - {hash};
      EraseKeepsConsistent(pool0, next0, hash);
    }

    /**
     * `remove`: erases the pooled transaction with `origTx`'s hash and, when
     * `recursive`, every pooled transaction that spends an output of a removed
     * one, transitively, through a breadth-first work queue. The recursive form
     * also clears the spenders of `origTx`'s own outputs when `origTx` itself
     * is not pooled. `removed` lists what was erased, in erasure order.
     */
    method Remove(origTx: Tx, recursive: bool) returns (removed: seq<Tx>)
      requires Valid()
      modifies this`mapTx, this`mapNextTx, this`totalTxSize, this`nTransactionsUpdated
      ensures Valid()
      ensures SubPool(mapTx, mapNextTx, old(mapTx), old(mapNextTx))
      ensures RemovedFrom(old(mapTx), mapTx, removed)
      ensures nTransactionsUpdated == old(nTransactionsUpdated) + |removed|
      ensures origTx.hash !in mapTx
      ensures forall t :: t in removed ==> t.hash !in mapTx
      ensures origTx.hash in old(mapTx) ==> removed != [] && removed[0] == old(mapTx)[origTx.hash].tx
      ensures !recursive ==> mapTx == old(mapTx) - {origTx.hash}
      ensures !recursive && origTx.hash in old(mapTx) ==>
        && mapNextTx == old(mapNextTx) - InputSet(old(mapTx)[origTx.hash].tx.vin)
        && totalTxSize + old(mapTx)[origTx.hash].TxSize() == old(totalTxSize)
      ensures !recursive && origTx.hash !in old(mapTx) ==>
        mapNextTx == old(mapNextTx) && totalTxSize == old(totalTxSize) && nTransactionsUpdated == old(nTransactionsUpdated)
      ensures !recursive ==> removed == (if origTx.hash in old(mapTx) then [old(mapTx)[origTx.hash].tx] else [])
      ensures recursive ==> forall t, h :: t in removed && h in mapTx ==> !Spends(mapTx[h].tx, t)
      ensures recursive && origTx.hash !in old(mapTx) ==> forall h :: h in mapTx ==> !Spends(mapTx[h].tx, origTx)
      ensures Descends(removed, origTx)
    {
      ghost var pool0, next0 := mapTx, mapNextTx;
      var children: seq<Hash> := [];
      if recursive && origTx.hash !in mapTx {
        children := CollectSpenders(origTx);
      }
      RemovingStart(mapTx, mapNextTx, origTx, recursive, children);
      var queue := [origTx.hash] + children;
      removed := RemoveQueued(pool0, next0, origTx, recursive, queue);
      RemovingDone(pool0, next0, mapTx, mapNextTx, origTx, recursive, removed);
      if !recursive {
        PlainRemoval(pool0, next0, mapTx, mapNextTx, origTx, removed);
        if origTx.hash in pool0 {
          SumSizesErase(pool0, origTx.hash);
        } else {
          assert mapTx == pool0;
        }
      }
    }

    /**
     * `removeConflicts`: for each input of `tx`, removes, with its
     * descendants, the pooled transaction other than `tx` that the spend
     * index records as spending the same outpoint.
     */
    method RemoveConflicts(tx: Tx) returns (removed: seq<Tx>)
      requires Valid()
      modifies this`mapTx, this`mapNextTx, this`totalTxSize, this`nTransactionsUpdated
      ensures Valid()
      ensures SubPool(mapTx, mapNextTx, old(mapTx), old(mapNextTx))
      ensures RemovedFrom(old(mapTx), mapTx, removed)
      ensures nTransactionsUpdated == old(nTransactionsUpdated) + |removed|
      ensures forall i :: 0 <= i < |tx.vin| ==> Unopposed(mapNextTx, tx, i)
      ensures forall i :: 0 <= i < |tx.vin| && tx.vin[i] in old(mapNextTx) && old(mapNextTx)[tx.vin[i]].spender != tx.hash ==>
        old(mapNextTx)[tx.vin[i]].spender !in mapTx
      ensures removed == [] <==> forall i :: 0 <= i < |tx.vin| ==> Unopposed(old(mapNextTx), tx, i)
      ensures removed == [] ==> mapTx == old(mapTx) && mapNextTx == old(mapNextTx) && totalTxSize == old(totalTxSize)
      ensures tx.hash in old(mapTx) && old(mapTx)[tx.hash].tx == tx ==> removed == []
      ensures forall t, h :: t in removed && h in mapTx ==> !Spends(mapTx[h].tx, t)
      ensures ConflictsDescend(removed, tx)
    {
      ghost var pool0, next0 := mapTx, mapNextTx;
      ResolvingStart(mapTx, mapNextTx, tx);
      removed := [];
      for i := 0 to |tx.vin|
        invariant Valid()
        invariant Resolving(pool0, next0, mapTx, mapNextTx, tx, i, removed)
        invariant nTransactionsUpdated == old(nTransactionsUpdated) + |removed|
      {
        if tx.vin[i] in mapNextTx && mapNextTx[tx.vin[i]].spender != tx.hash {
          var r := RemoveConflictAt(pool0, next0, tx, i, removed);
          removed := removed + r;
        } else {
          ResolvingSkip(pool0, next0, mapTx, mapNextTx, tx, i, removed);
        }
      }
      ResolvingDone(pool0, next0, mapTx, mapNextTx, tx, removed);
      if removed == [] {
        NothingRemoved(pool0, next0, mapTx, mapNextTx);
      }
      if tx.hash in pool0 && pool0[tx.hash].tx == tx {
        PooledUnopposed(pool0, next0, tx);
      }
    }

    /** The body of `removeConflicts`' loop for an input spent by another pooled transaction. */
    method RemoveConflictAt(ghost pool0: Pool, ghost next0: SpendIndex, tx: Tx, i: nat, ghost removed: seq<Tx>)
      returns (r: seq<Tx>)
      requires Valid()
      requires Resolving(pool0, next0, mapTx, mapNextTx, tx, i, removed)
      requires i < |tx.vin| && tx.vin[i] in mapNextTx && mapNextTx[tx.vin[i]].spender != tx.hash
      modifies this`mapTx, this`mapNextTx, this`totalTxSize, this`nTransactionsUpdated
      ensures Valid()
      ensures Resolving(pool0, next0, mapTx, mapNextTx, tx, i + 1, removed + r)
      ensures nTransactionsUpdated == old(nTransactionsUpdated) + |r|
    {
      ghost var pool, next := mapTx, mapNextTx;
      var conflict := mapTx[mapNextTx[tx.vin[i]].spender].tx;
      r := Remove(conflict, true);
      ResolvingRemove(pool0, next0, pool, next, mapTx, mapNextTx, tx, i, removed, r);
    }

    /** The loop of `remove`: erases queued hashes until the work queue is empty. */
    method RemoveQueued(ghost pool0: Pool, ghost next0: SpendIndex, ghost origTx: Tx, recursive: bool,
                        queue0: seq<Hash>) returns (removed: seq<Tx>)
      requires Valid()
      requires Removing(pool0, next0, mapTx, mapNextTx, origTx, recursive, queue0, [])
      modifies this`mapTx, this`mapNextTx, this`totalTxSize, this`nTransactionsUpdated
      ensures Valid()
      ensures Removing(pool0, next0, mapTx, mapNextTx, origTx, recursive, [], removed)
      ensures nTransactionsUpdated == old(nTransactionsUpdated) + |removed|
    {
      var queue := queue0;
      removed := [];
      while queue != []
        invariant Valid()
        invariant Removing(pool0, next0, mapTx, mapNextTx, origTx, recursive, queue, removed)
        invariant nTransactionsUpdated == old(nTransactionsUpdated) + |removed|
        decreases |mapTx.Keys|, |queue|
      {
        if queue[0] !in mapTx {
          RemovingSkip(pool0, next0, mapTx, mapNextTx, origTx, recursive, queue, removed);
          queue := queue[1..];
        } else {
          var tx, children := EraseHead(pool0, next0, origTx, recursive, queue, removed);
          queue, removed := queue[1..] + children, removed + [tx];
        }
      }
    }

    /**
     * The body of `remove`'s loop for a queued hash that is pooled: queues the
     * spenders of its outputs (the recursive form only), then erases it.
     */
    method EraseHead(ghost pool0: Pool, ghost next0: SpendIndex, ghost origTx: Tx, recursive: bool,
                     queue: seq<Hash>, ghost removed: seq<Tx>) returns (tx: Tx, children: seq<Hash>)
      requires Valid()
      requires Removing(pool0, next0, mapTx, mapNextTx, origTx, recursive, queue, removed)
      requires queue != [] && queue[0] in mapTx
      modifies this`mapTx, this`mapNextTx, this`totalTxSize, this`nTransactionsUpdated
      ensures Valid()
      ensures Removing(pool0, next0, mapTx, mapNextTx, origTx, recursive, queue[1..] + children, removed + [tx])
      ensures |mapTx.Keys| + 1 == |old(mapTx).Keys|
      ensures nTransactionsUpdated == old(nTransactionsUpdated) + 1
    {
      children := [];
      if recursive {
        children := CollectSpenders(mapTx[queue[0]].tx);
      }
      RemovingErase(pool0, next0, mapTx, mapNextTx, origTx, recursive, queue, removed, children);
      tx := EraseEntry(queue[0]);
    }

    /** `clear`: empties both indexes and counts one update; `mapDeltas` is kept. */
    method Clear()
      modifies this`mapTx, this`mapNextTx, this`totalTxSize, this`nTransactionsUpdated
      ensures Valid()
      ensures mapTx == map[] && mapNextTx == map[] && totalTxSize == 0
      ensures nTransactionsUpdated == old(nTransactionsUpdated) + 1
    {
      mapTx, mapNextTx := map[], map[];
      totalTxSize := 0;
      nTransactionsUpdated := nTransactionsUpdated + 1;
    }

    /** `queryHashes`: the hash of every pooled transaction, each once. */
    method QueryHashes() returns (vtxid: seq<Hash>)
      ensures forall h :: h in vtxid <==> h in mapTx
      ensures forall i, j :: 0 <= i < j < |vtxid| ==> vtxid[i] != vtxid[j]
      ensures |vtxid| == |mapTx.Keys|
    {
      vtxid := [];
      var todo := mapTx.Keys;
      while todo != {}
        invariant todo <= mapTx.Keys
        invariant forall h :: h in vtxid <==> h in mapTx && h !in todo
        invariant forall i, j :: 0 <= i < j < |vtxid| ==> vtxid[i] != vtxid[j]
        invariant |vtxid| + |todo| == |mapTx.Keys|
        decreases todo
      {
        var h :| h in todo;
        vtxid := vtxid + [h];
        todo := todo - {h};
      }
    }

    /** `lookup`: the pooled transaction filed under `hash`, if any. */
    function Lookup(hash: Hash): (r: Option<Tx>)
      reads this
      ensures r.Some? <==> hash in mapTx
      ensures r.Some? ==> r.value == mapTx[hash].tx
      ensures Valid() && r.Some? ==> r.value.hash == hash
    {
      if hash in mapTx then Some(mapTx[hash].tx) else None
    }

    /** `PrioritiseTransaction`: adds to the override of `hash`, creating it at zero first. */
    method PrioritiseTransaction(hash: Hash, priorityDelta: real, feeDelta: int)
      modifies this`mapDeltas
      ensures mapDeltas == Prioritised(old(mapDeltas), hash, priorityDelta, feeDelta)
    {
      mapDeltas := Prioritised(mapDeltas, hash, priorityDelta, feeDelta);
    }

    /** `ApplyDeltas`: adds the override of `hash`, if there is one, to the caller's values. */
    method ApplyDeltas(hash: Hash, priorityDelta: real, feeDelta: int) returns (priority: real, fee: int)
      ensures hash in mapDeltas ==> priority == priorityDelta + mapDeltas[hash].priority && fee == feeDelta + mapDeltas[hash].fee
      ensures hash !in mapDeltas ==> priority == priorityDelta && fee == feeDelta
      ensures priority == priorityDelta + DeltaOf(mapDeltas, hash).priority && fee == feeDelta + DeltaOf(mapDeltas, hash).fee
    {
      priority, fee := priorityDelta, feeDelta;
      if hash !in mapDeltas {
        return;
      }
      var deltas := mapDeltas[hash];
      priority := priority + deltas.priority;
      fee := fee + deltas.fee;
    }

    /** `ClearPrioritisation`: drops the override of `hash`. */
    method ClearPrioritisation(hash: Hash)
      modifies this`mapDeltas
      ensures mapDeltas == old(mapDeltas) - {hash}
    {
      mapDeltas := mapDeltas - {hash};
    }

    /** The inner loop of `removeCoinbaseSpends`: whether some input of `tx` spends an immature coin. */
    method HasImmatureInput(tx: Tx, coins: map<Hash, Coins>, poolHeight: nat, maturity: int) returns (b: bool)
      ensures b <==> SpendsImmatureCoin(mapTx, coins, tx, poolHeight, maturity)
    {
      for i := 0 to |tx.vin|
        invariant forall j :: 0 <= j < i ==> !ImmatureInput(mapTx, coins, tx.vin[j], poolHeight, maturity)
      {
        var prevout := tx.vin[i];
        if Exists(prevout.hash) {
          continue;
        }
        if prevout.hash !in coins
           || (coins[prevout.hash].isCoinBaseOrStake && CoinAge(poolHeight, coins[prevout.hash].height) < maturity)
        {
          return true;
        }
      }
      return false;
    }

    /** The outer loop of `removeCoinbaseSpends`: the pooled transactions that spend an immature coin. */
    method SelectImmatureSpends(coins: map<Hash, Coins>, poolHeight: nat, maturity: int) returns (txs: seq<Tx>)
      ensures forall t :: t in txs <==>
        exists h :: h in mapTx && mapTx[h].tx == t && SpendsImmatureCoin(mapTx, coins, t, poolHeight, maturity)
    {
      txs := [];
      var todo := mapTx.Keys;
      while todo != {}
        invariant todo <= mapTx.Keys
        invariant forall t :: t in txs <==>
          exists h :: h in mapTx && h !in todo && mapTx[h].tx == t && SpendsImmatureCoin(mapTx, coins, t, poolHeight, maturity)
        decreases todo
      {
        var h :| h in todo;
        var immature := HasImmatureInput(mapTx[h].tx, coins, poolHeight, maturity);
        if immature {
          txs := txs + [mapTx[h].tx];
        }
        todo := todo - {h};
      }
    }

    /**
     * `removeCoinbaseSpends`: removes, with their descendants, the pooled
     * transactions that spend a coinbase or coinstake output younger than
     * `maturity` at height `poolHeight`, or a coin the view does not have.
     * `removed` lists what was erased, which the source discards.
     */
    method RemoveCoinbaseSpends(coins: map<Hash, Coins>, poolHeight: nat, maturity: int) returns (removed: seq<Tx>)
      requires Valid()
      modifies this`mapTx, this`mapNextTx, this`totalTxSize, this`nTransactionsUpdated
      ensures Valid()
      ensures Swept(old(mapTx), old(mapNextTx), mapTx, mapNextTx, removed)
      ensures forall h :: h in old(mapTx) && SpendsImmatureCoin(old(mapTx), coins, old(mapTx)[h].tx, poolHeight, maturity) ==>
        h !in mapTx
      ensures RemovedForImmaturity(old(mapTx), coins, poolHeight, maturity, removed)
      ensures nTransactionsUpdated == old(nTransactionsUpdated) + |removed|
    {
      var txs := SelectImmatureSpends(coins, poolHeight, maturity);
      ghost var pool0, next0 := mapTx, mapNextTx;
      SweptStart(mapTx, mapNextTx);
      removed := [];
      for i := 0 to |txs|
        invariant Valid()
        invariant Swept(pool0, next0, mapTx, mapNextTx, removed)
        invariant DescendsFromAny(removed, txs)
        invariant forall j :: 0 <= j < i ==> txs[j].hash !in mapTx
        invariant nTransactionsUpdated == old(nTransactionsUpdated) + |removed|
      {
        var r := RemoveSelected(pool0, next0, txs, i, removed);
        removed := removed + r;
      }
      ImmatureDescent(pool0, coins, poolHeight, maturity, txs, removed);
      forall h | h in pool0 && SpendsImmatureCoin(pool0, coins, pool0[h].tx, poolHeight, maturity)
        ensures h !in mapTx
      {
        var k :| 0 <= k < |txs| && txs[k] == pool0[h].tx;
      }
    }

    /** The body of `removeCoinbaseSpends`' second loop: the recursive `remove` of `txs[i]`. */
    method RemoveSelected(ghost pool0: Pool, ghost next0: SpendIndex, txs: seq<Tx>, i: nat, ghost removed: seq<Tx>)
      returns (r: seq<Tx>)
      requires Valid()
      requires Swept(pool0, next0, mapTx, mapNextTx, removed)
      requires DescendsFromAny(removed, txs)
      requires i < |txs| && forall j :: 0 <= j < i ==> txs[j].hash !in mapTx
      modifies this`mapTx, this`mapNextTx, this`totalTxSize, this`nTransactionsUpdated
      ensures Valid()
      ensures Swept(pool0, next0, mapTx, mapNextTx, removed + r)
      ensures DescendsFromAny(removed + r, txs)
      ensures forall j :: 0 <= j < i + 1 ==> txs[j].hash !in mapTx
      ensures nTransactionsUpdated == old(nTransactionsUpdated) + |r|
    {
      ghost var pool, next := mapTx, mapNextTx;
      r := Remove(txs[i], true);
      SweptAppend(pool0, next0, pool, next, mapTx, mapNextTx, removed, r);
      DescendsFromAnyAppend(removed, r, txs, i);
    }

    /** The first loop of `removeForBlock`: the pooled entries of the block's transactions. */
    method SnapshotEntries(vtx: seq<Tx>) returns (entries: seq<Entry>)
      ensures entries == PooledEntries(mapTx, vtx)
    {
      entries := [];
      for i := 0 to |vtx|
        invariant entries == PooledEntries(mapTx, vtx[..i])
      {
        assert vtx[..i + 1][..i] == vtx[..i];
        if Exists(vtx[i].hash) {
          entries := entries + [mapTx[vtx[i].hash]];
        }
      }
      assert vtx[..|vtx|] == vtx;
    }

    /**
     * `removeForBlock`: for each transaction of a connected block, removes it
     * (without descendants), removes what conflicts with it (with
     * descendants) and drops its override. `confirmed` holds the entries the
     * block confirms, as they were pooled; `conflicts` lists the removed
     * conflicts and `erased` everything erased.
     */
    method RemoveForBlock(vtx: seq<Tx>) returns (conflicts: seq<Tx>, confirmed: seq<Entry>, ghost erased: seq<Tx>)
      requires Valid()
      modifies this`mapTx, this`mapNextTx, this`totalTxSize, this`nTransactionsUpdated, this`mapDeltas
      ensures Valid()
      ensures confirmed == PooledEntries(old(mapTx), vtx)
      ensures SubPool(mapTx, mapNextTx, old(mapTx), old(mapNextTx))
      ensures mapTx.Keys == old(mapTx).Keys - Hashes(vtx) - Hashes(conflicts)
      ensures forall k :: 0 <= k < |vtx| ==> vtx[k].hash !in mapTx && vtx[k].hash !in mapDeltas
      ensures forall k, j :: 0 <= k < |vtx| && 0 <= j < |vtx[k].vin| ==> Unopposed(mapNextTx, vtx[k], j)
      ensures forall t :: t in conflicts ==> t.hash in old(mapTx) && old(mapTx)[t.hash].tx == t
      ensures forall t, h :: t in conflicts && h in mapTx ==> !Spends(mapTx[h].tx, t)
      ensures ConflictsDescendAny(conflicts, vtx)
      ensures mapDeltas == old(mapDeltas) - Hashes(vtx)
      ensures RemovedFrom(old(mapTx), mapTx, erased)
      ensures nTransactionsUpdated == old(nTransactionsUpdated) + |erased|
    {
      confirmed := SnapshotEntries(vtx);
      ghost var pool0, next0 := mapTx, mapNextTx;
      ConnectingStart(mapTx, mapNextTx, vtx);
      conflicts, erased := [], [];
      for i := 0 to |vtx|
        invariant Valid()
        invariant Connecting(pool0, next0, mapTx, mapNextTx, vtx, i, conflicts, erased)
        invariant mapDeltas == old(mapDeltas) - Hashes(vtx[..i])
        invariant nTransactionsUpdated == old(nTransactionsUpdated) + |erased|
      {
        var r, d := ConnectTx(pool0, next0, vtx, i, conflicts, erased);
        HashesPrefix(vtx, i);
        conflicts, erased := conflicts + r, erased + d + r;
      }
      ConnectingDone(pool0, next0, mapTx, mapNextTx, vtx, conflicts, erased);
      assert vtx[..|vtx|] == vtx;
    }

    /** The body of `removeForBlock`'s second loop, for block transaction `vtx[i]`. */
    method ConnectTx(ghost pool0: Pool, ghost next0: SpendIndex, vtx: seq<Tx>, i: nat,
                     ghost conflicts: seq<Tx>, ghost erased: seq<Tx>) returns (r: seq<Tx>, ghost d: seq<Tx>)
      requires Valid()
      requires Connecting(pool0, next0, mapTx, mapNextTx, vtx, i, conflicts, erased)
      requires i < |vtx|
      modifies this`mapTx, this`mapNextTx, this`totalTxSize, this`nTransactionsUpdated, this`mapDeltas
      ensures Valid()
      ensures Connecting(pool0, next0, mapTx, mapNextTx, vtx, i + 1, conflicts + r, erased + d + r)
      ensures mapDeltas == old(mapDeltas) - {vtx[i].hash}
      ensures nTransactionsUpdated == old(nTransactionsUpdated) + |d| + |r|
    {
      ghost var pool, next := mapTx, mapNextTx;
      d := Remove(vtx[i], false);
      ghost var pool1, next1 := mapTx, mapNextTx;
      r := RemoveConflicts(vtx[i]);
      ConnectingStep(pool0, next0, pool, next, pool1, next1, mapTx, mapNextTx, vtx, i, conflicts, erased, d, r);
      ClearPrioritisation(vtx[i].hash);
    }

    /**
     * The bookkeeping half of `check`: true exactly when every input of every
     * pooled transaction is recorded as spent by it, every record names a
     * pooled spender whose input spends the recorded outpoint, and
     * `totalTxSize` is the sum of the entry sizes.
     */
    method CheckBookkeeping() returns (ok: bool)
      ensures ok <==> Bookkept(mapTx, mapNextTx, totalTxSize)
      ensures Valid() ==> ok
    {
      var recorded, checkTotal := CheckInputsRecorded();
      var sound := CheckSpendersPooled();
      ok := recorded && sound && totalTxSize == checkTotal;
    }

    /** The first loop of `check`: the inputs of each pooled transaction, and the sum of sizes. */
    method CheckInputsRecorded() returns (ok: bool, checkTotal: nat)
      ensures ok <==> SpendIndexComplete(mapTx, mapNextTx)
      ensures ok ==> checkTotal == SumSizes(mapTx)
    {
      checkTotal := 0;
      var todo := mapTx.Keys;
      while todo != {}
        invariant todo <= mapTx.Keys
        invariant forall h, i :: h in mapTx && h !in todo && 0 <= i < |mapTx[h].tx.vin| ==>
          mapTx[h].tx.vin[i] in mapNextTx && mapNextTx[mapTx[h].tx.vin[i]] == InPoint(h, i)
        invariant checkTotal == SumOver(mapTx, mapTx.Keys - todo)
        decreases todo
      {
        var h :| h in todo;
        SumOverAdd(mapTx, mapTx.Keys - todo, h);
        assert mapTx.Keys - (todo - {h}) == (mapTx.Keys - todo) + {h};
        checkTotal := checkTotal + mapTx[h].TxSize();
        var inputsOk := InputsRecorded(h);
        if !inputsOk {
          return false, checkTotal;
        }
        todo := todo - {h};
      }
      assert mapTx.Keys - todo == mapTx.Keys;
      ok := true;
    }

    /** The inner loop of `check`: whether input `i` of the entry under `h` is recorded as `InPoint(h, i)`, for each `i`. */
    method InputsRecorded(h: Hash) returns (ok: bool)
      requires h in mapTx
      ensures ok <==> forall i :: 0 <= i < |mapTx[h].tx.vin| ==>
        mapTx[h].tx.vin[i] in mapNextTx && mapNextTx[mapTx[h].tx.vin[i]] == InPoint(h, i)
    {
      var vin := mapTx[h].tx.vin;
      for i := 0 to |vin|
        invariant forall j :: 0 <= j < i ==> vin[j] in mapNextTx && mapNextTx[vin[j]] == InPoint(h, j)
      {
        if vin[i] !in mapNextTx || mapNextTx[vin[i]] != InPoint(h, i) {
          return false;
        }
      }
      return true;
    }

    /** The last loop of `check`: every record names a pooled spender whose input spends the recorded outpoint. */
    method CheckSpendersPooled() returns (ok: bool)
      ensures ok <==> SpendIndexSound(mapTx, mapNextTx)
    {
      var todo := mapNextTx.Keys;
      while todo != {}
        invariant todo <= mapNextTx.Keys
        invariant forall op :: op in mapNextTx && op !in todo ==> SpentAt(mapTx, op, mapNextTx[op])
        decreases todo
      {
        var op :| op in todo;
        var ip := mapNextTx[op];
        if !(ip.spender in mapTx && ip.n < |mapTx[ip.spender].tx.vin| && mapTx[ip.spender].tx.vin[ip.n] == op) {
          return false;
        }
        todo := todo - {op};
      }
      return true;
    }
  }
}
