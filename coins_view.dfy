/**
 * `CCoinsViewMemPool`: a coin view that answers from the memory pool first
 * and from the view beneath it otherwise.
 */
module CoinsView {
  import opened Types
  import opened MemPool

  /**
   * The height given to coins built from a pooled transaction. It is defined
   * in txmempool.h, which is not part of this model, as 0x7FFFFFFF.
   */
  const MEMPOOL_HEIGHT: int := 0x7FFF_FFFF

  /**
   * `CCoins(tx, MEMPOOL_HEIGHT)`: every output of `tx` unspent, at the pool's
   * height. The pool admits no coinbase or coinstake, so the flag is clear.
   */
  function CoinsFromTx(tx: Tx): (c: Coins)
    ensures |c.available| == tx.voutCount
    ensures forall n :: 0 <= n < |c.available| ==> c.available[n]
    ensures !c.isCoinBaseOrStake && c.height == MEMPOOL_HEIGHT
    ensures c.IsPruned() <==> tx.voutCount == 0
  {
    var c := Coins(seq(tx.voutCount, _ => true), false, MEMPOOL_HEIGHT);
    assert tx.voutCount > 0 ==> c.available[0];
    c
  }

  /**
   * `GetCoins`: the coins of the pooled transaction `txid` if there is one;
   * otherwise what the base view holds, unless it is pruned.
   */
  function GetCoins(mempool: TxMemPool, base: map<Hash, Coins>, txid: Hash): (r: Option<Coins>)
    reads mempool
    ensures txid in mempool.mapTx ==> r == Some(CoinsFromTx(mempool.mapTx[txid].tx))
    ensures txid !in mempool.mapTx ==> (r.Some? <==> txid in base && !base[txid].IsPruned())
    ensures txid !in mempool.mapTx && r.Some? ==> r.value == base[txid]
  {
    match mempool.Lookup(txid)
    case Some(tx) => Some(CoinsFromTx(tx))
    case None => if txid in base && !base[txid].IsPruned() then Some(base[txid]) else None
  }

  /** `HaveCoins`: the pool has the transaction or the base view has coins for it. */
  predicate HaveCoins(mempool: TxMemPool, base: map<Hash, Coins>, txid: Hash)
    reads mempool
  {
    mempool.Exists(txid) || txid in base
  }

  /**
   * A pooled transaction shadows the base view: whatever the base holds for
   * `txid`, `GetCoins` answers with the pooled transaction's full coins.
   */
  lemma PoolShadowsBase(mempool: TxMemPool, base: map<Hash, Coins>, base': map<Hash, Coins>, txid: Hash)
    requires txid in mempool.mapTx
    ensures GetCoins(mempool, base, txid) == GetCoins(mempool, base', txid)
    ensures GetCoins(mempool, base, txid).value.height == MEMPOOL_HEIGHT
  {
  }

  /** `GetCoins` never hands out pruned coins except for a pooled transaction without outputs. */
  lemma GetCoinsNotPruned(mempool: TxMemPool, base: map<Hash, Coins>, txid: Hash)
    requires GetCoins(mempool, base, txid).Some?
    ensures GetCoins(mempool, base, txid).value.IsPruned() <==>
      txid in mempool.mapTx && mempool.mapTx[txid].tx.voutCount == 0
  {
  }

  /** Whatever `GetCoins` finds, `HaveCoins` reports. */
  lemma GetCoinsImpliesHaveCoins(mempool: TxMemPool, base: map<Hash, Coins>, txid: Hash)
    ensures GetCoins(mempool, base, txid).Some? ==> HaveCoins(mempool, base, txid)
  {
  }

  /**
   * The converse fails on a pruned base entry: `HaveCoins` defers to the base
   * view, which has the entry, while `GetCoins` refuses it.
   */
  lemma HaveCoinsWithoutGetCoins(mempool: TxMemPool, base: map<Hash, Coins>, txid: Hash)
    requires txid !in mempool.mapTx && txid in base && base[txid].IsPruned()
    ensures HaveCoins(mempool, base, txid) && GetCoins(mempool, base, txid).None?
  {
  }
}
