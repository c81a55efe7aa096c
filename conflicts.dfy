/**
 * The progress of `removeConflicts(tx)`: walking the inputs of `tx` and
 * removing, with all their descendants, the pooled transactions other than
 * `tx` that spend the same outpoints.
 */
module Conflicts {
  import opened Types
  import opened PoolIndex

  /** `t` is not `tx` but spends an outpoint that an input of `tx` spends too. */
  ghost predicate ConflictsWith(t: Tx, tx: Tx)
  {
    && t.hash != tx.hash
    && exists i, j :: 0 <= i < |tx.vin| && 0 <= j < |t.vin| && t.vin[j] == tx.vin[i]
  }

  /** Every removed transaction conflicts with `tx` or spends an output of one removed before it. */
  ghost predicate ConflictsDescend(removed: seq<Tx>, tx: Tx)
  {
    forall k :: 0 <= k < |removed| ==>
      || ConflictsWith(removed[k], tx)
      || exists j :: 0 <= j < k && Spends(removed[k], removed[j])
  }

  /** Input `i` of `tx` is not recorded as spent by a transaction with another hash. */
  ghost predicate Unopposed(next: SpendIndex, tx: Tx, i: nat)
    requires i < |tx.vin|
  {
    tx.vin[i] in next ==> next[tx.vin[i]].spender == tx.hash
  }

  /**
   * The state of `removeConflicts(tx)` after its first `i` inputs, starting
   * from `pool0`/`next0`: what is left is a sub-pool, `removed` lists what is
   * gone, no pooled transaction spends an output of a removed one, the first
   * `i` inputs are unopposed, and everything removed descends from a conflict.
   */
  ghost predicate Resolving(pool0: Pool, next0: SpendIndex, pool: Pool, next: SpendIndex, tx: Tx, i: nat, removed: seq<Tx>)
  {
    && i <= |tx.vin|
    && Progress(pool0, next0, pool, next, removed)
    && (forall j :: 0 <= j < i ==> Unopposed(next, tx, j))
    && (forall t, h :: t in removed && h in pool ==> !Spends(pool[h].tx, t))
    && ConflictsDescend(removed, tx)
  }

  lemma ResolvingStart(pool: Pool, next: SpendIndex, tx: Tx)
    requires Consistent(pool, next)
    ensures Resolving(pool, next, pool, next, tx, 0, [])
  {
    assert Hashes([]) == {};
  }

  /** An input that is unopposed already is passed over. */
  lemma ResolvingSkip(pool0: Pool, next0: SpendIndex, pool: Pool, next: SpendIndex, tx: Tx, i: nat, removed: seq<Tx>)
    requires Resolving(pool0, next0, pool, next, tx, i, removed)
    requires i < |tx.vin| && Unopposed(next, tx, i)
    ensures Resolving(pool0, next0, pool, next, tx, i + 1, removed)
  {
  }

  /**
   * Removing the conflicting spender of input `i` together with its
   * descendants (`r`, as `remove` reports them) resolves that input.
   */
  lemma ResolvingRemove(pool0: Pool, next0: SpendIndex, pool: Pool, next: SpendIndex,
                        pool': Pool, next': SpendIndex, tx: Tx, i: nat, removed: seq<Tx>, r: seq<Tx>)
    requires Consistent(pool, next)
    requires Resolving(pool0, next0, pool, next, tx, i, removed)
    requires i < |tx.vin| && tx.vin[i] in next && next[tx.vin[i]].spender != tx.hash
    requires SubPool(pool', next', pool, next) && RemovedFrom(pool, pool', r)
    requires r != [] && r[0] == pool[next[tx.vin[i]].spender].tx
    requires forall t, h :: t in r && h in pool' ==> !Spends(pool'[h].tx, t)
    requires Descends(r, r[0])
    ensures Resolving(pool0, next0, pool', next', tx, i + 1, removed + r)
  {
    var c := next[tx.vin[i]].spender;
    assert c !in pool' by {
      assert r[0].hash == c;
    }
    assert Progress(pool0, next0, pool', next', removed + r) by {
      SubPoolTransitive(pool', next', pool, next, pool0, next0);
      RemovedFromCompose(pool0, pool, pool', removed, r, next0, next, next');
    }
    UnopposedAfterRemove(pool, next, pool', next', tx, i);
    ClosedAfterRemove(pool, pool', removed, r);
    ConflictsDescendAppend(pool, next, tx, i, removed, r);
  }

  /** Once the conflicting spender of input `i` is gone, the first `i + 1` inputs are unopposed. */
  lemma UnopposedAfterRemove(pool: Pool, next: SpendIndex, pool': Pool, next': SpendIndex, tx: Tx, i: nat)
    requires i < |tx.vin| && tx.vin[i] in next
    requires forall j :: 0 <= j < i ==> Unopposed(next, tx, j)
    requires SubPool(pool', next', pool, next)
    requires next[tx.vin[i]].spender !in pool'
    ensures forall j :: 0 <= j < i + 1 ==> Unopposed(next', tx, j)
  {
    forall j | 0 <= j < i + 1
      ensures Unopposed(next', tx, j)
    {
      if j < i {
        assert Unopposed(next, tx, j);
      }
    }
  }

  /** Removing more keeps the earlier removals closed: what is left only shrinks. */
  lemma ClosedAfterRemove(pool: Pool, pool': Pool, removed: seq<Tx>, r: seq<Tx>)
    requires forall h :: h in pool' ==> h in pool && pool'[h] == pool[h]
    requires forall t, h :: t in removed && h in pool ==> !Spends(pool[h].tx, t)
    requires forall t, h :: t in r && h in pool' ==> !Spends(pool'[h].tx, t)
    ensures forall t, h :: t in removed + r && h in pool' ==> !Spends(pool'[h].tx, t)
  {
    forall t, h | t in removed + r && h in pool'
      ensures !Spends(pool'[h].tx, t)
    {
      if t in removed {
        assert pool'[h] == pool[h];
      }
    }
  }

  /** Appending a conflict and its descendants, as `remove` reports them, keeps the descent. */
  lemma ConflictsDescendAppend(pool: Pool, next: SpendIndex, tx: Tx, i: nat, removed: seq<Tx>, r: seq<Tx>)
    requires Consistent(pool, next)
    requires i < |tx.vin| && tx.vin[i] in next && next[tx.vin[i]].spender != tx.hash
    requires ConflictsDescend(removed, tx)
    requires r != [] && r[0] == pool[next[tx.vin[i]].spender].tx
    requires forall j, k :: 0 <= j < k < |r| ==> r[j].hash != r[k].hash
    requires Descends(r, r[0])
    ensures ConflictsDescend(removed + r, tx)
  {
    var all := removed + r;
    var ip := next[tx.vin[i]];
    assert ConflictsWith(r[0], tx) by {
      assert r[0].vin[ip.n] == tx.vin[i];
    }
    forall k | 0 <= k < |all|
      ensures ConflictsWith(all[k], tx) || exists j :: 0 <= j < k && Spends(all[k], all[j])
    {
      if k < |removed| {
        assert all[k] == removed[k];
        if !ConflictsWith(removed[k], tx) {
          var j :| 0 <= j < k && Spends(removed[k], removed[j]);
          assert all[j] == removed[j];
        }
      } else {
        var m := k - |removed|;
        assert all[k] == r[m];
        if m > 0 {
          if Spends(r[m], r[0]) {
            assert all[|removed|] == r[0];
          } else {
            var j :| 0 <= j < m && Spends(r[m], r[j]);
            assert all[|removed| + j] == r[j];
          }
        }
      }
    }
  }

  /** A transaction that is itself pooled has no conflicts: each of its inputs is recorded as its own. */
  lemma PooledUnopposed(pool: Pool, next: SpendIndex, tx: Tx)
    requires Consistent(pool, next) && tx.hash in pool && pool[tx.hash].tx == tx
    ensures forall i :: 0 <= i < |tx.vin| ==> Unopposed(next, tx, i)
  {
    forall i | 0 <= i < |tx.vin|
      ensures Unopposed(next, tx, i)
    {
      assert next[pool[tx.hash].tx.vin[i]] == InPoint(tx.hash, i);
    }
  }

  /**
   * When every input is resolved: every transaction that spent an input of
   * `tx` under another hash at the start is gone, and nothing was removed
   * exactly when there was no such transaction.
   */
  lemma ResolvingDone(pool0: Pool, next0: SpendIndex, pool: Pool, next: SpendIndex, tx: Tx, removed: seq<Tx>)
    requires Consistent(pool0, next0)
    requires Resolving(pool0, next0, pool, next, tx, |tx.vin|, removed)
    ensures forall i :: 0 <= i < |tx.vin| && tx.vin[i] in next0 && next0[tx.vin[i]].spender != tx.hash ==>
      next0[tx.vin[i]].spender !in pool
    ensures removed == [] <==>
      forall i :: 0 <= i < |tx.vin| ==> Unopposed(next0, tx, i)
  {
    forall i | 0 <= i < |tx.vin| && tx.vin[i] in next0 && next0[tx.vin[i]].spender != tx.hash
      ensures next0[tx.vin[i]].spender !in pool
    {
      assert Unopposed(next, tx, i);
    }
    if removed != [] {
      assert ConflictsWith(removed[0], tx);
      var i, j :| 0 <= i < |tx.vin| && 0 <= j < |removed[0].vin| && removed[0].vin[j] == tx.vin[i];
      var h := removed[0].hash;
      assert h in pool0 && pool0[h].tx == removed[0];
      assert next0[pool0[h].tx.vin[j]] == InPoint(h, j);
      assert !Unopposed(next0, tx, i);
    } else {
      assert Hashes([]) == {};
    }
  }
}
