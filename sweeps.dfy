/**
 * The progress of the two operations that call `remove` or
 * `removeConflicts` once per transaction of a list: `removeCoinbaseSpends`
 * and `removeForBlock`.
 */
module Sweeps {
  import opened Types
  import opened PoolIndex
  import opened Conflicts

  /** The hashes of a concatenation are the hashes of its two parts. */
  lemma HashesAppend(a: seq<Tx>, b: seq<Tx>)
    ensures Hashes(a + b) == Hashes(a) + Hashes(b)
  {
    assert forall k :: 0 <= k < |a| ==> (a + b)[k] == a[k];
    assert forall k :: 0 <= k < |b| ==> (a + b)[|a| + k] == b[k];
  }

  /** The hashes of `vtx[..i + 1]` add `vtx[i]`'s hash to those of `vtx[..i]`. */
  lemma HashesPrefix(vtx: seq<Tx>, i: nat)
    requires i < |vtx|
    ensures Hashes(vtx[..i + 1]) == Hashes(vtx[..i]) + {vtx[i].hash}
  {
    assert vtx[..i + 1] == vtx[..i] + [vtx[i]];
    HashesAppend(vtx[..i], [vtx[i]]);
  }

  /**
   * Every transaction of `removed` is filed under the hash of one of `roots`,
   * spends an output of one of `roots`, or spends an output of a transaction
   * removed before it.
   */
  ghost predicate DescendsFromAny(removed: seq<Tx>, roots: seq<Tx>)
  {
    forall k :: 0 <= k < |removed| ==>
      || (exists i :: 0 <= i < |roots| && (removed[k].hash == roots[i].hash || Spends(removed[k], roots[i])))
      || exists j :: 0 <= j < k && Spends(removed[k], removed[j])
  }

  /** Appending what a recursive `remove` of one of `roots` reports keeps the descent. */
  lemma DescendsFromAnyAppend(removed: seq<Tx>, r: seq<Tx>, roots: seq<Tx>, i: nat)
    requires DescendsFromAny(removed, roots)
    requires i < |roots| && Descends(r, roots[i])
    ensures DescendsFromAny(removed + r, roots)
  {
    var all := removed + r;
    forall k | 0 <= k < |all|
      ensures || (exists i :: 0 <= i < |roots| && (all[k].hash == roots[i].hash || Spends(all[k], roots[i])))
              || exists j :: 0 <= j < k && Spends(all[k], all[j])
    {
      if k < |removed| {
        assert all[k] == removed[k];
        if !exists i :: 0 <= i < |roots| && (removed[k].hash == roots[i].hash || Spends(removed[k], roots[i])) {
          var j :| 0 <= j < k && Spends(removed[k], removed[j]);
          assert all[j] == removed[j];
        }
      } else {
        var m := k - |removed|;
        assert all[k] == r[m];
        if !(r[m].hash == roots[i].hash || Spends(r[m], roots[i])) {
          var j :| 0 <= j < m && Spends(r[m], r[j]);
          assert all[|removed| + j] == r[j];
        }
      }
    }
  }

  /**
   * After some removals starting from `pool0`/`next0`: what is left is a
   * sub-pool, `removed` lists what is gone, and nothing left spends an
   * output of a removed transaction.
   */
  ghost predicate Swept(pool0: Pool, next0: SpendIndex, pool: Pool, next: SpendIndex, removed: seq<Tx>)
  {
    && Progress(pool0, next0, pool, next, removed)
    && forall t, h :: t in removed && h in pool ==> !Spends(pool[h].tx, t)
  }

  lemma SweptStart(pool: Pool, next: SpendIndex)
    requires Consistent(pool, next)
    ensures Swept(pool, next, pool, next, [])
  {
    assert Hashes([]) == {};
  }

  /** A further recursive removal `r` that leaves nothing spending what it removed keeps the sweep. */
  lemma SweptAppend(pool0: Pool, next0: SpendIndex, pool: Pool, next: SpendIndex,
                    pool': Pool, next': SpendIndex, removed: seq<Tx>, r: seq<Tx>)
    requires Swept(pool0, next0, pool, next, removed)
    requires SubPool(pool', next', pool, next) && RemovedFrom(pool, pool', r)
    requires forall t, h :: t in r && h in pool' ==> !Spends(pool'[h].tx, t)
    ensures Swept(pool0, next0, pool', next', removed + r)
  {
    SubPoolTransitive(pool', next', pool, next, pool0, next0);
    RemovedFromCompose(pool0, pool, pool', removed, r, next0, next, next');
    ClosedAfterRemove(pool, pool', removed, r);
  }

  /**
   * Every conflict conflicts with one of the block's transactions, or spends
   * an output of a conflict removed before it.
   */
  ghost predicate ConflictsDescendAny(conflicts: seq<Tx>, vtx: seq<Tx>)
  {
    forall k :: 0 <= k < |conflicts| ==>
      || (exists i :: 0 <= i < |vtx| && ConflictsWith(conflicts[k], vtx[i]))
      || exists j :: 0 <= j < k && Spends(conflicts[k], conflicts[j])
  }

  lemma ConflictsDescendAnyAppend(conflicts: seq<Tx>, r: seq<Tx>, vtx: seq<Tx>, i: nat)
    requires ConflictsDescendAny(conflicts, vtx)
    requires i < |vtx| && ConflictsDescend(r, vtx[i])
    ensures ConflictsDescendAny(conflicts + r, vtx)
  {
    var all := conflicts + r;
    forall k | 0 <= k < |all|
      ensures || (exists i :: 0 <= i < |vtx| && ConflictsWith(all[k], vtx[i]))
              || exists j :: 0 <= j < k && Spends(all[k], all[j])
    {
      if k < |conflicts| {
        assert all[k] == conflicts[k];
        if !exists i :: 0 <= i < |vtx| && ConflictsWith(conflicts[k], vtx[i]) {
          var j :| 0 <= j < k && Spends(conflicts[k], conflicts[j]);
          assert all[j] == conflicts[j];
        }
      } else {
        var m := k - |conflicts|;
        assert all[k] == r[m];
        if !ConflictsWith(r[m], vtx[i]) {
          var j :| 0 <= j < m && Spends(r[m], r[j]);
          assert all[|conflicts| + j] == r[j];
        }
      }
    }
  }

  /** Every input of the first `i` block transactions is unopposed in `next`. */
  ghost predicate BlockUnopposed(next: SpendIndex, vtx: seq<Tx>, i: nat)
    requires i <= |vtx|
  {
    forall k, j :: 0 <= k < i && 0 <= j < |vtx[k].vin| ==> Unopposed(next, vtx[k], j)
  }

  /**
   * The state of `removeForBlock(vtx)` after its first `i` transactions,
   * starting from `pool0`/`next0`: `removed` lists everything erased, what
   * is left is the start without the first `i` block hashes and the
   * conflicts, the inputs of those transactions are unopposed, nothing left
   * spends a conflict, and every conflict descends from a conflict with a
   * block transaction.
   */
  ghost predicate Connecting(pool0: Pool, next0: SpendIndex, pool: Pool, next: SpendIndex,
                             vtx: seq<Tx>, i: nat, conflicts: seq<Tx>, removed: seq<Tx>)
  {
    && i <= |vtx|
    && Progress(pool0, next0, pool, next, removed)
    && pool.Keys == pool0.Keys - Hashes(vtx[..i]) - Hashes(conflicts)
    && BlockUnopposed(next, vtx, i)
    && (forall t :: t in conflicts ==> t.hash in pool0 && pool0[t.hash].tx == t)
    && (forall t, h :: t in conflicts && h in pool ==> !Spends(pool[h].tx, t))
    && ConflictsDescendAny(conflicts, vtx)
  }

  lemma ConnectingStart(pool: Pool, next: SpendIndex, vtx: seq<Tx>)
    requires Consistent(pool, next)
    ensures Connecting(pool, next, pool, next, vtx, 0, [], [])
  {
    assert Hashes([]) == {};
    assert vtx[..0] == [];
  }

  /**
   * One transaction of the block: `d` is what the plain `remove` of `vtx[i]`
   * erased (taking `pool`/`next` to `pool1`/`next1`), `r` what
   * `removeConflicts(vtx[i])` erased after it.
   */
  lemma ConnectingStep(pool0: Pool, next0: SpendIndex, pool: Pool, next: SpendIndex,
                       pool1: Pool, next1: SpendIndex, pool2: Pool, next2: SpendIndex,
                       vtx: seq<Tx>, i: nat, conflicts: seq<Tx>, removed: seq<Tx>, d: seq<Tx>, r: seq<Tx>)
    requires KeysAreHashes(pool)
    requires Connecting(pool0, next0, pool, next, vtx, i, conflicts, removed)
    requires i < |vtx|
    requires SubPool(pool1, next1, pool, next) && RemovedFrom(pool, pool1, d)
    requires d == (if vtx[i].hash in pool then [pool[vtx[i].hash].tx] else [])
    requires SubPool(pool2, next2, pool1, next1) && RemovedFrom(pool1, pool2, r)
    requires forall j :: 0 <= j < |vtx[i].vin| ==> Unopposed(next2, vtx[i], j)
    requires forall t, h :: t in r && h in pool2 ==> !Spends(pool2[h].tx, t)
    requires ConflictsDescend(r, vtx[i])
    ensures Connecting(pool0, next0, pool2, next2, vtx, i + 1, conflicts + r, removed + d + r)
  {
    ConnectingProgress(pool0, next0, pool, next, pool1, next1, pool2, next2, removed, d, r);
    ConnectingKeys(pool0, pool, pool1, pool2, vtx, i, conflicts, d, r);
    ConnectingUnopposed(next, next1, next2, pool1, pool2, vtx, i);
    ConnectingConflicts(pool0, pool, pool1, pool2, conflicts, r);
    ConflictsDescendAnyAppend(conflicts, r, vtx, i);
  }

  lemma ConnectingProgress(pool0: Pool, next0: SpendIndex, pool: Pool, next: SpendIndex,
                           pool1: Pool, next1: SpendIndex, pool2: Pool, next2: SpendIndex,
                           removed: seq<Tx>, d: seq<Tx>, r: seq<Tx>)
    requires Progress(pool0, next0, pool, next, removed)
    requires SubPool(pool1, next1, pool, next) && RemovedFrom(pool, pool1, d)
    requires SubPool(pool2, next2, pool1, next1) && RemovedFrom(pool1, pool2, r)
    ensures Progress(pool0, next0, pool2, next2, removed + d + r)
  {
    SubPoolTransitive(pool1, next1, pool, next, pool0, next0);
    RemovedFromCompose(pool0, pool, pool1, removed, d, next0, next, next1);
    SubPoolTransitive(pool2, next2, pool1, next1, pool0, next0);
    RemovedFromCompose(pool0, pool1, pool2, removed + d, r, next0, next1, next2);
  }

  lemma ConnectingKeys(pool0: Pool, pool: Pool, pool1: Pool, pool2: Pool,
                       vtx: seq<Tx>, i: nat, conflicts: seq<Tx>, d: seq<Tx>, r: seq<Tx>)
    requires i < |vtx|
    requires pool.Keys == pool0.Keys - Hashes(vtx[..i]) - Hashes(conflicts)
    requires RemovedFrom(pool, pool1, d) && RemovedFrom(pool1, pool2, r)
    requires d == (if vtx[i].hash in pool then [pool[vtx[i].hash].tx] else [])
    requires KeysAreHashes(pool)
    ensures pool2.Keys == pool0.Keys - Hashes(vtx[..i + 1]) - Hashes(conflicts + r)
  {
    HashesPrefix(vtx, i);
    HashesAppend(conflicts, r);
    assert pool1.Keys == pool.Keys - {vtx[i].hash} by {
      if vtx[i].hash in pool {
        assert Hashes(d) == {vtx[i].hash} by {
          assert d[0].hash == vtx[i].hash;
        }
      } else {
        assert Hashes(d) == {};
      }
    }
  }

  lemma ConnectingUnopposed(next: SpendIndex, next1: SpendIndex, next2: SpendIndex, pool1: Pool, pool2: Pool,
                            vtx: seq<Tx>, i: nat)
    requires i < |vtx|
    requires BlockUnopposed(next, vtx, i)
    requires forall op :: op in next1 ==> op in next && next1[op] == next[op]
    requires forall op :: op in next2 ==> op in next1 && next2[op] == next1[op]
    requires forall j :: 0 <= j < |vtx[i].vin| ==> Unopposed(next2, vtx[i], j)
    ensures BlockUnopposed(next2, vtx, i + 1)
  {
    forall k, j | 0 <= k < i + 1 && 0 <= j < |vtx[k].vin|
      ensures Unopposed(next2, vtx[k], j)
    {
      if k < i {
        assert Unopposed(next, vtx[k], j);
      }
    }
  }

  lemma ConnectingConflicts(pool0: Pool, pool: Pool, pool1: Pool, pool2: Pool, conflicts: seq<Tx>, r: seq<Tx>)
    requires forall h :: h in pool ==> h in pool0 && pool[h] == pool0[h]
    requires forall h :: h in pool1 ==> h in pool && pool1[h] == pool[h]
    requires forall h :: h in pool2 ==> h in pool1 && pool2[h] == pool1[h]
    requires forall t :: t in conflicts ==> t.hash in pool0 && pool0[t.hash].tx == t
    requires forall k :: 0 <= k < |r| ==> r[k].hash in pool1 && pool1[r[k].hash].tx == r[k]
    requires forall t, h :: t in conflicts && h in pool ==> !Spends(pool[h].tx, t)
    requires forall t, h :: t in r && h in pool2 ==> !Spends(pool2[h].tx, t)
    ensures forall t :: t in conflicts + r ==> t.hash in pool0 && pool0[t.hash].tx == t
    ensures forall t, h :: t in conflicts + r && h in pool2 ==> !Spends(pool2[h].tx, t)
  {
    forall t | t in conflicts + r
      ensures t.hash in pool0 && pool0[t.hash].tx == t
    {
      if t !in conflicts {
        var k :| 0 <= k < |r| && r[k] == t;
      }
    }
    forall t, h | t in conflicts + r && h in pool2
      ensures !Spends(pool2[h].tx, t)
    {
      if t in conflicts {
        assert pool2[h] == pool[h];
      }
    }
  }

  /** After the whole block: the block hashes and the conflicts are gone, and nothing else. */
  lemma ConnectingDone(pool0: Pool, next0: SpendIndex, pool: Pool, next: SpendIndex,
                       vtx: seq<Tx>, conflicts: seq<Tx>, removed: seq<Tx>)
    requires Connecting(pool0, next0, pool, next, vtx, |vtx|, conflicts, removed)
    ensures pool.Keys == pool0.Keys - Hashes(vtx) - Hashes(conflicts)
    ensures forall k, j :: 0 <= k < |vtx| && 0 <= j < |vtx[k].vin| ==> Unopposed(next, vtx[k], j)
  {
    assert vtx[..|vtx|] == vtx;
  }
}
