/**
 * The bookkeeping invariant of the memory pool, stated on the values of its
 * two maps, and the lemmas that insertion and erasure keep it.
 */
module PoolIndex {
  import opened Types

  type Pool = map<Hash, Entry>
  type SpendIndex = map<OutPoint, InPoint>

  /** Every entry is filed under its own transaction's hash. */
  ghost predicate KeysAreHashes(pool: Pool)
  {
    forall h :: h in pool ==> pool[h].tx.hash == h
  }

  /** `ip` names a pooled transaction whose input `ip.n` spends `op`. */
  ghost predicate SpentAt(pool: Pool, op: OutPoint, ip: InPoint)
  {
    && ip.spender in pool
    && ip.n < |pool[ip.spender].tx.vin|
    && pool[ip.spender].tx.vin[ip.n] == op
  }

  /** Every spend-index entry points at a pooled spender whose `vin[n]` is the key. */
  ghost predicate SpendIndexSound(pool: Pool, next: SpendIndex)
  {
    forall op :: op in next ==> SpentAt(pool, op, next[op])
  }

  /** Every input of every pooled transaction is recorded, with its own input index. */
  ghost predicate SpendIndexComplete(pool: Pool, next: SpendIndex)
  {
    forall h, i :: h in pool && 0 <= i < |pool[h].tx.vin| ==>
      pool[h].tx.vin[i] in next && next[pool[h].tx.vin[i]] == InPoint(h, i)
  }

  ghost predicate Consistent(pool: Pool, next: SpendIndex)
  {
    KeysAreHashes(pool) && SpendIndexSound(pool, next) && SpendIndexComplete(pool, next)
  }

  /** The sum of the serialized sizes of the entries filed under `keys`. */
  ghost function SumOver(pool: Pool, keys: set<Hash>): (total: nat)
    requires keys <= pool.Keys
    decreases keys
  {
    if keys == {} then 0
    else
      var h :| h in keys;
      pool[h].TxSize() + SumOver(pool, keys - {h})
  }

  /** The sum of the serialized sizes of all entries. */
  ghost function SumSizes(pool: Pool): (total: nat)
  {
    SumOver(pool, pool.Keys)
  }

  /** Any key may be split off the sum, whichever one the definition picks. */
  lemma {:induction false} SumOverSplit(pool: Pool, keys: set<Hash>, h: Hash)
    requires keys <= pool.Keys && h in keys
    ensures SumOver(pool, keys) == pool[h].TxSize() + SumOver(pool, keys - {h})
    decreases keys
  {
    var k :| k in keys && SumOver(pool, keys) == pool[k].TxSize() + SumOver(pool, keys - {k});
    if k != h {
      SumOverSplit(pool, keys - {k}, h);
      SumOverSplit(pool, keys - {h}, k);
      assert keys - {k} - {h} == keys - {h} - {k};
    }
  }

  /** The sum depends only on the entries filed under `keys`. */
  lemma {:induction false} SumOverFrame(pool: Pool, pool': Pool, keys: set<Hash>)
    requires keys <= pool.Keys && keys <= pool'.Keys
    requires forall h :: h in keys ==> pool[h] == pool'[h]
    ensures SumOver(pool, keys) == SumOver(pool', keys)
    decreases keys
  {
    if keys != {} {
      var k :| k in keys && SumOver(pool, keys) == pool[k].TxSize() + SumOver(pool, keys - {k});
      SumOverSplit(pool', keys, k);
      SumOverFrame(pool, pool', keys - {k});
    }
  }

  /** Erasing an entry lowers the total by exactly that entry's size. */
  lemma SumSizesErase(pool: Pool, h: Hash)
    requires h in pool
    ensures SumSizes(pool - {h}) + pool[h].TxSize() == SumSizes(pool)
  {
    SumOverSplit(pool, pool.Keys, h);
    assert (pool - {h}).Keys == pool.Keys - {h};
    SumOverFrame(pool, pool - {h}, pool.Keys - {h});
  }

  /** Inserting a fresh entry raises the total by exactly that entry's size. */
  lemma SumSizesInsert(pool: Pool, h: Hash, e: Entry)
    requires h !in pool
    ensures SumSizes(pool[h := e]) == SumSizes(pool) + e.TxSize()
  {
    var pool' := pool[h := e];
    SumOverSplit(pool', pool'.Keys, h);
    assert pool'.Keys - {h} == pool.Keys;
    SumOverFrame(pool, pool', pool.Keys);
  }

  /**
   * What the bookkeeping assertions of `check` demand: both directions of
   * the spend index hold and `total` is the sum of the entry sizes.
   */
  ghost predicate Bookkept(pool: Pool, next: SpendIndex, total: nat)
  {
    SpendIndexSound(pool, next) && SpendIndexComplete(pool, next) && total == SumSizes(pool)
  }

  /** Adding the entry under `h` to the keys summed so far adds its size. */
  lemma SumOverAdd(pool: Pool, done: set<Hash>, h: Hash)
    requires done <= pool.Keys && h in pool && h !in done
    ensures SumOver(pool, done + {h}) == SumOver(pool, done) + pool[h].TxSize()
  {
    SumOverSplit(pool, done + {h}, h);
    assert done + {h} - {h} == done;
  }

  /**
   * `pool`/`next` are what is left of `pool0`/`next0` after erasing entries:
   * surviving entries are unchanged, and the spend index keeps exactly the
   * records whose spender survived.
   */
  ghost predicate SubPool(pool: Pool, next: SpendIndex, pool0: Pool, next0: SpendIndex)
  {
    && (forall h :: h in pool ==> h in pool0 && pool[h] == pool0[h])
    && (forall op :: op in next <==> op in next0 && next0[op].spender in pool)
    && (forall op :: op in next ==> next[op] == next0[op])
  }

  /**
   * Erasing a pooled transaction together with the records of its inputs
   * keeps the invariant, and erases from the spend index exactly the records
   * that named it.
   */
  lemma EraseKeepsConsistent(pool: Pool, next: SpendIndex, h: Hash)
    requires Consistent(pool, next) && h in pool
    ensures Consistent(pool - {h}, next - InputSet(pool[h].tx.vin))
    ensures SubPool(pool - {h}, next - InputSet(pool[h].tx.vin), pool, next)
  {
  }

  /**
   * Filing a fresh transaction whose inputs are distinct and unspent, and
   * recording each of its inputs, keeps the invariant.
   */
  lemma InsertKeepsConsistent(pool: Pool, next: SpendIndex, next': SpendIndex, h: Hash, e: Entry)
    requires Consistent(pool, next)
    requires h == e.tx.hash && h !in pool
    requires DistinctInputs(e.tx.vin)
    requires forall i :: 0 <= i < |e.tx.vin| ==> e.tx.vin[i] !in next
    requires next'.Keys == next.Keys + InputSet(e.tx.vin)
    requires forall op :: op in next ==> next'[op] == next[op]
    requires forall i :: 0 <= i < |e.tx.vin| ==> next'[e.tx.vin[i]] == InPoint(h, i)
    ensures Consistent(pool[h := e], next')
  {
    var pool' := pool[h := e];
    forall op | op in next' ensures SpentAt(pool', op, next'[op]) {
      if op !in next {
        var i :| 0 <= i < |e.tx.vin| && e.tx.vin[i] == op;
      }
    }
  }

  lemma SubPoolTransitive(p2: Pool, n2: SpendIndex, p1: Pool, n1: SpendIndex, p0: Pool, n0: SpendIndex)
    requires SubPool(p2, n2, p1, n1) && SubPool(p1, n1, p0, n0)
    ensures SubPool(p2, n2, p0, n0)
  {
  }

  /**
   * `removed` lists, without repeats, exactly the entries of `pool0` that are
   * missing from `pool`, each as it was pooled.
   */
  ghost predicate RemovedFrom(pool0: Pool, pool: Pool, removed: seq<Tx>)
  {
    && (forall k :: 0 <= k < |removed| ==> removed[k].hash in pool0 && pool0[removed[k].hash].tx == removed[k])
    && pool.Keys == pool0.Keys - Hashes(removed)
    && (forall j, k :: 0 <= j < k < |removed| ==> removed[j].hash != removed[k].hash)
  }

  lemma RemovedFromCompose(p0: Pool, p1: Pool, p2: Pool, r1: seq<Tx>, r2: seq<Tx>, n0: SpendIndex, n1: SpendIndex, n2: SpendIndex)
    requires RemovedFrom(p0, p1, r1) && RemovedFrom(p1, p2, r2)
    requires SubPool(p1, n1, p0, n0)
    ensures RemovedFrom(p0, p2, r1 + r2)
  {
    var r := r1 + r2;
    assert Hashes(r) == Hashes(r1) + Hashes(r2) by {
      forall h | h in Hashes(r) ensures h in Hashes(r1) + Hashes(r2) {
        var i :| 0 <= i < |r| && r[i].hash == h;
        if i >= |r1| { assert r2[i - |r1|].hash == h; }
      }
      forall h | h in Hashes(r1) + Hashes(r2) ensures h in Hashes(r) {
        if h in Hashes(r1) {
          var i :| 0 <= i < |r1| && r1[i].hash == h;
          assert r[i] == r1[i];
        } else {
          var i :| 0 <= i < |r2| && r2[i].hash == h;
          assert r[|r1| + i] == r2[i];
        }
      }
    }
    forall j, k | 0 <= j < k < |r| ensures r[j].hash != r[k].hash {
      if j < |r1| && k >= |r1| {
        assert r[k] == r2[k - |r1|];
        assert r[k].hash in p1;
      }
    }
  }

  /** A spend-index record of an output of `parent` names a pooled transaction that spends it. */
  lemma SpenderSpends(pool: Pool, next: SpendIndex, parent: Tx, n: nat)
    requires SpendIndexSound(pool, next)
    requires n < parent.voutCount && OutPoint(parent.hash, n) in next
    ensures next[OutPoint(parent.hash, n)].spender in pool
    ensures Spends(pool[next[OutPoint(parent.hash, n)].spender].tx, parent)
  {
    var ip := next[OutPoint(parent.hash, n)];
    assert pool[ip.spender].tx.vin[ip.n] == OutPoint(parent.hash, n);
  }

  /**
   * The work-queue promise of the recursive removal: every recorded spend of
   * an output of a transaction in `parents` is by a transaction still queued.
   */
  ghost predicate QueueCovers(next: SpendIndex, parents: seq<Tx>, queue: seq<Hash>)
  {
    forall t, n :: t in parents && 0 <= n < t.voutCount && OutPoint(t.hash, n) in next ==>
      next[OutPoint(t.hash, n)].spender in queue
  }

  /** Popping a hash that is not pooled keeps the promise: no record names it. */
  lemma CoversAfterSkip(pool: Pool, next: SpendIndex, parents: seq<Tx>, queue: seq<Hash>)
    requires SpendIndexSound(pool, next)
    requires queue != [] && queue[0] !in pool
    requires QueueCovers(next, parents, queue)
    ensures QueueCovers(next, parents, queue[1..])
  {
    forall t, n | t in parents && 0 <= n < t.voutCount && OutPoint(t.hash, n) in next
      ensures next[OutPoint(t.hash, n)].spender in queue[1..]
    {
      var s := next[OutPoint(t.hash, n)].spender;
      assert s != queue[0];
      var k :| 0 <= k < |queue| && queue[k] == s;
      assert queue[1..][k - 1] == s;
    }
  }

  /**
   * Popping a pooled hash, queueing the spenders of its outputs and erasing
   * its input records keeps the promise, now also for the popped transaction.
   */
  lemma CoversAfterErase(pool: Pool, next: SpendIndex, parents: seq<Tx>, queue: seq<Hash>, children: seq<Hash>)
    requires Consistent(pool, next)
    requires queue != [] && queue[0] in pool
    requires QueueCovers(next, parents, queue)
    requires forall n :: 0 <= n < pool[queue[0]].tx.voutCount && OutPoint(queue[0], n) in next ==>
      next[OutPoint(queue[0], n)].spender in children
    ensures QueueCovers(next - InputSet(pool[queue[0]].tx.vin), parents + [pool[queue[0]].tx], queue[1..] + children)
  {
    var q, tx := queue[0], pool[queue[0]].tx;
    var next' := next - InputSet(tx.vin);
    forall t, n | t in parents + [tx] && 0 <= n < t.voutCount && OutPoint(t.hash, n) in next'
      ensures next'[OutPoint(t.hash, n)].spender in queue[1..] + children
    {
      var op := OutPoint(t.hash, n);
      var s := next[op].spender;
      if t in parents {
        if s == q {
          assert false;
        }
        var k :| 0 <= k < |queue| && queue[k] == s;
        assert (queue[1..] + children)[k - 1] == s;
      } else {
        assert t == tx && t.hash == q;
        assert s in children;
      }
    }
  }

  /** An empty queue that keeps the promise means no pooled transaction spends an output of a parent. */
  lemma CoveredMeansClosed(pool: Pool, next: SpendIndex, parents: seq<Tx>)
    requires SpendIndexComplete(pool, next)
    requires QueueCovers(next, parents, [])
    ensures forall t, h :: t in parents && h in pool ==> !Spends(pool[h].tx, t)
  {
  }

  /**
   * Every transaction of `removed` is the one filed under `root`'s hash, or
   * spends an output of `root` or of a transaction removed before it.
   */
  ghost predicate Descends(removed: seq<Tx>, root: Tx)
  {
    forall k :: 0 <= k < |removed| ==>
      || removed[k].hash == root.hash
      || Spends(removed[k], root)
      || exists j :: 0 <= j < k && Spends(removed[k], removed[j])
  }

  /** Every pooled transaction still queued is `root` or spends an output of `root` or of a removed one. */
  ghost predicate QueuedDescend(pool: Pool, queue: seq<Hash>, removed: seq<Tx>, root: Tx)
  {
    forall q :: q in queue && q != root.hash && q in pool ==>
      Spends(pool[q].tx, root) || exists j :: 0 <= j < |removed| && Spends(pool[q].tx, removed[j])
  }

  /** Erasing the head of the queue and queueing its spenders keeps both descent promises. */
  lemma DescendsAfterErase(pool: Pool, pool': Pool, queue: seq<Hash>, children: seq<Hash>, removed: seq<Tx>, root: Tx)
    requires KeysAreHashes(pool)
    requires queue != [] && queue[0] in pool
    requires forall h :: h in pool' ==> h in pool && pool'[h] == pool[h]
    requires forall s :: s in children && s in pool ==> Spends(pool[s].tx, pool[queue[0]].tx)
    requires Descends(removed, root) && QueuedDescend(pool, queue, removed, root)
    ensures Descends(removed + [pool[queue[0]].tx], root)
    ensures QueuedDescend(pool', queue[1..] + children, removed + [pool[queue[0]].tx], root)
  {
    var tx := pool[queue[0]].tx;
    var r := removed + [tx];
    forall k | 0 <= k < |r|
      ensures r[k].hash == root.hash || Spends(r[k], root) || exists j :: 0 <= j < k && Spends(r[k], r[j])
    {
      if k < |removed| {
        assert r[k] == removed[k];
        if exists j :: 0 <= j < k && Spends(removed[k], removed[j]) {
          var j :| 0 <= j < k && Spends(removed[k], removed[j]);
          assert r[j] == removed[j];
        }
      } else if tx.hash != root.hash && !Spends(tx, root) {
        var j :| 0 <= j < |removed| && Spends(tx, removed[j]);
        assert r[j] == removed[j];
      }
    }
    forall q | q in queue[1..] + children && q != root.hash && q in pool'
      ensures Spends(pool'[q].tx, root) || exists j :: 0 <= j < |r| && Spends(pool'[q].tx, r[j])
    {
      if q in children {
        assert r[|removed|] == tx;
      } else if !Spends(pool'[q].tx, root) {
        var j :| 0 <= j < |removed| && Spends(pool[q].tx, removed[j]);
        assert r[j] == removed[j];
      }
    }
  }

  /** `found` lists the spenders the spend index records for the outputs of `parent`, and only those. */
  ghost predicate ListsSpenders(next: SpendIndex, parent: Tx, found: seq<Hash>)
  {
    && (forall n :: 0 <= n < parent.voutCount && OutPoint(parent.hash, n) in next ==>
          next[OutPoint(parent.hash, n)].spender in found)
    && (forall s :: s in found ==>
          exists n :: 0 <= n < parent.voutCount && OutPoint(parent.hash, n) in next && next[OutPoint(parent.hash, n)].spender == s)
  }

  /** Every listed spender of `parent` is pooled and spends an output of `parent`. */
  lemma ListedSpendersSpend(pool: Pool, next: SpendIndex, parent: Tx, found: seq<Hash>)
    requires SpendIndexSound(pool, next) && ListsSpenders(next, parent, found)
    ensures forall s :: s in found ==> s in pool && Spends(pool[s].tx, parent)
  {
    forall s | s in found
      ensures s in pool && Spends(pool[s].tx, parent)
    {
      var n :| 0 <= n < parent.voutCount && OutPoint(parent.hash, n) in next && next[OutPoint(parent.hash, n)].spender == s;
      SpenderSpends(pool, next, parent, n);
    }
  }

  /** Erasing one more pooled transaction extends the removal list by it. */
  lemma RemovedFromStep(pool0: Pool, pool1: Pool, pool2: Pool, removed: seq<Tx>, tx: Tx)
    requires RemovedFrom(pool0, pool1, removed)
    requires forall h :: h in pool1 ==> h in pool0 && pool1[h] == pool0[h]
    requires tx.hash in pool1 && pool1[tx.hash].tx == tx
    requires pool2.Keys == pool1.Keys - {tx.hash}
    ensures RemovedFrom(pool0, pool2, removed + [tx])
  {
    var r := removed + [tx];
    assert Hashes(r) == Hashes(removed) + {tx.hash} by {
      forall h | h in Hashes(removed) ensures h in Hashes(r) {
        var i :| 0 <= i < |removed| && removed[i].hash == h;
        assert r[i] == removed[i];
      }
      assert r[|removed|] == tx;
    }
  }

  /**
   * The parents whose spenders the recursive removal must clear: the removed
   * transactions and, when `root` itself is not pooled, `root`.
   */
  function Roots(pool0: Pool, root: Tx, recursive: bool): (roots: seq<Tx>)
  {
    if recursive && root.hash !in pool0 then [root] else []
  }

  /** What is left is a sub-pool of `pool0`/`next0`, and `removed` lists what is gone. */
  ghost predicate Progress(pool0: Pool, next0: SpendIndex, pool: Pool, next: SpendIndex, removed: seq<Tx>)
  {
    SubPool(pool, next, pool0, next0) && RemovedFrom(pool0, pool, removed)
  }

  /** The entry filed under `root`'s hash goes first, and the plain form removes that entry only. */
  ghost predicate Shape(pool0: Pool, root: Tx, recursive: bool, queue: seq<Hash>, removed: seq<Tx>)
  {
    && (root.hash in pool0 ==>
          (removed == [] && queue != [] && queue[0] == root.hash) || (removed != [] && removed[0] == pool0[root.hash].tx))
    && (!recursive ==>
          (queue == [root.hash] && removed == []) || (queue == [] && |removed| <= 1 && forall t :: t in removed ==> t.hash == root.hash))
  }

  /** In the recursive form, every recorded spender of a root or of a removed transaction is queued. */
  ghost predicate Covered(pool0: Pool, next: SpendIndex, root: Tx, recursive: bool, queue: seq<Hash>, removed: seq<Tx>)
  {
    recursive ==> QueueCovers(next, Roots(pool0, root, recursive) + removed, queue)
  }

  /** Everything removed or queued descends from `root`. */
  ghost predicate Descent(pool: Pool, queue: seq<Hash>, removed: seq<Tx>, root: Tx)
  {
    QueuedDescend(pool, queue, removed, root) && Descends(removed, root)
  }

  /**
   * The state of `remove(root, recursive)` between two steps, starting from
   * `pool0`/`next0`.
   */
  ghost predicate Removing(pool0: Pool, next0: SpendIndex, pool: Pool, next: SpendIndex,
                           root: Tx, recursive: bool, queue: seq<Hash>, removed: seq<Tx>)
  {
    && Progress(pool0, next0, pool, next, removed)
    && Shape(pool0, root, recursive, queue, removed)
    && Covered(pool0, next, root, recursive, queue, removed)
    && Descent(pool, queue, removed, root)
  }

  /** The queue `remove` starts from: `root`'s hash and, when `root` is not pooled, the spenders of its outputs. */
  lemma RemovingStart(pool: Pool, next: SpendIndex, root: Tx, recursive: bool, children: seq<Hash>)
    requires Consistent(pool, next)
    requires recursive && root.hash !in pool ==> ListsSpenders(next, root, children)
    requires !(recursive && root.hash !in pool) ==> children == []
    ensures Removing(pool, next, pool, next, root, recursive, [root.hash] + children, [])
  {
    if recursive && root.hash !in pool {
      ListedSpendersSpend(pool, next, root, children);
    }
    assert Hashes([]) == {};
  }

  /** Popping a hash that is not pooled keeps the state of `remove`. */
  lemma RemovingSkip(pool0: Pool, next0: SpendIndex, pool: Pool, next: SpendIndex,
                     root: Tx, recursive: bool, queue: seq<Hash>, removed: seq<Tx>)
    requires Consistent(pool, next)
    requires Removing(pool0, next0, pool, next, root, recursive, queue, removed)
    requires queue != [] && queue[0] !in pool
    ensures Removing(pool0, next0, pool, next, root, recursive, queue[1..], removed)
  {
    if recursive {
      CoversAfterSkip(pool, next, Roots(pool0, root, recursive) + removed, queue);
    }
    assert forall q :: q in queue[1..] ==> q in queue;
  }

  /** Erasing a pooled transaction extends the progress by it. */
  lemma ProgressAfterErase(pool0: Pool, next0: SpendIndex, pool: Pool, next: SpendIndex, removed: seq<Tx>, q: Hash)
    requires Consistent(pool, next) && q in pool
    requires Progress(pool0, next0, pool, next, removed)
    ensures Progress(pool0, next0, pool - {q}, next - InputSet(pool[q].tx.vin), removed + [pool[q].tx])
  {
    var pool', next' := pool - {q}, next - InputSet(pool[q].tx.vin);
    EraseKeepsConsistent(pool, next, q);
    SubPoolTransitive(pool', next', pool, next, pool0, next0);
    RemovedFromStep(pool0, pool, pool', removed, pool[q].tx);
  }

  /** Erasing the pooled head of the queue keeps the shape. */
  lemma ShapeAfterErase(pool0: Pool, pool: Pool, root: Tx, recursive: bool,
                        queue: seq<Hash>, removed: seq<Tx>, children: seq<Hash>)
    requires KeysAreHashes(pool)
    requires forall h :: h in pool ==> h in pool0 && pool[h] == pool0[h]
    requires queue != [] && queue[0] in pool
    requires !recursive ==> children == []
    requires Shape(pool0, root, recursive, queue, removed)
    ensures Shape(pool0, root, recursive, queue[1..] + children, removed + [pool[queue[0]].tx])
  {
    if !recursive {
      assert removed + [pool[queue[0]].tx] == [pool[queue[0]].tx];
    }
  }

  /** Erasing the pooled head of the queue and queueing its spenders keeps the queue covering. */
  lemma CoveredAfterErase(pool0: Pool, pool: Pool, next: SpendIndex, root: Tx, recursive: bool,
                          queue: seq<Hash>, removed: seq<Tx>, children: seq<Hash>)
    requires Consistent(pool, next)
    requires queue != [] && queue[0] in pool
    requires recursive ==> ListsSpenders(next, pool[queue[0]].tx, children)
    requires Covered(pool0, next, root, recursive, queue, removed)
    ensures Covered(pool0, next - InputSet(pool[queue[0]].tx.vin), root, recursive,
                    queue[1..] + children, removed + [pool[queue[0]].tx])
  {
    if recursive {
      var roots, tx := Roots(pool0, root, recursive), pool[queue[0]].tx;
      CoversAfterErase(pool, next, roots + removed, queue, children);
      assert roots + (removed + [tx]) == (roots + removed) + [tx];
    }
  }

  /** Erasing the pooled head of the queue and queueing its spenders keeps the descent. */
  lemma DescentAfterErase(pool: Pool, next: SpendIndex, root: Tx, recursive: bool,
                          queue: seq<Hash>, removed: seq<Tx>, children: seq<Hash>)
    requires Consistent(pool, next)
    requires queue != [] && queue[0] in pool
    requires recursive ==> ListsSpenders(next, pool[queue[0]].tx, children)
    requires !recursive ==> children == []
    requires Descent(pool, queue, removed, root)
    ensures Descent(pool - {queue[0]}, queue[1..] + children, removed + [pool[queue[0]].tx], root)
  {
    if recursive {
      ListedSpendersSpend(pool, next, pool[queue[0]].tx, children);
    }
    DescendsAfterErase(pool, pool - {queue[0]}, queue, children, removed, root);
  }

  /**
   * Popping a pooled hash, erasing its entry and the records of its inputs
   * and queueing the spenders of its outputs (the recursive form only) keeps
   * the state of `remove`, with the erased transaction appended to `removed`.
   */
  lemma RemovingErase(pool0: Pool, next0: SpendIndex, pool: Pool, next: SpendIndex,
                      root: Tx, recursive: bool, queue: seq<Hash>, removed: seq<Tx>, children: seq<Hash>)
    requires Consistent(pool, next)
    requires Removing(pool0, next0, pool, next, root, recursive, queue, removed)
    requires queue != [] && queue[0] in pool
    requires recursive ==> ListsSpenders(next, pool[queue[0]].tx, children)
    requires !recursive ==> children == []
    ensures Removing(pool0, next0, pool - {queue[0]}, next - InputSet(pool[queue[0]].tx.vin),
                     root, recursive, queue[1..] + children, removed + [pool[queue[0]].tx])
  {
    ProgressAfterErase(pool0, next0, pool, next, removed, queue[0]);
    ShapeAfterErase(pool0, pool, root, recursive, queue, removed, children);
    CoveredAfterErase(pool0, pool, next, root, recursive, queue, removed, children);
    DescentAfterErase(pool, next, root, recursive, queue, removed, children);
  }

  /**
   * An empty queue ends `remove`: no pooled transaction spends an output of a
   * removed one, nor of `root` when the recursive form started from a `root`
   * that was not pooled.
   */
  lemma RemovingDone(pool0: Pool, next0: SpendIndex, pool: Pool, next: SpendIndex,
                     root: Tx, recursive: bool, removed: seq<Tx>)
    requires Consistent(pool, next)
    requires Removing(pool0, next0, pool, next, root, recursive, [], removed)
    ensures recursive ==> forall t, h :: t in removed && h in pool ==> !Spends(pool[h].tx, t)
    ensures recursive && root.hash !in pool0 ==> forall h :: h in pool ==> !Spends(pool[h].tx, root)
    ensures !recursive ==> removed == (if root.hash in pool0 then [pool0[root.hash].tx] else [])
  {
    if recursive {
      var parents := Roots(pool0, root, recursive) + removed;
      CoveredMeansClosed(pool, next, parents);
      if root.hash !in pool0 {
        assert parents[0] == root;
      }
    } else if removed != [] {
      assert removed == [removed[0]];
    }
  }

  /**
   * The plain `remove`: when `root`'s hash is pooled, exactly its entry and
   * the records of its inputs go; otherwise nothing changes.
   */
  lemma PlainRemoval(pool0: Pool, next0: SpendIndex, pool: Pool, next: SpendIndex, root: Tx, removed: seq<Tx>)
    requires Consistent(pool0, next0)
    requires SubPool(pool, next, pool0, next0) && RemovedFrom(pool0, pool, removed)
    requires removed == (if root.hash in pool0 then [pool0[root.hash].tx] else [])
    ensures pool == pool0 - {root.hash}
    ensures root.hash in pool0 ==> next == next0 - InputSet(pool0[root.hash].tx.vin)
    ensures root.hash !in pool0 ==> next == next0
  {
    if root.hash in pool0 {
      assert Hashes(removed) == {root.hash} by {
        assert removed[0].hash == root.hash;
      }
      PlainRemovalIndex(pool0, next0, pool, next, root.hash);
    } else {
      assert Hashes(removed) == {};
    }
    assert pool.Keys == (pool0 - {root.hash}).Keys;
  }

  /** A removal that reports nothing changed nothing. */
  lemma NothingRemoved(pool0: Pool, next0: SpendIndex, pool: Pool, next: SpendIndex)
    requires Consistent(pool0, next0)
    requires SubPool(pool, next, pool0, next0) && RemovedFrom(pool0, pool, [])
    ensures pool == pool0 && next == next0
  {
    assert Hashes([]) == {};
    assert pool.Keys == pool0.Keys;
  }

  /** Dropping the spender `h` from the spend index drops exactly the records of its inputs. */
  lemma PlainRemovalIndex(pool0: Pool, next0: SpendIndex, pool: Pool, next: SpendIndex, h: Hash)
    requires Consistent(pool0, next0) && h in pool0
    requires SubPool(pool, next, pool0, next0) && pool.Keys == pool0.Keys - {h}
    ensures next == next0 - InputSet(pool0[h].tx.vin)
  {
    var vin := pool0[h].tx.vin;
    forall op | op in next0
      ensures op in next <==> op !in InputSet(vin)
    {
      if op in InputSet(vin) {
        var i :| 0 <= i < |vin| && vin[i] == op;
        assert next0[op] == InPoint(h, i);
      }
    }
  }

  /** The pooled entries of the transactions in `vtx`, in block order. */
  function PooledEntries(pool: Pool, vtx: seq<Tx>): (r: seq<Entry>)
    ensures |r| <= |vtx|
  {
    if vtx == [] then []
    else
      var last := vtx[|vtx| - 1];
      PooledEntries(pool, vtx[..|vtx| - 1]) + (if last.hash in pool then [pool[last.hash]] else [])
  }

  /** An entry is in the snapshot exactly when it is pooled under the hash of a block transaction. */
  lemma {:induction false} PooledEntriesMembers(pool: Pool, vtx: seq<Tx>, e: Entry)
    ensures e in PooledEntries(pool, vtx) <==> exists i :: 0 <= i < |vtx| && vtx[i].hash in pool && pool[vtx[i].hash] == e
  {
    if vtx != [] {
      var init := vtx[..|vtx| - 1];
      PooledEntriesMembers(pool, init, e);
      if exists i :: 0 <= i < |init| && init[i].hash in pool && pool[init[i].hash] == e {
        var i :| 0 <= i < |init| && init[i].hash in pool && pool[init[i].hash] == e;
        assert vtx[i] == init[i];
      }
      if exists i :: 0 <= i < |vtx| && vtx[i].hash in pool && pool[vtx[i].hash] == e {
        var i :| 0 <= i < |vtx| && vtx[i].hash in pool && pool[vtx[i].hash] == e;
        if i < |vtx| - 1 { assert init[i] == vtx[i]; }
      }
    }
  }
}
