/** Values shared by the memory pool, the coin-view overlay and the sample buffers. */
module Types {

  datatype Option<T> = None | Some(value: T)

  /** 2^32: the range of the source's `unsigned int` counters. */
  const U32: nat := 0x1_0000_0000

  /** `+= k` on an `unsigned int`: wraps around modulo 2^32. */
  function AddU32(a: nat, k: nat): (r: nat)
    ensures r < U32
    ensures a + k < U32 ==> r == a + k
  {
    (a + k) % U32
  }

  /**
   * A count kept without bound and read modulo 2^32 moves exactly as a
   * 32-bit counter that is added to with wrap-around.
   */
  lemma AddU32Mod(count: nat, k: nat)
    ensures (count + k) % U32 == AddU32(count % U32, k)
  {
  }

  /** A 256-bit transaction hash, kept abstract. */
  type Hash = nat

  /** `COutPoint`: output `n` of the transaction with hash `hash`. */
  datatype OutPoint = OutPoint(hash: Hash, n: nat)

  /**
   * A transaction as the pool sees it: its hash, the outpoints its inputs
   * spend (`vin[i].prevout`), how many outputs it has and its serialized size.
   */
  datatype Tx = Tx(hash: Hash, vin: seq<OutPoint>, voutCount: nat, size: nat)

  /**
   * `CTxMemPoolEntry`. The serialized size is fixed at construction; here it is
   * the transaction's own `size`.
   */
  datatype Entry = Entry(tx: Tx, fee: int, time: int, priority: real, height: nat, hadNoDependencies: bool)
  {
    function TxSize(): (n: nat) { tx.size }
  }

  /** `CInPoint` with the raw pointer replaced by the spender's hash: input `n` of `spender`. */
  datatype InPoint = InPoint(spender: Hash, n: nat)

  /** A `mapDeltas` value: the (priority, fee) override for one hash. */
  datatype Delta = Delta(priority: real, fee: int)

  /**
   * What a coin view knows about the outputs of one transaction: which
   * outputs are still unspent, whether it is a coinbase or coinstake and the
   * height of the block that holds it.
   */
  datatype Coins = Coins(available: seq<bool>, isCoinBaseOrStake: bool, height: int)
  {
    /** `CCoins::IsPruned`: no output is left unspent. */
    predicate IsPruned() { forall i :: 0 <= i < |available| ==> !available[i] }
  }

  /** The set of outpoints a list of inputs spends. */
  function InputSet(vin: seq<OutPoint>): (s: set<OutPoint>)
    ensures forall i :: 0 <= i < |vin| ==> vin[i] in s
    ensures forall op :: op in s ==> exists i :: 0 <= i < |vin| && vin[i] == op
  {
    set i | 0 <= i < |vin| :: vin[i]
  }

  /** The hashes of a list of transactions. */
  function Hashes(txs: seq<Tx>): (s: set<Hash>)
    ensures forall i :: 0 <= i < |txs| ==> txs[i].hash in s
    ensures forall h :: h in s ==> exists i :: 0 <= i < |txs| && txs[i].hash == h
  {
    set i | 0 <= i < |txs| :: txs[i].hash
  }

  /** No outpoint is spent twice by the same transaction. */
  predicate DistinctInputs(vin: seq<OutPoint>)
  {
    forall i, j :: 0 <= i < j < |vin| ==> vin[i] != vin[j]
  }

  /** `child` has an input that spends one of the outputs `parent` has. */
  ghost predicate Spends(child: Tx, parent: Tx)
  {
    exists i :: 0 <= i < |child.vin| && child.vin[i].hash == parent.hash && child.vin[i].n < parent.voutCount
  }
}
