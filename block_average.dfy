/**
 * `CBlockAverage`: the fee and priority samples of recently confirmed
 * transactions, each in a circular buffer of 100 that drops its oldest
 * sample when full, and the sanity checks applied when they are read back.
 */
module FeeSamples {

  /** The capacity of each circular buffer. */
  const CAPACITY: nat := 100

  /** The newest `CAPACITY` elements of `u`, or all of them. */
  function Newest<T>(u: seq<T>): (r: seq<T>)
  {
    if |u| <= CAPACITY then u else u[|u| - CAPACITY..]
  }

  /** `push_back` on a circular buffer of `CAPACITY`: when it is full the oldest sample goes. */
  function PushBack<T>(s: seq<T>, x: T): (r: seq<T>)
    requires |s| <= CAPACITY
    ensures |r| == if |s| < CAPACITY then |s| + 1 else CAPACITY
    ensures r[|r| - 1] == x
    ensures r == Newest(s + [x])
  {
    if |s| < CAPACITY then s + [x] else s[1..] + [x]
  }

  /** `push_back` of each of `xs` in turn. */
  function PushAll<T>(s: seq<T>, xs: seq<T>): (r: seq<T>)
    requires |s| <= CAPACITY
    ensures |r| <= CAPACITY
  {
    if xs == [] then s else PushBack(PushAll(s, xs[..|xs| - 1]), xs[|xs| - 1])
  }

  lemma PushBackNewest<T>(u: seq<T>, x: T)
    ensures PushBack(Newest(u), x) == Newest(u + [x])
  {
    if |u| >= CAPACITY {
      assert Newest(u)[1..] + [x] == (u + [x])[|u| + 1 - CAPACITY..];
    }
  }

  /**
   * Pushing samples one by one, as the range insert at the end of a
   * circular buffer does, leaves the newest `CAPACITY` of old and new
   * samples together.
   */
  lemma {:induction false} PushAllKeepsNewest<T>(s: seq<T>, xs: seq<T>)
    requires |s| <= CAPACITY
    ensures PushAll(s, xs) == Newest(s + xs)
  {
    if xs != [] {
      var init, x := xs[..|xs| - 1], xs[|xs| - 1];
      PushAllKeepsNewest(s, init);
      PushBackNewest(s + init, x);
      assert s + xs == (s + init) + [x];
    }
  }

  /** Reading back what `Write` wrote into empty buffers restores every sample. */
  lemma ReadRestoresWritten<T>(samples: seq<T>)
    requires |samples| <= CAPACITY
    ensures PushAll([], samples) == samples
  {
    PushAllKeepsNewest([], samples);
    assert [] + samples == samples;
  }

  /** The array slot of the `i`-th oldest sample of a ring whose oldest sample sits at `first`. */
  function Slot(first: nat, i: nat): (k: nat)
    requires first < CAPACITY && i < CAPACITY
    ensures k < CAPACITY
    ensures k % CAPACITY == (first + i) % CAPACITY
  {
    if first + i < CAPACITY then first + i else first + i - CAPACITY
  }

  /** `boost::circular_buffer` of capacity `CAPACITY` over a fixed array. */
  class Ring<T(0)> {
    const buf: array<T>
    var first: nat
    var count: nat
    /** The samples, oldest first. */
    ghost var Samples: seq<T>

    ghost predicate Valid()
      reads this, buf
    {
      && buf.Length == CAPACITY
      && first < CAPACITY
      && count <= CAPACITY
      && |Samples| == count
      && forall i :: 0 <= i < count ==> Samples[i] == buf[Slot(first, i)]
    }

    constructor ()
      ensures Valid() && Samples == [] && fresh(buf)
    {
      buf := new T[CAPACITY];
      first, count := 0, 0;
      Samples := [];
    }

    /** `size`. */
    function Size(): (n: nat)
      reads this, buf
      requires Valid()
      ensures n == |Samples| && n <= CAPACITY
    {
      count
    }

    /** `push_back`: overwrites the oldest sample when the buffer is full. */
    method Push(x: T)
      requires Valid()
      modifies this, buf
      ensures Valid()
      ensures Samples == PushBack(old(Samples), x)
    {
      if count < CAPACITY {
        buf[Slot(first, count)] := x;
        count := count + 1;
      } else {
        buf[first] := x;
        first := if first + 1 < CAPACITY then first + 1 else 0;
      }
      Samples := PushBack(Samples, x);
    }

    /** `insert(end(), v.begin(), v.end())`: pushes the samples of `xs` in order. */
    method PushSeq(xs: seq<T>)
      requires Valid()
      modifies this, buf
      ensures Valid()
      ensures Samples == PushAll(old(Samples), xs)
    {
      for i := 0 to |xs|
        invariant Valid()
        invariant Samples == PushAll(old(Samples), xs[..i])
      {
        assert xs[..i + 1][..i] == xs[..i];
        Push(xs[i]);
      }
      assert xs[..|xs|] == xs;
    }

    /** `buf2vec`: the samples, oldest first. */
    method ToSeq() returns (v: seq<T>)
      requires Valid()
      ensures v == Samples
    {
      v := [];
      for i := 0 to count
        invariant v == Samples[..i]
      {
        v := v + [buf[Slot(first, i)]];
      }
    }
  }

  /** `AreSane(fee, minRelayFee)`: a fee rate per 1000 bytes that is not negative and at most 10000 times the relay minimum. */
  predicate FeeIsSane(feePerK: int, minRelayFeePerK: int)
  {
    !(feePerK < 0) && !(feePerK > minRelayFeePerK * 10000)
  }

  /** `AreSane(priority)`: a priority that is not negative. */
  predicate PriorityIsSane(priority: real)
  {
    priority >= 0.0
  }

  /** `AreSane(vecFee, minRelayFee)`: true exactly when every fee rate is sane. */
  method FeesAreSane(vecFee: seq<int>, minRelayFeePerK: int) returns (b: bool)
    ensures b <==> forall i :: 0 <= i < |vecFee| ==> FeeIsSane(vecFee[i], minRelayFeePerK)
  {
    for i := 0 to |vecFee|
      invariant forall j :: 0 <= j < i ==> FeeIsSane(vecFee[j], minRelayFeePerK)
    {
      if !FeeIsSane(vecFee[i], minRelayFeePerK) {
        return false;
      }
    }
    return true;
  }

  /** `AreSane(vecPriority)`: true exactly when every priority is sane. */
  method PrioritiesAreSane(vecPriority: seq<real>) returns (b: bool)
    ensures b <==> forall i :: 0 <= i < |vecPriority| ==> PriorityIsSane(vecPriority[i])
  {
    for i := 0 to |vecPriority|
      invariant forall j :: 0 <= j < i ==> PriorityIsSane(vecPriority[j])
    {
      if !PriorityIsSane(vecPriority[i]) {
        return false;
      }
    }
    return true;
  }

  /** How `Read` ends: both batches loaded, or the exception it throws. */
  datatype ReadOutcome = Loaded | CorruptFee | CorruptPriority

  class BlockAverage {
    /** Fee rates per 1000 bytes. */
    const feeSamples: Ring<int>
    const prioritySamples: Ring<real>

    ghost predicate Valid()
      reads this, feeSamples, feeSamples.buf, prioritySamples, prioritySamples.buf
    {
      feeSamples.Valid() && prioritySamples.Valid()
    }

    constructor ()
      ensures Valid()
      ensures feeSamples.Samples == [] && prioritySamples.Samples == []
      ensures fresh(feeSamples) && fresh(feeSamples.buf) && fresh(prioritySamples) && fresh(prioritySamples.buf)
    {
      feeSamples := new Ring<int>();
      prioritySamples := new Ring<real>();
    }

    /** `RecordFee`. */
    method RecordFee(feePerK: int)
      requires Valid()
      modifies feeSamples, feeSamples.buf
      ensures Valid()
      ensures feeSamples.Samples == PushBack(old(feeSamples.Samples), feePerK)
    {
      feeSamples.Push(feePerK);
    }

    /** `RecordPriority`. */
    method RecordPriority(priority: real)
      requires Valid()
      modifies prioritySamples, prioritySamples.buf
      ensures Valid()
      ensures prioritySamples.Samples == PushBack(old(prioritySamples.Samples), priority)
    {
      prioritySamples.Push(priority);
    }

    /** `GetFeeSamples`: appends the fee samples, oldest first, and returns their number. */
    method GetFeeSamples(insertInto: seq<int>) returns (r: seq<int>, n: nat)
      requires Valid()
      ensures r == insertInto + feeSamples.Samples && n == |feeSamples.Samples|
    {
      var v := feeSamples.ToSeq();
      r, n := insertInto + v, feeSamples.Size();
    }

    /** `GetPrioritySamples`: appends the priority samples, oldest first, and returns their number. */
    method GetPrioritySamples(insertInto: seq<real>) returns (r: seq<real>, n: nat)
      requires Valid()
      ensures r == insertInto + prioritySamples.Samples && n == |prioritySamples.Samples|
    {
      var v := prioritySamples.ToSeq();
      r, n := insertInto + v, prioritySamples.Size();
    }

    /** `Write`: the two vectors it serializes, fees first. */
    method Write() returns (vecFee: seq<int>, vecPriority: seq<real>)
      requires Valid()
      ensures vecFee == feeSamples.Samples && vecPriority == prioritySamples.Samples
    {
      vecFee := feeSamples.ToSeq();
      vecPriority := prioritySamples.ToSeq();
    }

    /**
     * `Read`, given the two vectors it deserializes: appends the fee batch if
     * every fee is sane and fails otherwise; then likewise the priority
     * batch. A corrupt priority batch leaves the fees already appended.
     */
    method Read(vecFee: seq<int>, vecPriority: seq<real>, minRelayFeePerK: int) returns (outcome: ReadOutcome)
      requires Valid()
      modifies feeSamples, feeSamples.buf, prioritySamples, prioritySamples.buf
      ensures Valid()
      ensures outcome == CorruptFee <==> !forall i :: 0 <= i < |vecFee| ==> FeeIsSane(vecFee[i], minRelayFeePerK)
      ensures outcome == Loaded <==>
        (forall i :: 0 <= i < |vecFee| ==> FeeIsSane(vecFee[i], minRelayFeePerK))
        && (forall i :: 0 <= i < |vecPriority| ==> PriorityIsSane(vecPriority[i]))
      ensures feeSamples.Samples == if outcome == CorruptFee then old(feeSamples.Samples) else PushAll(old(feeSamples.Samples), vecFee)
      ensures prioritySamples.Samples ==
        if outcome == Loaded then PushAll(old(prioritySamples.Samples), vecPriority) else old(prioritySamples.Samples)
    {
      var feesSane := FeesAreSane(vecFee, minRelayFeePerK);
      if !feesSane {
        return CorruptFee;
      }
      feeSamples.PushSeq(vecFee);
      var prioritiesSane := PrioritiesAreSane(vecPriority);
      if !prioritiesSane {
        return CorruptPriority;
      }
      prioritySamples.PushSeq(vecPriority);
      return Loaded;
    }
  }
}
