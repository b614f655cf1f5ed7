/** The 64 log2 reuse-distance buckets: the kernel's index, the controller's bounds and the
    post-processing scripts' bounds and inverse. */
module Buckets {
  import opened Machine

  const BUCKETS: nat := 64

  /** One counter per bucket. */
  type Histogram = h: seq<nat> | |h| == BUCKETS witness seq(BUCKETS, i => 0)

  /** `fls64` in the kernel and `int.bit_length` in Python: position of the highest set bit, from 1. */
  function BitLength(n: nat): (k: nat)
    ensures k == 0 <==> n == 0
  {
    if n == 0 then 0 else 1 + BitLength(n / 2)
  }

  function Log2Bucket(delta: u64): (b: nat)
    ensures b < BUCKETS
  {
    if delta == 0 then 0
    else if BitLength(delta) >= BUCKETS then BUCKETS - 1
    else BitLength(delta)
  }

  function BucketLo(b: nat): nat {
    if b == 0 then 0 else if b == 1 then 1 else Pow2(b - 1)
  }

  function BucketHi(b: nat): int {
    if b == 0 then 0 else if b == 1 then 1
    else if b >= 63 then U64_LIMIT - 1
    else Pow2(b) - 1
  }

  // ----- post-processing -----

  datatype Bounds = Bounds(lo: int, hi: int)

  /** Bounds that `resolve_dwarf_pairs.py` writes for a raw event's bucket. */
  function PyBounds(b: nat): Bounds {
    if b == 1 then Bounds(1, 1)
    else if b == 0 then Bounds(0, 0)
    else Bounds(Pow2(b - 1), Pow2(b) - 1)
  }

  function PyIndex(bounds: Bounds): nat
    requires bounds.lo >= 0
  {
    if bounds == Bounds(0, 0) then 0
    else if bounds == Bounds(1, 1) then 1
    else BitLength(bounds.lo)
  }

  /** `bucket_for_delta` of `plot_rd_hist.py`. */
  function PyBucketForDelta(delta: int): Bounds {
    if delta <= 0 then Bounds(0, 0)
    else if delta == 1 then Bounds(1, 1)
    else var lo := Pow2(BitLength(delta) - 1); Bounds(lo, 2 * lo - 1)
  }

  // ----- properties -----

  /** `BitLength` is the only k with 2^(k-1) <= n < 2^k. */
  lemma {:induction false} BitLengthExact(n: nat, k: nat)
    requires n > 0 && k > 0
    ensures BitLength(n) == k <==> Pow2(k - 1) <= n < Pow2(k)
  {
    if n == 1 {
      assert BitLength(1) == 1;
      if k > 1 {
        Pow2Grows(1, k - 1);
      }
    } else if k > 1 {
      BitLengthExact(n / 2, k - 1);
    }
  }

  lemma TopBucket(delta: u64)
    requires delta > 0
    ensures Pow2(62) <= delta <==> BitLength(delta) >= 63
  {
    hide Pow2, BitLength;
    var length := BitLength(delta);
    BitLengthExact(delta, length);
    if length >= 63 {
      Pow2Grows(62, length - 1);
    } else {
      Pow2Grows(length, 62);
    }
  }

  /** The buckets partition all of u64: a delta lies within the bounds of exactly the bucket the
      kernel files it under. */
  lemma BucketsPartition(delta: u64, b: nat)
    requires b < BUCKETS
    ensures BucketLo(b) <= delta <= BucketHi(b) <==> b == Log2Bucket(delta)
    ensures b == Log2Bucket(delta) <==>
              if b == 0 then delta == 0 else Pow2(b - 1) <= delta && (b == 63 || delta < Pow2(b))
  {
    assert Pow2(0) == 1 && Pow2(1) == 2;
    hide Pow2, BitLength;
    if delta == 0 {
      if b >= 2 {
        Pow2Grows(0, b - 1);
      }
    } else {
      TopBucket(delta);
      if b == 0 || b == 63 {
        BitLengthExact(delta, BitLength(delta));
      } else {
        BitLengthExact(delta, b);
      }
    }
  }

  /** Bounds and index are inverse on every bucket, including the last. */
  lemma PyIndexInverse(b: nat)
    ensures PyIndex(PyBounds(b)) == b
  {
    if b >= 2 {
      Pow2Grows(1, b - 1);
      Pow2Grows(b - 1, b);
      BitLengthExact(Pow2(b - 1), b);
    }
  }

  /** The scripts' bounds agree with the controller's on buckets 0..62 and differ on bucket 63. */
  lemma PyBoundsAgree(b: nat)
    requires b < BUCKETS
    ensures PyBounds(b) == Bounds(BucketLo(b), BucketHi(b)) <==> b <= 62
  {
    TopPowers();
  }

  /** The plotting script files a delta under the controller's bounds exactly when it is below 2^62. */
  lemma PyBucketForDeltaAgrees(delta: u64)
    ensures PyBucketForDelta(delta) == Bounds(BucketLo(Log2Bucket(delta)), BucketHi(Log2Bucket(delta)))
       <==> delta < Pow2(62)
  {
    TopPowers();
    assert Pow2(0) == 1 && Pow2(1) == 2;
    hide Pow2, BitLength;
    if delta > 1 {
      var length := BitLength(delta);
      TopBucket(delta);
      BitLengthExact(delta, 1);
      BitLengthExact(delta, length);
      DoubledPower(length);
      if length >= 63 {
        TopBoundsDiffer(delta);
      }
    } else if delta == 1 {
      BitLengthExact(1, 1);
    }
  }

  lemma DoubledPower(k: nat)
    ensures k > 0 ==> Pow2(k) == 2 * Pow2(k - 1)
  {
  }

  /** The plotting script's bounds are never those of the controller's last bucket. */
  lemma TopBoundsDiffer(delta: u64)
    requires BitLength(delta) >= 63
    ensures PyBucketForDelta(delta) != Bounds(Pow2(62), U64_LIMIT - 1)
  {
    TopPowers();
    hide Pow2, BitLength;
  }

  /** `log2_buckets_through`: the gap-free list of buckets 0, 1, 2, ... up to the first one, from
      bucket 2 on, that reaches `delta`. */
  method Log2BucketsThrough(delta: int) returns (buckets: seq<Bounds>)
    ensures |buckets| >= 3
    ensures forall b :: 0 <= b < |buckets| ==> buckets[b] == PyBounds(b)
    ensures forall b :: 0 < b < |buckets| ==> buckets[b].lo == buckets[b - 1].hi + 1
    ensures delta <= buckets[|buckets| - 1].hi
    ensures |buckets| > 3 ==> buckets[|buckets| - 2].hi < delta
  {
    buckets := [Bounds(0, 0), Bounds(1, 1)];
    var lo := 2;
    var target := if delta < 1 then 1 else delta;
    while true
      invariant |buckets| >= 2 && lo == Pow2(|buckets| - 1) && lo >= |buckets|
      invariant forall b :: 0 <= b < |buckets| ==> buckets[b] == PyBounds(b)
      invariant |buckets| > 2 ==> buckets[|buckets| - 1].hi < target
      invariant forall b :: 0 < b < |buckets| ==> buckets[b].lo == buckets[b - 1].hi + 1
      decreases target - lo
    {
      var hi := 2 * lo - 1;
      assert Pow2(|buckets|) == 2 * lo;
      assert buckets[|buckets| - 1].hi == lo - 1;
      buckets := buckets + [Bounds(lo, hi)];
      if hi >= target {
        return;
      }
      lo := 2 * lo;
    }
  }
}
