/** The fixed shape of a logarithmic-linear histogram: the number of buckets
    and slots, the scale constant, and the value range of every bucket and
    slot (the `LLH_BUCKET_RANGE_LOW`, `LLH_BUCKET_RANGE_HIGH`,
    `LLH_SLOT_RANGE` and `LLH_SCALE` macros). */
module Geometry {
  import opened Arith
  import opened Bits

  /** `LLH_BUCKETS`: logarithmic buckets per histogram. */
  const Buckets: nat := 24

  /** `LLH_SLOTS_PER_BUCKET`: linear slots per bucket. */
  const SlotsPerBucket: nat := 16

  /** `LLH_SCALE`: the shift relating bucket boundaries to the slot count. */
  const Scale: nat := 3

  /** `LLH_SCALE` is `__builtin_ctz(LLH_SLOTS_PER_BUCKET) - 1`, so bucket 0
      covers 2^(Scale + 1) values, exactly one per slot. */
  lemma ScaleFromSlots()
    ensures Scale == TrailingZeros(SlotsPerBucket) - 1
    ensures Pow2(Scale) * 2 == SlotsPerBucket
  {
  }

  /** The range macros shift the C `int` constant 1; such a shift is defined
      only while the result stays below 2^31. */
  predicate RangeMacrosDefined(b: nat)
  {
    b + Scale + 1 < 31
  }

  /** `LLH_BUCKET_RANGE_LOW(b)`. */
  function RangeLow(b: nat): (lo: nat)
    requires RangeMacrosDefined(b)
    ensures b == 0 ==> lo == 0
    ensures b > 0 ==> lo == Pow2(b - 1) * SlotsPerBucket
  {
    if b == 0 then 0
    else
      Pow2Add(b - 1, Scale + 1);
      SlotsAsPower();
      Pow2(b + Scale)
  }

  /** `LLH_BUCKET_RANGE_HIGH(b)`. */
  function RangeHigh(b: nat): (hi: nat)
    requires RangeMacrosDefined(b)
    ensures hi + 1 == Pow2(b) * SlotsPerBucket
  {
    Pow2Add(b, Scale + 1);
    SlotsAsPower();
    Pow2(b + Scale + 1) - 1
  }

  /** SlotsPerBucket is 2^(Scale + 1). */
  lemma SlotsAsPower()
    ensures Pow2(Scale + 1) == SlotsPerBucket
  {
    assert Pow2(4) == 16;
  }

  /** The width of bucket b, `HIGH(b) - LOW(b) + 1`: SlotsPerBucket values
      in bucket 0, 2^(b+Scale) = 2^(b-1) * SlotsPerBucket values above. */
  lemma {:induction false} BucketWidth(b: nat)
    requires RangeMacrosDefined(b)
    ensures RangeHigh(b) - RangeLow(b) + 1
         == (if b == 0 then 1 else Pow2(b - 1)) * SlotsPerBucket
  {
    assert Pow2(Scale + 1) == SlotsPerBucket by {
      assert Pow2(4) == 16;
    }
    if b > 0 {
      Pow2Add(b - 1, Scale + 1);
      assert Pow2(b + Scale + 1) == 2 * Pow2(b + Scale);
    }
  }

  /** `LLH_SLOT_RANGE(b)`: the bucket width divides exactly into
      SlotsPerBucket slots, of one value each in bucket 0 and of 2^(b-1)
      values each in bucket b > 0. */
  function SlotRange(b: nat): (w: nat)
    requires RangeMacrosDefined(b)
    ensures w >= 1
    ensures w * SlotsPerBucket == RangeHigh(b) - RangeLow(b) + 1
  {
    BucketWidth(b);
    SlotRangeValue(b);
    (RangeHigh(b) - RangeLow(b) + 1) / SlotsPerBucket
  }

  /** The slot width is one in bucket 0 and 2^(b-1) in bucket b > 0. */
  lemma SlotRangeValue(b: nat)
    requires RangeMacrosDefined(b)
    ensures (RangeHigh(b) - RangeLow(b) + 1) / SlotsPerBucket == if b == 0 then 1 else Pow2(b - 1)
  {
    BucketWidth(b);
    DivModUnique(RangeHigh(b) - RangeLow(b) + 1, SlotsPerBucket, if b == 0 then 1 else Pow2(b - 1), 0);
  }

  /** The first bucket starts at zero and every bucket ends just before the
      next one starts. */
  lemma {:induction false} BucketsTile(b: nat)
    requires b + 1 < Buckets
    ensures RangeLow(0) == 0
    ensures RangeLow(b) <= RangeHigh(b)
    ensures RangeHigh(b) + 1 == RangeLow(b + 1)
  {
    Pow2StrictlyIncreasing(b + Scale, b + Scale + 1);
  }

  /** The last bucket ends at 2^27 - 1, the largest value that does not
      overflow. */
  lemma LastBucketHigh()
    ensures RangeHigh(Buckets - 1) == Pow2(Buckets + Scale) - 1 == 0x800_0000 - 1
  {
    Pow2Add(20, 7);
    Pow2Add(10, 10);
    Pow2Add(5, 5);
    Pow2Add(2, 5);
  }

  /** A bucket that lies wholly below another ends before the other begins. */
  lemma {:induction false} BucketsOrdered(b: nat, c: nat)
    requires b < c < Buckets
    ensures RangeHigh(b) < RangeLow(c)
  {
    if b + Scale + 1 < c + Scale {
      Pow2StrictlyIncreasing(b + Scale + 1, c + Scale);
    }
  }
}
