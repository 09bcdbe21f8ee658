/** The pure half of `llh_record`: which (bucket, slot) cell a 64-bit value
    belongs to, or whether it overflows every bucket. */
module Quantize {
  import opened Arith
  import opened Bits
  import opened Geometry

  /** `uint64_t`. */
  type u64 = x: nat | x < 0x1_0000_0000_0000_0000

  /** Width of the word handed to `__builtin_clzll`. */
  const WordBits: nat := 64

  /** Where `llh_record` puts a value: one counter of the table, or the
      overflow counter. */
  datatype Location = Cell(bucket: nat, slot: nat) | Overflow

  /** The value interval of slot s of bucket b, as the range macros give it:
      `[LOW(b) + s * SLOT_RANGE(b), LOW(b) + (s + 1) * SLOT_RANGE(b))`. */
  predicate InCell(v: nat, b: nat, s: nat)
    requires b < Buckets
  {
    RangeLow(b) + SlotRange(b) * s <= v < RangeLow(b) + SlotRange(b) * s + SlotRange(b)
  }

  /** The bucket `llh_record` selects for v: 0 below SlotsPerBucket,
      otherwise the binary logarithm of `v >> LLH_SCALE`; v then lies in
      [2^(b+3), 2^(b+4)). */
  function BucketOf(v: u64): (b: nat)
    ensures v < SlotsPerBucket ==> b == 0
    ensures SlotsPerBucket <= v ==> 1 <= b && Pow2(b + Scale) <= v < Pow2(b + Scale + 1)
  {
    if v < SlotsPerBucket then 0
    else
      var x := ShiftRight(v, Scale);
      ShiftBounds(v, x);
      ScaleBracket(v, x, Log2(x));
      Log2(x)
  }

  /** The bucket as `llh_record` computes it:
      `(v < LLH_SLOTS_PER_BUCKET) ? 0 : __builtin_clzll(v >> LLH_SCALE) ^ 63`. */
  function ClzBucket(v: u64): (b: nat)
    ensures b == BucketOf(v)
  {
    if v < SlotsPerBucket then 0
    else
      var x := ShiftRight(v, Scale);
      ShiftBounds(v, x);
      WordHighBitIsLog2(x);
      HighBit(x, WordBits)
  }

  /** A `uint64_t` fits in a word of WordBits bits. */
  lemma WordFits(x: nat)
    requires x < 0x1_0000_0000_0000_0000
    ensures x < Pow2(WordBits)
  {
    Pow2Of64();
  }

  /** The highest set bit of a non-zero 64-bit word is its binary
      logarithm. */
  lemma WordHighBitIsLog2(x: nat)
    requires 0 < x < 0x1_0000_0000_0000_0000
    ensures x < Pow2(WordBits)
    ensures HighBit(x, WordBits) == Log2(x)
  {
    Pow2Of64();
    Pow2Of6();
    HighBitIsLog2(x, WordBits, 6);
  }

  /** A value in an in-range bucket lies between that bucket's
      `LLH_BUCKET_RANGE_LOW` and `LLH_BUCKET_RANGE_HIGH`. */
  lemma BucketBracketsValue(v: u64)
    requires BucketOf(v) < Buckets
    ensures RangeLow(BucketOf(v)) <= v <= RangeHigh(BucketOf(v))
  {
    var b := BucketOf(v);
    if b == 0 {
      Pow2Monotone(Scale + 1, b + Scale + 1);
      assert Pow2(Scale + 1) == SlotsPerBucket;
    }
  }

  /** For v of at least 16, `v >> 3` is at least 2 and is the quotient of v
      by 8. */
  lemma ShiftBounds(v: nat, x: nat)
    requires SlotsPerBucket <= v && x == ShiftRight(v, Scale)
    ensures 2 <= x <= v && 8 * x <= v < 8 * x + 8
  {
    ShiftRightDivides(v, Scale);
    assert Pow2(Scale) == 8;
  }

  /** If 2^k <= x < 2^(k+1) and x is v divided by 8, v lies in
      [2^(k+3), 2^(k+4)). */
  lemma ScaleBracket(v: nat, x: nat, k: nat)
    requires 2 <= x && 8 * x <= v < 8 * x + 8
    requires Pow2(k) <= x < Pow2(k + 1)
    ensures 1 <= k && Pow2(k + Scale) <= v < Pow2(k + Scale + 1)
  {
    assert Pow2(Scale) == 8;
    Pow2Add(k, Scale);
    Pow2Add(k + 1, Scale);
  }

  /** Slot selection in a bucket b >= 1:
      `(v & ((1 << (b + SCALE)) - 1)) / ((1 << (b + SCALE)) / SLOTS)`, the
      offset modulo 2^(b+3) divided by the bucket's slot width. */
  function SlotOf(v: u64, b: nat): (s: nat)
    requires 1 <= b < Buckets
    ensures s == (v % Pow2(b + Scale)) / SlotRange(b)
  {
    AndLowMask(v, b + Scale);
    SlotWidth(b);
    DivBounds(BitAnd(v, Pow2(b + Scale) - 1), Pow2(b + Scale) / SlotsPerBucket);
    BitAnd(v, Pow2(b + Scale) - 1) / (Pow2(b + Scale) / SlotsPerBucket)
  }

  /** The divisor computed inline by `llh_record` is `LLH_SLOT_RANGE(b)`. */
  lemma SlotWidth(b: nat)
    requires 1 <= b < Buckets
    ensures Pow2(b + Scale) / SlotsPerBucket == SlotRange(b) == Pow2(b - 1)
  {
    SlotRangeValue(b);
        Pow2Add(b - 1, Scale + 1);
    DivModUnique(Pow2(b + Scale), SlotsPerBucket, Pow2(b - 1), 0);
  }

  /** The cell `llh_record` increments for v: in an in-range bucket, the
      slot is the offset from the bucket's low end divided by the slot width
      (v itself in bucket 0); anything above the last bucket overflows. */
  function Locate(v: u64): (r: Location)
    ensures v < SlotsPerBucket ==> r == Cell(0, v)
    ensures r.Overflow? <==> v > RangeHigh(Buckets - 1)
    ensures r.Cell? ==> r.bucket < Buckets && r.slot < SlotsPerBucket
  {
    var b := BucketOf(v);
    OverflowBoundary(v);
    if Buckets > b then
      BucketBracketsValue(v);
      Cell(b, SlotIn(v, b))
    else
      Overflow
  }

  /** The slot of an in-bucket value: the number of whole slot widths in
      its offset from the bucket's low end. It is below SlotsPerBucket and,
      in bucket 0, is the value itself. */
  function SlotIn(v: nat, b: nat): (s: nat)
    requires b < Buckets && RangeLow(b) <= v <= RangeHigh(b)
    ensures s < SlotsPerBucket
    ensures b == 0 ==> s == v
  {
    QuotBelow(v - RangeLow(b), SlotRange(b), SlotsPerBucket);
    if b == 0 then
      SlotRangeValue(b);
      QuotBracket(v, 1);
      Quot(v - RangeLow(b), SlotRange(b))
    else
      Quot(v - RangeLow(b), SlotRange(b))
  }

  /** The value lies in the interval of the cell Locate gives it. */
  lemma LocateInCell(v: u64)
    requires Locate(v).Cell?
    ensures InCell(v, Locate(v).bucket, Locate(v).slot)
  {
    var b := BucketOf(v);
    OverflowBoundary(v);
    BucketBracketsValue(v);
    QuotBracket(v - RangeLow(b), SlotRange(b));
  }

  /** Above bucket 0, the mask-and-divide computation of `llh_record` gives
      the slot Locate assigns. */
  lemma SlotOfMatches(v: u64)
    requires 1 <= BucketOf(v) < Buckets
    ensures Locate(v) == Cell(BucketOf(v), SlotOf(v, BucketOf(v)))
  {
    var b := BucketOf(v);
    var p := Pow2(b + Scale);
    assert Pow2(b + Scale + 1) == 2 * p;
    DivModUnique(v, p, 1, v - p);
    assert RangeLow(b) == p;
    OverflowBoundary(v);
    BucketBracketsValue(v);
    QuotIsDiv(v - p, SlotRange(b));
  }

  /** The computed bucket is out of range exactly above `HIGH(Buckets - 1)`. */
  lemma OverflowBoundary(v: u64)
    ensures BucketOf(v) >= Buckets <==> v > RangeHigh(Buckets - 1)
  {
    var b := BucketOf(v);
    if SlotsPerBucket <= v {
      BucketLimit(v, b);
    } else {
      Pow2Monotone(Scale + 1, Buckets + Scale);
    }
  }

  /** A value between 2^(b+3) and 2^(b+4) is below 2^27 exactly when b is
      below Buckets. */
  lemma BucketLimit(v: nat, b: nat)
    requires Pow2(b + Scale) <= v < Pow2(b + Scale + 1)
    ensures b >= Buckets <==> v >= Pow2(Buckets + Scale)
  {
    if b >= Buckets {
      Pow2Monotone(Buckets + Scale, b + Scale);
    } else {
      Pow2Monotone(b + Scale + 1, Buckets + Scale);
    }
  }

  /** A value in a cell's interval lies in that cell's bucket, and the slot
      is the number of whole slot widths in its offset in the bucket. */
  lemma InCellBounds(v: nat, b: nat, s: nat)
    requires b < Buckets && s < SlotsPerBucket && InCell(v, b, s)
    ensures RangeLow(b) <= v <= RangeHigh(b)
    ensures s == Quot(v - RangeLow(b), SlotRange(b))
  {
    SlotArithmetic(v, RangeLow(b), SlotRange(b), s);
  }

  /** The arithmetic behind InCellBounds, on plain integers: a value in the
      s-th of SlotsPerBucket slots of width w starting at lo. */
  lemma SlotArithmetic(v: int, lo: nat, w: nat, s: nat)
    requires w >= 1 && s < SlotsPerBucket
    requires lo + w * s <= v < lo + w * s + w
    ensures lo <= v <= lo + w * SlotsPerBucket - 1
    ensures s == Quot(v - lo, w)
  {
    MulMonotone(w, s + 1, SlotsPerBucket);
    assert w * (s + 1) == w * s + w;
    QuotUnique(v - lo, w, s);
  }

  /** Cells do not overlap: a value lies in at most one cell's interval. */
  lemma CellsDisjoint(v: nat, b: nat, s: nat, b': nat, s': nat)
    requires b < Buckets && b' < Buckets
    requires s < SlotsPerBucket && s' < SlotsPerBucket
    requires InCell(v, b, s) && InCell(v, b', s')
    ensures b == b' && s == s'
  {
    InCellBounds(v, b, s);
    InCellBounds(v, b', s');
    if b < b' {
      BucketsOrdered(b, b');
    } else if b' < b {
      BucketsOrdered(b', b);
    }
  }

  /** `llh_record` sends v to cell (b, s) if and only if v lies in that
      cell's value interval. */
  lemma LocateExact(v: u64, b: nat, s: nat)
    requires b < Buckets && s < SlotsPerBucket
    ensures Locate(v) == Cell(b, s) <==> InCell(v, b, s)
  {
    var r := Locate(v);
    if r.Cell? {
      LocateInCell(v);
    }
    if InCell(v, b, s) {
      InCellBounds(v, b, s);
      if b + 1 < Buckets {
        BucketsOrdered(b, Buckets - 1);
      }
      CellsDisjoint(v, b, s, r.bucket, r.slot);
    }
  }

  /** The first value of slot i of bucket b, the value the unit tests record:
      `i * LLH_SLOT_RANGE(b) + LLH_BUCKET_RANGE_LOW(b)`. */
  function SlotStart(b: nat, i: nat): u64
    requires b < Buckets && i < SlotsPerBucket
  {
    SlotStartInBucket(b, i);
    RangeLow(b) + SlotRange(b) * i
  }

  lemma SlotStartInBucket(b: nat, i: nat)
    requires b < Buckets && i < SlotsPerBucket
    ensures RangeLow(b) <= RangeLow(b) + SlotRange(b) * i <= RangeHigh(b)
    ensures 0 <= RangeLow(b) + SlotRange(b) * i < 0x1_0000_0000_0000_0000
  {
    var w := SlotRange(b);
    SlotArithmetic(RangeLow(b) + w * i, RangeLow(b), w, i);
    LastBucketFitsWord();
    if b + 1 < Buckets {
      BucketsOrdered(b, Buckets - 1);
    }
  }

  /** Every in-range value fits in a `uint64_t`. */
  lemma LastBucketFitsWord()
    ensures RangeHigh(Buckets - 1) < 0x1_0000_0000_0000_0000
  {
    Pow2Monotone(Buckets + Scale, WordBits);
    Pow2Of64();
  }

  /** Coverage: the first value of every slot of every bucket is recorded in
      exactly that slot. */
  lemma SlotStartLocates(b: nat, i: nat)
    requires b < Buckets && i < SlotsPerBucket
    ensures Locate(SlotStart(b, i)) == Cell(b, i)
  {
    LocateExact(SlotStart(b, i), b, i);
  }
}
