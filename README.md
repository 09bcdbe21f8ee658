# llh: a verified model of the logarithmic-linear histogram

`llh` is a single C header (`include/llh.h`). It defines a histogram of
`uint64_t` samples: 24 logarithmic buckets of 16 linear slots each, every
slot a `uint32_t` counter, plus one counter for values above the last bucket.
`llh_record` picks the cell of a value with a count-leading-zeros trick and a
mask-and-divide, then increments that cell (or the overflow counter). Three
`llh_population_get` overloads and `llh_overflows_get` read the counters back.

The model follows the header's own split:

- `arith.dfy` (module `Arith`): quotient and remainder facts the solver needs
  once a divisor is not a literal, and `Quot`, the number of whole widths in
  an offset.
- `bits.dfy` (module `Bits`): the bit-level primitives as functions on
  naturals (`>>`, `__builtin_clzll`, `__builtin_ctz`, `&`, `^`) and their
  arithmetic meaning: shift is division by 2^n, `clz ^ 63` is the binary
  logarithm, AND with a low mask is a remainder.
- `geometry.dfy` (module `Geometry`): `LLH_BUCKETS`, `LLH_SLOTS_PER_BUCKET`,
  `LLH_SCALE` and the range macros, with the tiling of the value range.
- `quantize.dfy` (module `Quantize`): the pure half of `llh_record`. It has
  the bucket and slot the C expressions compute (`ClzBucket`, `SlotOf`), the
  cell a value belongs to by the range macros (`Locate`), and proofs that
  the two agree.
- `counters.dfy` (module `Counters`): the counter table as a value. It covers
  what one record does to it, what the readers add up, conservation of
  events, and the unit-test scenarios of `test/llh.c` stated as lemmas.
- `llh.dfy` (module `Llh`): `struct _llh` as a class over an `array2<u32>`.
  `Record` updates the array in place. `Population` and `BucketPopulation`
  add the counters up in loops. Each method is specified by the value model.
- `scenarios.dfy` (module `Scenarios`): the unit tests of `test/llh.c`
  written against the class. Each builds a histogram, records the test's
  values and reads back the counters the test inspects.

Counters are 32-bit: an increment is `(x + 1) % 2^32` (`Counters.Increment`).
The readers sum into a `uint64_t`; `PopulationFits` shows that sum cannot wrap.

## Model

| member | source | states |
|---|---|---|
| Geometry.RangeLow | include/llh.h:39 | `LLH_BUCKET_RANGE_LOW(b)` is 0 for bucket 0 and 2^(b-1) * 16 for b > 0: bucket b > 0 starts at 16 values of width 2^(b-1) |
| Geometry.RangeHigh | include/llh.h:42 | `LLH_BUCKET_RANGE_HIGH(b) + 1` is 2^b * 16: bucket b ends just below 16 slots of width 2^b |
| Geometry.ScaleFromSlots | include/llh.h:91 | `LLH_SCALE` is `ctz(16) - 1` = 3, and 2 * 2^SCALE = 16, so bucket 0 holds one value per slot |
| Geometry.BucketWidth | include/llh.h:39-42 | `HIGH(b) - LOW(b) + 1` is 16 values in bucket 0 and 2^(b-1) * 16 values in bucket b > 0 |
| Geometry.SlotRange | include/llh.h:45 | `LLH_SLOT_RANGE(b)` is at least 1, and 16 slots of that width cover the bucket exactly: the division leaves no remainder |
| Geometry.SlotRangeValue | include/llh.h:45 | the slot width is 1 in bucket 0 and 2^(b-1) in bucket b > 0 |
| Geometry.BucketsTile | include/llh.h:39-42 | `LOW(0) = 0`, `LOW(b) <= HIGH(b)` and `HIGH(b) + 1 = LOW(b + 1)`: buckets tile the range without gap or overlap |
| Geometry.BucketsOrdered | include/llh.h:39-42 | a bucket ends before any later bucket begins |
| Geometry.LastBucketHigh | include/llh.h:42 | `HIGH(23)` is 2^27 - 1 |
| Bits.ShiftRightDivides | include/llh.h:116 | `x >> n` is `x / 2^n` |
| Bits.Log2 | include/llh.h:116 | the binary logarithm k of x >= 1 satisfies 2^k <= x < 2^(k+1) |
| Bits.Log2Unique | include/llh.h:116 | that bracket determines the logarithm uniquely |
| Bits.BitLengthBracket | include/llh.h:112-113 | a non-zero x has its highest set bit at position `BitLength(x) - 1` |
| Bits.LeadingZerosBracket | include/llh.h:112-113 | for 0 < x < 2^w, `clz(x)` < w and x lies in [2^(w-1-clz), 2^(w-clz)) |
| Bits.LeadingZerosIsLog | include/llh.h:112-113 | `clz(x)` on a w-bit word is `w - 1 - floor(log2 x)` |
| Bits.XorAllOnes | include/llh.h:114 | for x < 2^k, `x ^ (2^k - 1)` is `2^k - 1 - x` |
| Bits.HighBitBracket | include/llh.h:114-116 | on a word of 2^j bits, `clz(x) ^ (w - 1)` is the index of the highest set bit of x |
| Bits.HighBitIsLog2 | include/llh.h:114-116 | that index is `floor(log2 x)` |
| Bits.AndLowMask | include/llh.h:121-124 | `x & (2^k - 1)` is `x mod 2^k` |
| Quantize.BucketOf | include/llh.h:116 | values below 16 go to bucket 0; any other v goes to b = floor(log2(v >> 3)) >= 1 with 2^(b+3) <= v < 2^(b+4) |
| Quantize.ClzBucket | include/llh.h:116 | for every 64-bit value, the C expression `v < 16 ? 0 : clzll(v >> 3) ^ 63` equals `BucketOf`, the binary logarithm of `v >> 3` (0 below 16) |
| Quantize.WordHighBitIsLog2 | include/llh.h:116 | for 0 < x < 2^64, `clzll(x) ^ 63` is `floor(log2 x)` |
| Quantize.BucketBracketsValue | include/llh.h:116-117 | when the computed bucket is in range, `LOW(b) <= v <= HIGH(b)` |
| Quantize.OverflowBoundary | include/llh.h:117 | the computed bucket is at least 24 exactly when v > `HIGH(23)` |
| Quantize.SlotOf | include/llh.h:134 | the mask-and-divide slot is `(v mod 2^(b+3)) / LLH_SLOT_RANGE(b)` |
| Quantize.SlotWidth | include/llh.h:134 | the inline divisor `(1 << (b + 3)) / 16` is `LLH_SLOT_RANGE(b)`, which is 2^(b-1) |
| Quantize.Locate | include/llh.h:116-146 | a value below 16 goes to cell (0, v); a value overflows exactly when v > `HIGH(23)`; otherwise both indices are in bounds |
| Quantize.SlotIn | include/llh.h:131-134 | the slot of an in-bucket value is below 16, and in bucket 0 it is the value itself |
| Quantize.LocateInCell | include/llh.h:116-134 | the value lies in `[LOW(b) + s * SLOT_RANGE(b), LOW(b) + (s + 1) * SLOT_RANGE(b))` of the cell it is sent to |
| Quantize.SlotOfMatches | include/llh.h:131-134 | in buckets 1 to 23, the C mask-and-divide slot is the slot `Locate` assigns |
| Quantize.InCellBounds | include/llh.h:39-45 | a value in a cell's interval lies in that bucket's range, and the slot is its offset divided by the slot width |
| Quantize.CellsDisjoint | include/llh.h:39-45 | no value lies in the intervals of two different cells |
| Quantize.LocateExact | include/llh.h:116-134 | `llh_record` sends v to cell (b, s) if and only if v lies in that cell's interval |
| Quantize.SlotStartInBucket | test/llh.c:63 | `LOW(b) + i * SLOT_RANGE(b)` lies within bucket b and fits a `uint64_t` |
| Quantize.SlotStartLocates | test/llh.c:62-64 | recording `LOW(b) + i * SLOT_RANGE(b)` hits cell (b, i), for every b < 24 and i < 16 |
| Counters.Increment | include/llh.h:136-145 | an increment adds one, and wraps from 2^32 - 1 to 0 |
| Counters.Empty | include/llh.h:30 | `LLH_INIT` zeroes every cell and the overflow counter |
| Counters.Record | include/llh.h:103-150 | the counter of the value's cell goes up by one if the value is in range, otherwise the overflow counter does; every other counter is unchanged |
| Counters.PopulationFits | include/llh.h:153-170 | the sums the readers form are at most 384 * (2^32 - 1) < 2^64, so the `uint64_t` accumulators never wrap |
| Counters.InitIsEmpty | test/llh.c:16-31 | a fresh histogram has population 0 and no overflows |
| Counters.RecordAddsOne | include/llh.h:117-147 | one record raises population plus overflows by exactly one, unless the counter it hits wraps |
| Counters.RecordTallies | include/llh.h:103-150 | recording one more value keeps every counter equal to the number of values sent to it |
| Counters.RecordAllCounts | include/llh.h:103-150 | after fewer than 2^32 records into an empty histogram, every counter holds the number of recorded values sent to it |
| Counters.RecordAllConserves | include/llh.h:103-182 | after n < 2^32 records into an empty histogram, population plus overflows is n |
| Counters.RecordZeroScenario | test/llh.c:34-54 | recording 0 gives cell (0, 0), bucket 0 and the total one event each |
| Counters.BucketSweep | test/llh.c:62-64 | the values the bucket test records land in slots 0 to 15 of that bucket, in order |
| Counters.SlotSweep | test/llh.c:92-93 | the values the slot test records land in that slot of buckets 0 to 23, in order |
| Counters.BucketCoverage | test/llh.c:57-84 | after the bucket sweep, each slot of the bucket holds 1, the bucket and the total hold 16, and there are no overflows |
| Counters.SlotSweepCounts | test/llh.c:92-93 | the slot sweep sends one value to that slot of each bucket and none anywhere else |
| Counters.SlotCoverage | test/llh.c:87-115 | after the slot sweep, that slot of every bucket holds 1, every bucket holds 1, the total is 24, and there are no overflows |
| Counters.OverflowScenario | include/llh.h:140-146 | recording a value above `HIGH(23)` into an empty histogram counts one overflow and leaves every cell at 0 |
| Counters.OverflowTestValue | test/llh.c:122 | the value `HIGH(24) + 1` is above `HIGH(23)` and fits a `uint64_t` |
| Llh.Histogram.Model | include/llh.h:93-96 | the table the object holds: cell (b, s) is `v[b][s]`, and the overflow count is `overflows` |
| Llh.Histogram.constructor | include/llh.h:30 | `LLH_INIT`: a fresh 24 x 16 array with every counter and the overflow count at zero |
| Llh.Histogram.Record | include/llh.h:103-150 | `llh_record` computes the bucket with clz and the slot with mask-and-divide, and changes the object exactly as `Counters.Record` changes the table |
| Llh.Histogram.Population | include/llh.h:153-161 | the nested loops return the sum of all 384 cells, with the overflow counter left out |
| Llh.Histogram.BucketPopulation | include/llh.h:164-170 | the loop returns the sum of the bucket's 16 slots |
| Llh.Histogram.CellPopulation | include/llh.h:173-176 | returns the cell's counter |
| Llh.Histogram.Overflows | include/llh.h:179-182 | returns the overflow counter |
| Scenarios.InitScenario | test/llh.c:16-31 | a fresh histogram reads population 0 and overflows 0 |
| Scenarios.RecordZero | test/llh.c:34-54 | after recording 0, cell (0, 0), bucket 0 and the total each read 1 |
| Scenarios.RecordEach | test/llh.c:62-64 | recording a sequence of values one by one leaves the table `RecordAll` describes |
| Scenarios.SweepBucket | test/llh.c:59-64 | a fresh histogram after the bucket test's recording loop |
| Scenarios.SweepSlot | test/llh.c:89-93 | a fresh histogram after the slot test's recording loop |
| Scenarios.ReadBucket | test/llh.c:66-71 | reads every slot of a bucket, in order |
| Scenarios.ReadSlot | test/llh.c:95-107 | reads one slot of every bucket and every bucket's population, in order |
| Scenarios.RecordBucket | test/llh.c:57-84 | after the bucket sweep, each of the 16 slots reads 1, and the bucket and the whole histogram each read 16 |
| Scenarios.RecordSlot | test/llh.c:87-115 | after the slot sweep, the slot reads 1 in every bucket, every bucket reads 1, and the histogram reads 24 |
| Scenarios.RecordOverflow | test/llh.c:118-130 | after recording `HIGH(24) + 1`, the overflow counter reads 1 and the population 0 |
| Scenarios.AsWrittenChecksMissTotal | test/llh.c:73-81 | the bucket test's checks, as written, accept a histogram whose population is 17 |

## Left out

- The `lock; incl` increment and the `LLH_UNSAFE_INCREMENT` switch (include/llh.h:98-101, 135-146) are modelled as one sequential increment modulo 2^32. Atomicity and concurrent readers are not modelled.
- Counters.RecordAllCounts: stated only for fewer than 2^32 records. Beyond that a counter wraps; `Counters.Increment` models the wrap, but no tally is claimed past it.
- Counters.RecordAllConserves: stated only for fewer than 2^32 records, for the same reason.
- Counters.RecordAddsOne: requires that the counter hit is below 2^32 - 1. At 2^32 - 1 it wraps to 0 and the sum drops, as `Counters.Record` states.
- Geometry.RangeLow and Geometry.RangeHigh are defined only where the C `int` shift `1 << (b + 4)` is defined (b + 4 < 31). That covers every bucket and the value `HIGH(24)` the overflow test uses.
- Out-of-range `bucket` or `slot` arguments to the readers read outside the array in C. The model requires `bucket < 24` and `slot < 16` instead.
- The `uint8_t` parameter types of the readers are not modelled separately: any bucket index below 24 fits them.
- The version macros (include/llh.h:12-22) carry no behaviour.
- The benchmark, the `printf` reporting and `main` in test/llh.c (lines 133-209) are timing and I/O. The scenarios return the values the tests compare instead of printing them.
- Scenarios.SweepBucket and Scenarios.SweepSlot compute the test values up front, as one sequence, instead of inside the loop. The values and their order are the same.

## Findings

| source | as written | input that shows it | evidently intended | confidence | as-written member | corrected member |
|---|---|---|---|---|---|---|
| test/llh.c:78-81 | the check reported as "population of histogram" calls the per-bucket reader a second time, so the total population is never checked | a table with the 16 slots of bucket 0 at 1 and slot 0 of bucket 1 at 1 passes every check for bucket 0, yet its population is 17 | compare `llh_population_get(&h)` with `LLH_SLOTS_PER_BUCKET` | high, not executed | Scenarios.AsWrittenChecksMissTotal | Scenarios.RecordBucket |
