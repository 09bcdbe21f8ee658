/** The histogram's counters as a value: the `LLH_BUCKETS` x
    `LLH_SLOTS_PER_BUCKET` table of `uint32_t` counters and the overflow
    counter, what `llh_record` does to them, and what the population readers
    add up. */
module Counters {
  import opened Bits
  import opened Geometry
  import opened Quantize

  /** `uint32_t`. */
  type u32 = x: nat | x < 0x1_0000_0000

  /** The largest value a `uint32_t` counter holds. */
  const MaxCount: nat := 0xFFFF_FFFF

  /** One increment of a `uint32_t` counter: one more, wrapping to zero past
      the largest value. */
  function Increment(x: u32): (y: u32)
    ensures x < MaxCount ==> y == x + 1
    ensures x == MaxCount ==> y == 0
  {
    (x + 1) % 0x1_0000_0000
  }

  /** The contents of `struct _llh`: `cells[b][s]` is `v[b][s]`. */
  datatype Table = Table(cells: seq<seq<u32>>, overflows: u32)

  /** The table has `Buckets` rows of `SlotsPerBucket` counters. */
  predicate WellFormed(t: Table)
  {
    |t.cells| == Buckets && forall b :: 0 <= b < |t.cells| ==> |t.cells[b]| == SlotsPerBucket
  }

  /** `LLH_INIT`: every counter zero. */
  function Empty(): (t: Table)
    ensures WellFormed(t)
    ensures forall b, s :: 0 <= b < Buckets && 0 <= s < SlotsPerBucket ==> t.cells[b][s] == 0
    ensures t.overflows == 0
  {
    Table(seq(Buckets, _ => seq(SlotsPerBucket, _ => 0)), 0)
  }

  /** The counter `llh_record` increments for v. */
  function Counter(t: Table, loc: Location): u32
    requires WellFormed(t)
    requires loc.Cell? ==> loc.bucket < Buckets && loc.slot < SlotsPerBucket
  {
    match loc
    case Cell(b, s) => t.cells[b][s]
    case Overflow => t.overflows
  }

  /** `llh_record(h, v)`: the counter of v's cell, or the overflow counter
      when v lies above every bucket, goes up by one (modulo 2^32); every
      other counter keeps its value. */
  function Record(t: Table, v: u64): (t': Table)
    requires WellFormed(t)
    ensures WellFormed(t')
    ensures forall b, s :: 0 <= b < Buckets && 0 <= s < SlotsPerBucket ==>
      t'.cells[b][s] == if Locate(v) == Cell(b, s) then Increment(t.cells[b][s]) else t.cells[b][s]
    ensures t'.overflows == if Locate(v).Overflow? then Increment(t.overflows) else t.overflows
  {
    match Locate(v)
    case Cell(b, s) =>
      var row: seq<u32> := t.cells[b][s := Increment(t.cells[b][s])];
      t.(cells := t.cells[b := row])
    case Overflow =>
      t.(overflows := Increment(t.overflows))
  }

  /** The histogram after recording every value of vs, in order, starting
      from t. */
  function RecordAll(t: Table, vs: seq<u64>): (t': Table)
    requires WellFormed(t)
    ensures WellFormed(t')
  {
    if |vs| == 0 then t else Record(RecordAll(t, vs[..|vs| - 1]), vs[|vs| - 1])
  }

  /** How many values of vs `llh_record` sends to loc. */
  function Count(vs: seq<u64>, loc: Location): (n: nat)
    ensures n <= |vs|
  {
    if |vs| == 0 then 0
    else Count(vs[..|vs| - 1], loc) + (if Locate(vs[|vs| - 1]) == loc then 1 else 0)
  }

  /** The sum of a row of counters, added from the first to the last. */
  function Sum(s: seq<u32>): nat
  {
    if |s| == 0 then 0 else Sum(s[..|s| - 1]) + s[|s| - 1]
  }

  /** The sum of every counter of a table of rows, row by row. */
  function Rows(rows: seq<seq<u32>>): nat
  {
    if |rows| == 0 then 0 else Rows(rows[..|rows| - 1]) + Sum(rows[|rows| - 1])
  }

  /** What `llh_population_get(h)` returns: every cell counter added up, the
      overflow counter left out. */
  function Population(t: Table): nat
  {
    Rows(t.cells)
  }

  /** What `llh_population_get(h, bucket)` returns: the counters of one
      bucket added up. */
  function BucketPopulation(t: Table, b: nat): nat
    requires WellFormed(t) && b < Buckets
  {
    Sum(t.cells[b])
  }

  // ---------------------------------------------------------------------
  // Sums

  /** Replacing one element changes the sum by the difference. */
  lemma {:induction false} SumUpdate(s: seq<u32>, i: nat, x: u32)
    requires i < |s|
    ensures Sum(s[i := x]) == Sum(s) - s[i] + x
  {
    var n := |s| - 1;
    assert s[i := x][..n] == if i == n then s[..n] else s[..n][i := x];
    if i < n {
      SumUpdate(s[..n], i, x);
    }
  }

  /** Replacing one row changes the total by the difference of the row sums. */
  lemma {:induction false} RowsUpdate(rows: seq<seq<u32>>, b: nat, row: seq<u32>)
    requires b < |rows|
    ensures Rows(rows[b := row]) == Rows(rows) - Sum(rows[b]) + Sum(row)
  {
    var n := |rows| - 1;
    assert rows[b := row][..n] == if b == n then rows[..n] else rows[..n][b := row];
    if b < n {
      RowsUpdate(rows[..n], b, row);
    }
  }

  /** A row of k counters sums to at most k times the largest counter. */
  lemma {:induction false} SumBound(s: seq<u32>)
    ensures Sum(s) <= |s| * MaxCount
  {
    if |s| > 0 {
      SumBound(s[..|s| - 1]);
    }
  }

  /** Rows of SlotsPerBucket counters sum to at most that many counters
      times the largest counter. */
  lemma {:induction false} RowsBound(rows: seq<seq<u32>>)
    requires forall b :: 0 <= b < |rows| ==> |rows[b]| == SlotsPerBucket
    ensures Rows(rows) <= |rows| * SlotsPerBucket * MaxCount
  {
    if |rows| > 0 {
      RowsBound(rows[..|rows| - 1]);
      SumBound(rows[|rows| - 1]);
    }
  }

  /** Every counter of a row equal to c: the row sums to its length times c. */
  lemma {:induction false} SumConstant(s: seq<u32>, c: u32)
    requires forall k :: 0 <= k < |s| ==> s[k] == c
    ensures Sum(s) == |s| * c
  {
    if |s| > 0 {
      SumConstant(s[..|s| - 1], c);
    }
  }

  /** A row that is one at index j and zero elsewhere sums to one. */
  lemma {:induction false} SumSingle(s: seq<u32>, j: nat)
    requires j < |s|
    requires forall k :: 0 <= k < |s| ==> s[k] == if k == j then 1 else 0
    ensures Sum(s) == 1
  {
    var n := |s| - 1;
    if j < n {
      SumSingle(s[..n], j);
    } else {
      SumConstant(s[..n], 0);
    }
  }

  /** Rows of zero counters sum to zero. */
  lemma {:induction false} RowsZero(rows: seq<seq<u32>>)
    requires forall b, s :: 0 <= b < |rows| && 0 <= s < |rows[b]| ==> rows[b][s] == 0
    ensures Rows(rows) == 0
  {
    if |rows| > 0 {
      RowsZero(rows[..|rows| - 1]);
      SumConstant(rows[|rows| - 1], 0);
    }
  }

  /** The population of a histogram is at most 384 counters of 2^32 - 1
      events each, so the `uint64_t` sum computed by `llh_population_get`
      never wraps. */
  lemma PopulationFits(t: Table)
    requires WellFormed(t)
    ensures Population(t) <= Buckets * SlotsPerBucket * MaxCount < 0x1_0000_0000_0000_0000
    ensures forall b :: 0 <= b < Buckets ==> BucketPopulation(t, b) <= SlotsPerBucket * MaxCount
  {
    RowsBound(t.cells);
    forall b | 0 <= b < Buckets
      ensures BucketPopulation(t, b) <= SlotsPerBucket * MaxCount
    {
      SumBound(t.cells[b]);
    }
  }

  // ---------------------------------------------------------------------
  // Recording

  /** A fresh histogram has no population and no overflows. */
  lemma InitIsEmpty()
    ensures Population(Empty()) == 0 && Empty().overflows == 0
  {
    RowsZero(Empty().cells);
  }

  /** Recording a value adds exactly one event to the histogram, in a cell
      or in the overflow counter, unless that counter wraps. */
  lemma RecordAddsOne(t: Table, v: u64)
    requires WellFormed(t)
    requires Counter(t, Locate(v)) < MaxCount
    ensures Population(Record(t, v)) + Record(t, v).overflows == Population(t) + t.overflows + 1
  {
    match Locate(v)
    case Cell(b, s) =>
      var row: seq<u32> := t.cells[b][s := Increment(t.cells[b][s])];
      assert Record(t, v).cells == t.cells[b := row];
      SumUpdate(t.cells[b], s, Increment(t.cells[b][s]));
      RowsUpdate(t.cells, b, row);
    case Overflow =>
  }

  /** Every counter of t holds the number of values of vs that
      `llh_record` sends to it. */
  predicate Tallies(t: Table, vs: seq<u64>)
    requires WellFormed(t)
  {
    && (forall b, s :: 0 <= b < Buckets && 0 <= s < SlotsPerBucket ==> t.cells[b][s] == Count(vs, Cell(b, s)))
    && t.overflows == Count(vs, Overflow)
  }

  /** A tallied counter holds at most as many events as values recorded. */
  lemma TallyCounter(t: Table, vs: seq<u64>, loc: Location)
    requires WellFormed(t) && Tallies(t, vs)
    requires loc.Cell? ==> loc.bucket < Buckets && loc.slot < SlotsPerBucket
    ensures Counter(t, loc) == Count(vs, loc) <= |vs|
  {
  }

  /** Recording one more value keeps the tally, as long as no counter wraps. */
  lemma RecordTallies(t: Table, vs: seq<u64>, v: u64)
    requires WellFormed(t) && Tallies(t, vs) && |vs| < MaxCount
    ensures Tallies(Record(t, v), vs + [v])
  {
    assert (vs + [v])[..|vs|] == vs;
    forall loc
      ensures Count(vs + [v], loc) == Count(vs, loc) + if Locate(v) == loc then 1 else 0
    {
    }
  }

  /** Every counter of a histogram that started empty holds the number of
      recorded values that `llh_record` sent to it, as long as fewer than
      2^32 values were recorded. */
  lemma {:induction false} RecordAllCounts(vs: seq<u64>)
    requires |vs| <= MaxCount
    ensures Tallies(RecordAll(Empty(), vs), vs)
  {
    if |vs| > 0 {
      var n := |vs| - 1;
      RecordAllCounts(vs[..n]);
      RecordTallies(RecordAll(Empty(), vs[..n]), vs[..n], vs[n]);
      assert vs[..n] + [vs[n]] == vs;
    }
  }

  /** Conservation: after recording fewer than 2^32 values into an empty
      histogram, its population plus its overflow count is the number of
      values recorded. */
  lemma {:induction false} RecordAllConserves(vs: seq<u64>)
    requires |vs| <= MaxCount
    ensures Population(RecordAll(Empty(), vs)) + RecordAll(Empty(), vs).overflows == |vs|
  {
    if |vs| == 0 {
      InitIsEmpty();
    } else {
      var n := |vs| - 1;
      var t := RecordAll(Empty(), vs[..n]);
      RecordAllConserves(vs[..n]);
      RecordAllCounts(vs[..n]);
      TallyCounter(t, vs[..n], Locate(vs[n]));
      RecordAddsOne(t, vs[n]);
    }
  }

  /** Values that land in pairwise distinct locations are counted once at
      each of those locations and nowhere else. */
  lemma {:induction false} CountDistinct(vs: seq<u64>, locs: seq<Location>, loc: Location)
    requires |vs| == |locs|
    requires forall i :: 0 <= i < |vs| ==> Locate(vs[i]) == locs[i]
    requires forall i, j :: 0 <= i < j < |locs| ==> locs[i] != locs[j]
    ensures Count(vs, loc) == if loc in locs then 1 else 0
  {
    if |vs| > 0 {
      var n := |vs| - 1;
      var pre := locs[..n];
      assert locs == pre + [locs[n]];
      CountDistinct(vs[..n], pre, loc);
      if loc == locs[n] {
        forall i | 0 <= i < n
          ensures pre[i] != loc
        {
          assert pre[i] == locs[i];
        }
      }
    }
  }


  // ---------------------------------------------------------------------
  // The unit-test scenarios

  /** Recording 0 into an empty histogram: cell (0, 0), bucket 0 and the
      whole histogram each hold one event. */
  lemma RecordZeroScenario()
    ensures Record(Empty(), 0).cells[0][0] == 1
    ensures BucketPopulation(Record(Empty(), 0), 0) == 1
    ensures Population(Record(Empty(), 0)) == 1
  {
    var t := Record(Empty(), 0);
    SumSingle(t.cells[0], 0);
    InitIsEmpty();
    RecordAddsOne(Empty(), 0);
  }

  /** The first value of every slot of one bucket, in slot order. */
  function BucketSweep(b: nat): (vs: seq<u64>)
    requires b < Buckets
    ensures |vs| == SlotsPerBucket
    ensures forall i :: 0 <= i < SlotsPerBucket ==> Locate(vs[i]) == Cell(b, i)
  {
    SweepLocates();
    seq(SlotsPerBucket, i requires 0 <= i < SlotsPerBucket => SlotStart(b, i))
  }

  /** The first value of one slot of every bucket, in bucket order. */
  function SlotSweep(s: nat): (vs: seq<u64>)
    requires s < SlotsPerBucket
    ensures |vs| == Buckets
    ensures forall i :: 0 <= i < Buckets ==> Locate(vs[i]) == Cell(i, s)
  {
    SweepLocates();
    seq(Buckets, i requires 0 <= i < Buckets => SlotStart(i, s))
  }

  lemma SweepLocates()
    ensures forall b, i :: 0 <= b < Buckets && 0 <= i < SlotsPerBucket ==> Locate(SlotStart(b, i)) == Cell(b, i)
  {
    forall b, i | 0 <= b < Buckets && 0 <= i < SlotsPerBucket
      ensures Locate(SlotStart(b, i)) == Cell(b, i)
    {
      SlotStartLocates(b, i);
    }
  }

  /** Recording the first value of every slot of bucket b: each of those
      slots holds one event, the bucket holds SlotsPerBucket and so does the
      histogram. */
  lemma BucketCoverage(b: nat)
    requires b < Buckets
    ensures var t := RecordAll(Empty(), BucketSweep(b));
      && (forall i :: 0 <= i < SlotsPerBucket ==> t.cells[b][i] == 1)
      && BucketPopulation(t, b) == SlotsPerBucket
      && Population(t) == SlotsPerBucket
      && t.overflows == 0
  {
    var vs := BucketSweep(b);
    var locs := seq(SlotsPerBucket, i requires 0 <= i => Cell(b, i));
    var t := RecordAll(Empty(), vs);
    RecordAllCounts(vs);
    RecordAllConserves(vs);
    forall i | 0 <= i < SlotsPerBucket
      ensures t.cells[b][i] == 1
    {
      CountDistinct(vs, locs, Cell(b, i));
      assert locs[i] == Cell(b, i);
    }
    CountDistinct(vs, locs, Overflow);
    SumConstant(t.cells[b], 1);
  }

  /** Recording the first value of slot s of every bucket: that slot of each
      bucket holds one event, every bucket holds one and the histogram holds
      Buckets. */
  lemma SlotCoverage(s: nat)
    requires s < SlotsPerBucket
    ensures var t := RecordAll(Empty(), SlotSweep(s));
      && (forall i :: 0 <= i < Buckets ==> t.cells[i][s] == 1)
      && (forall i :: 0 <= i < Buckets ==> BucketPopulation(t, i) == 1)
      && Population(t) == Buckets
      && t.overflows == 0
  {
    var vs := SlotSweep(s);
    var t := RecordAll(Empty(), vs);
    RecordAllCounts(vs);
    RecordAllConserves(vs);
    SlotSweepCounts(s);
    forall i | 0 <= i < Buckets
      ensures BucketPopulation(t, i) == 1
    {
      assert forall j :: 0 <= j < SlotsPerBucket ==> t.cells[i][j] == Count(vs, Cell(i, j));
      SumSingle(t.cells[i], s);
    }
  }

  /** The slot sweep sends one value to slot s of every bucket and none
      anywhere else. */
  lemma SlotSweepCounts(s: nat)
    requires s < SlotsPerBucket
    ensures forall i, j :: 0 <= i < Buckets && 0 <= j < SlotsPerBucket ==>
      Count(SlotSweep(s), Cell(i, j)) == if j == s then 1 else 0
    ensures Count(SlotSweep(s), Overflow) == 0
  {
    var vs := SlotSweep(s);
    var locs := seq(Buckets, i requires 0 <= i => Cell(i, s));
    forall i, j | 0 <= i < Buckets && 0 <= j < SlotsPerBucket
      ensures Count(vs, Cell(i, j)) == if j == s then 1 else 0
    {
      CountDistinct(vs, locs, Cell(i, j));
      assert locs[i] == Cell(i, s);
    }
    CountDistinct(vs, locs, Overflow);
  }

  /** Recording a value above `HIGH(Buckets - 1)` into an empty histogram
      counts one overflow and leaves every cell at zero. */
  lemma OverflowScenario(v: u64)
    requires v > RangeHigh(Buckets - 1)
    ensures Record(Empty(), v).overflows == 1
    ensures Population(Record(Empty(), v)) == 0
  {
    RowsZero(Record(Empty(), v).cells);
  }

  /** The value the overflow unit test records, `HIGH(Buckets) + 1`, is a
      64-bit value above the last bucket. */
  lemma OverflowTestValue()
    ensures RangeHigh(Buckets - 1) < RangeHigh(Buckets) + 1 < 0x1_0000_0000_0000_0000
  {
    Pow2StrictlyIncreasing(Buckets + Scale, Buckets + Scale + 1);
    assert RangeHigh(Buckets - 1) == Pow2(Buckets + Scale) - 1;
    assert RangeHigh(Buckets) + 1 == Pow2(Buckets + Scale + 1);
    Pow2StrictlyIncreasing(Buckets + Scale + 1, WordBits);
    Pow2Of64();
  }
}
