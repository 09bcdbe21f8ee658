/** The unit-test scenarios of the histogram, written against the
    `Histogram` object: each builds a fresh histogram, records the values
    the scenario records and reads back the counters the scenario
    inspects. */
module Scenarios {
  import opened Geometry
  import opened Quantize
  import opened Counters
  import opened Llh

  /** A fresh histogram has population 0 and no overflows. */
  method InitScenario() returns (total: u64, overflows: u32)
    ensures total == 0 && overflows == 0
  {
    var h := new Histogram();
    InitIsEmpty();
    total := h.Population();
    overflows := h.Overflows();
  }

  /** Recording 0: slot 0 of bucket 0, bucket 0 and the whole histogram
      each hold one event. */
  method RecordZero() returns (cell: u64, bucket: u64, total: u64)
    ensures cell == 1 && bucket == 1 && total == 1
  {
    var h := new Histogram();
    h.Record(0);
    RecordZeroScenario();
    cell := h.CellPopulation(0, 0);
    bucket := h.BucketPopulation(0);
    total := h.Population();
  }

  /** Records every value of vs, in order, into h. */
  method RecordEach(h: Histogram, vs: seq<u64>)
    requires h.Valid()
    modifies h, h.v
    ensures h.Valid()
    ensures h.Model() == RecordAll(old(h.Model()), vs)
  {
    ghost var t := h.Model();
    var i := 0;
    while i < |vs|
      invariant 0 <= i <= |vs|
      invariant h.Valid()
      invariant h.Model() == RecordAll(t, vs[..i])
    {
      assert vs[..i + 1][..i] == vs[..i];
      h.Record(vs[i]);
      i := i + 1;
    }
    assert vs[..i] == vs;
  }

  /** A fresh histogram into which the first value of every slot of one
      bucket has been recorded, in slot order. */
  method SweepBucket(bucket: nat) returns (h: Histogram)
    requires bucket < Buckets
    ensures fresh(h) && h.Valid()
    ensures h.Model() == RecordAll(Empty(), BucketSweep(bucket))
  {
    h := new Histogram();
    RecordEach(h, BucketSweep(bucket));
  }

  /** A fresh histogram into which the first value of one slot of every
      bucket has been recorded, in bucket order. */
  method SweepSlot(slot: nat) returns (h: Histogram)
    requires slot < SlotsPerBucket
    ensures fresh(h) && h.Valid()
    ensures h.Model() == RecordAll(Empty(), SlotSweep(slot))
  {
    h := new Histogram();
    RecordEach(h, SlotSweep(slot));
  }

  /** Reads every slot counter of one bucket, in slot order. */
  method ReadBucket(h: Histogram, bucket: nat) returns (cells: seq<u64>)
    requires h.Valid() && bucket < Buckets
    ensures |cells| == SlotsPerBucket
    ensures forall i :: 0 <= i < SlotsPerBucket ==> cells[i] == h.Model().cells[bucket][i]
  {
    cells := [];
    var i := 0;
    while i < SlotsPerBucket
      invariant 0 <= i <= SlotsPerBucket
      invariant |cells| == i && forall k :: 0 <= k < i ==> cells[k] == h.Model().cells[bucket][k]
    {
      var c := h.CellPopulation(bucket, i);
      cells := cells + [c];
      i := i + 1;
    }
  }

  /** Reads one slot counter and the population of every bucket, in bucket
      order. */
  method ReadSlot(h: Histogram, slot: nat) returns (cells: seq<u64>, buckets: seq<u64>)
    requires h.Valid() && slot < SlotsPerBucket
    ensures |cells| == Buckets && |buckets| == Buckets
    ensures forall i :: 0 <= i < Buckets ==> cells[i] == h.Model().cells[i][slot]
    ensures forall i :: 0 <= i < Buckets ==> buckets[i] == Counters.BucketPopulation(h.Model(), i)
  {
    cells, buckets := [], [];
    var i := 0;
    while i < Buckets
      invariant 0 <= i <= Buckets
      invariant |cells| == i && forall k :: 0 <= k < i ==> cells[k] == h.Model().cells[k][slot]
      invariant |buckets| == i && forall k :: 0 <= k < i ==> buckets[k] == Counters.BucketPopulation(h.Model(), k)
    {
      var c := h.CellPopulation(i, slot);
      var p := h.BucketPopulation(i);
      cells, buckets := cells + [c], buckets + [p];
      i := i + 1;
    }
  }

  /** Recording `i * LLH_SLOT_RANGE(bucket) + LLH_BUCKET_RANGE_LOW(bucket)`
      for every slot i: every slot of the bucket holds one event, and the
      bucket and the histogram each hold SlotsPerBucket. */
  method RecordBucket(bucket: nat) returns (cells: seq<u64>, inBucket: u64, total: u64)
    requires bucket < Buckets
    ensures |cells| == SlotsPerBucket && forall i :: 0 <= i < |cells| ==> cells[i] == 1
    ensures inBucket == SlotsPerBucket && total == SlotsPerBucket
  {
    var h := SweepBucket(bucket);
    ghost var t := h.Model();
    BucketScenario(bucket, t);
    inBucket := h.BucketPopulation(bucket);
    total := h.Population();
    assert inBucket == total == SlotsPerBucket;
    cells := ReadBucket(h, bucket);
    assert h.Model() == t;
  }

  /** Recording `slot * LLH_SLOT_RANGE(i) + LLH_BUCKET_RANGE_LOW(i)` for
      every bucket i: that slot of every bucket holds one event, every
      bucket holds one and the histogram holds Buckets. */
  method RecordSlot(slot: nat) returns (cells: seq<u64>, buckets: seq<u64>, total: u64)
    requires slot < SlotsPerBucket
    ensures |cells| == Buckets && forall i :: 0 <= i < |cells| ==> cells[i] == 1
    ensures |buckets| == Buckets && forall i :: 0 <= i < |buckets| ==> buckets[i] == 1
    ensures total == Buckets
  {
    var h := SweepSlot(slot);
    ghost var t := h.Model();
    SlotScenario(slot, t);
    total := h.Population();
    assert total == Buckets;
    cells, buckets := ReadSlot(h, slot);
    assert h.Model() == t;
  }

  /** BucketCoverage, for the table the bucket sweep leaves behind. Naming
      the table keeps the scenario method's proof context small. */
  lemma BucketScenario(bucket: nat, t: Table)
    requires bucket < Buckets && t == RecordAll(Empty(), BucketSweep(bucket))
    ensures WellFormed(t)
    ensures forall i :: 0 <= i < SlotsPerBucket ==> t.cells[bucket][i] == 1
    ensures Counters.BucketPopulation(t, bucket) == SlotsPerBucket
    ensures Counters.Population(t) == SlotsPerBucket
  {
    BucketCoverage(bucket);
  }

  /** SlotCoverage, for the table the slot sweep leaves behind. Naming the
      table keeps the scenario method's proof context small. */
  lemma SlotScenario(slot: nat, t: Table)
    requires slot < SlotsPerBucket && t == RecordAll(Empty(), SlotSweep(slot))
    ensures WellFormed(t)
    ensures forall i :: 0 <= i < Buckets ==> t.cells[i][slot] == 1
    ensures forall i :: 0 <= i < Buckets ==> Counters.BucketPopulation(t, i) == 1
    ensures Counters.Population(t) == Buckets
  {
    SlotCoverage(slot);
  }

  /** Recording `LLH_BUCKET_RANGE_HIGH(LLH_BUCKETS) + 1`, a value above the
      last bucket: the overflow counter holds one event and no cell holds
      any. */
  method RecordOverflow() returns (overflows: u32, total: u64)
    ensures overflows == 1 && total == 0
  {
    var h := new Histogram();
    OverflowTestValue();
    var v: u64 := RangeHigh(Buckets) + 1;
    h.Record(v);
    OverflowScenario(v);
    overflows := h.Overflows();
    total := h.Population();
  }

  /** The checks of the bucket scenario as they are written: every slot of
      the bucket holds one event, and the bucket holds SlotsPerBucket, the
      second time under the message about the whole histogram. */
  predicate BucketChecksAsWritten(t: Table, bucket: nat)
    requires WellFormed(t) && bucket < Buckets
  {
    && (forall i :: 0 <= i < SlotsPerBucket ==> t.cells[bucket][i] == 1)
    && Counters.BucketPopulation(t, bucket) == SlotsPerBucket
    && Counters.BucketPopulation(t, bucket) == SlotsPerBucket
  }

  /** A table with every slot of bucket 0 at one and one more event in
      bucket 1. */
  function StrayEventTable(): (t: Table)
    ensures WellFormed(t)
  {
    var ones: seq<u32> := seq(SlotsPerBucket, _ => 1);
    var stray: seq<u32> := Empty().cells[1][0 := 1];
    Table(Empty().cells[0 := ones][1 := stray], 0)
  }

  /** The checks as written accept a histogram whose population is not
      SlotsPerBucket: the total is never checked. */
  lemma AsWrittenChecksMissTotal()
    ensures BucketChecksAsWritten(StrayEventTable(), 0)
    ensures Counters.Population(StrayEventTable()) == SlotsPerBucket + 1
  {
    var e := Empty();
    var t := StrayEventTable();
    var ones := t.cells[0];
    var stray := t.cells[1];
    SumConstant(ones, 1);
    SumSingle(stray, 0);
    SumConstant(e.cells[0], 0);
    SumConstant(e.cells[1], 0);
    InitIsEmpty();
    RowsUpdate(e.cells, 0, ones);
    RowsUpdate(e.cells[0 := ones], 1, stray);
    assert t.cells == e.cells[0 := ones][1 := stray];
  }
}
