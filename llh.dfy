/** `llh_t` as the program keeps it: a table of counters updated in place by
    `llh_record` and read by the population getters. */
module Llh {
  import opened Geometry
  import opened Quantize
  import opened Counters

  /** `struct _llh`. */
  class Histogram {
    /** `v`: the counter of slot s of bucket b is `v[b, s]`. */
    const v: array2<u32>
    /** `overflows`: events above the last bucket. */
    var overflows: u32

    /** The counter table has the shape the macros fix. */
    ghost predicate Valid()
    {
      v.Length0 == Buckets && v.Length1 == SlotsPerBucket
    }

    /** The counters as a value. */
    ghost function Model(): (t: Table)
      requires Valid()
      reads this, v
      ensures WellFormed(t)
      ensures forall b, s :: 0 <= b < Buckets && 0 <= s < SlotsPerBucket ==> t.cells[b][s] == v[b, s]
      ensures t.overflows == overflows
    {
      Table(seq(Buckets, b requires 0 <= b < Buckets reads v =>
              seq(SlotsPerBucket, s requires 0 <= s < SlotsPerBucket reads v => v[b, s])),
            overflows)
    }

    /** `llh_t h = LLH_INIT`: every counter starts at zero. */
    constructor()
      ensures Valid() && fresh(v)
      ensures Model() == Empty()
    {
      v := new u32[Buckets, SlotsPerBucket]((b, s) => 0);
      overflows := 0;
      new;
      SameCounters(Model(), Empty());
    }

    /** `llh_record(h, value)`: increments the counter of the cell the value
        falls in, or the overflow counter, and nothing else. */
    method Record(value: u64)
      requires Valid()
      modifies this, v
      ensures Valid()
      ensures Model() == Counters.Record(old(Model()), value)
    {
      var bucket := ClzBucket(value);
      if Buckets > bucket {
        var slot := if bucket == 0 then value else SlotOf(value, bucket);
        if bucket > 0 {
          SlotOfMatches(value);
        }
        v[bucket, slot] := Increment(v[bucket, slot]);
      } else {
        assert Locate(value) == Overflow;
        overflows := Increment(overflows);
      }
      SameCounters(Model(), Counters.Record(old(Model()), value));
    }

    /** `llh_population_get(h)`: the sum of every cell counter, bucket by
        bucket and slot by slot, in a `uint64_t` that cannot wrap. */
    method Population() returns (p: u64)
      requires Valid()
      ensures p == Counters.Population(Model())
    {
      ghost var t := Model();
      p := 0;
      var i := 0;
      while i < Buckets
        invariant 0 <= i <= Buckets
        invariant p == Rows(t.cells[..i])
      {
        RowsBound(t.cells[..i]);
        var j := 0;
        while j < SlotsPerBucket
          invariant 0 <= j <= SlotsPerBucket
          invariant p == Rows(t.cells[..i]) + Sum(t.cells[i][..j])
        {
          assert t.cells[i][..j + 1][..j] == t.cells[i][..j];
          SumBound(t.cells[i][..j + 1]);
          p := p + v[i, j];
          j := j + 1;
        }
        assert t.cells[i][..j] == t.cells[i];
        assert t.cells[..i + 1][..i] == t.cells[..i];
        i := i + 1;
      }
      assert t.cells[..i] == t.cells;
    }

    /** `llh_population_get(h, bucket)`: the sum of one bucket's counters. */
    method BucketPopulation(bucket: nat) returns (p: u64)
      requires Valid() && bucket < Buckets
      ensures p == Counters.BucketPopulation(Model(), bucket)
    {
      ghost var row := Model().cells[bucket];
      p := 0;
      var i := 0;
      while i < SlotsPerBucket
        invariant 0 <= i <= SlotsPerBucket
        invariant p == Sum(row[..i])
      {
        assert row[..i + 1][..i] == row[..i];
        SumBound(row[..i + 1]);
        p := p + v[bucket, i];
        i := i + 1;
      }
      assert row[..i] == row;
    }

    /** `llh_population_get(h, bucket, slot)`: one cell counter. */
    method CellPopulation(bucket: nat, slot: nat) returns (p: u64)
      requires Valid() && bucket < Buckets && slot < SlotsPerBucket
      ensures p == Model().cells[bucket][slot]
    {
      p := v[bucket, slot];
    }

    /** `llh_overflows_get(h)`: the overflow counter. */
    method Overflows() returns (n: u32)
      requires Valid()
      ensures n == Model().overflows
    {
      n := overflows;
    }
  }

  /** Two tables with the same counters are the same table. */
  lemma SameCounters(t: Table, u: Table)
    requires WellFormed(t) && WellFormed(u)
    requires forall b, s :: 0 <= b < Buckets && 0 <= s < SlotsPerBucket ==> t.cells[b][s] == u.cells[b][s]
    requires t.overflows == u.overflows
    ensures t == u
  {
    assert forall b :: 0 <= b < Buckets ==> t.cells[b] == u.cells[b];
  }
}
