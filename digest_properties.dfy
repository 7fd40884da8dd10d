/**
 * What a digest says about the samples it was made from: one row per distinct length in
 * ascending order, counts that add up to the number of samples, cumulative fractions
 * that climb to 1, and percentiles drawn from each bucket's own RTTs and slowdowns. Also:
 * the sentinel 999999999 that get_digest appends to force a last step is only harmless
 * while every length lies below it.
 */
module DigestProperties {
  import opened Wrappers
  import opened RttMaps
  import opened Bucketizer
  import opened Sorting
  import opened BucketSummary
  import opened DigestEngine

  /** The number of samples the rows account for (the sum of the counts list). */
  function SumCounts(rows: seq<Row>): nat {
    if rows == [] then 0 else SumCounts(rows[..|rows| - 1]) + rows[|rows| - 1].count
  }

  /** The first count rows account for every sample of length up to the count-th length. */
  lemma {:induction false} RowCountsUpTo(rtts: RttMap, total: int, unloaded: Baselines, count: nat)
    requires total != 0 && |unloaded| > 0
    requires 0 < count <= |rtts| && AllDivide(rtts, unloaded, count)
    ensures SumCounts(Rows(rtts, total, unloaded, count)) == SamplesAtMost(rtts, SortedLengths(rtts)[count - 1])
  {
    var ks := SortedLengths(rtts);
    var rs := Rows(rtts, total, unloaded, count);
    assert forall k :: k in ks ==> k in rtts;
    SumLensExtend(rtts, ks, count - 1);
    PrefixSamples(rtts, count - 1);
    assert rs[count - 1].count == |rtts[ks[count - 1]]|;
    if count > 1 {
      AllDivideNext(rtts, unloaded, count - 1);
      var rs' := Rows(rtts, total, unloaded, count - 1);
      forall j | 0 <= j < count - 1
        ensures rs[..count - 1][j] == rs'[j]
      {
      }
      assert rs[..count - 1] == rs';
      RowCountsUpTo(rtts, total, unloaded, count - 1);
      PrefixSamples(rtts, count - 2);
      assert SumCounts(rs) == SumCounts(rs') + rs[count - 1].count;
    } else {
      assert ks[..0] == [];
      assert SumCounts(rs) == rs[0].count;
    }
  }

  /** The counts of a digest add up to the number of samples read. */
  lemma DigestCountsAllSamples(rtts: RttMap, total: int, unloaded: Baselines)
    requires DigestOf(rtts, total, unloaded).Ok?
    ensures SumCounts(DigestOf(rtts, total, unloaded).value.rows) == TotalSamples(rtts)
  {
    RowCountsUpTo(rtts, total, unloaded, |rtts|);
    SamplesAtMostLast(rtts);
  }

  /** Row j of a digest is the bucket of the j-th smallest length, with its count and cum_frac. */
  lemma DigestRowAt(rtts: RttMap, total: int, unloaded: Baselines, j: nat)
    requires DigestOf(rtts, total, unloaded).Ok?
    requires j < |rtts|
    ensures var row := DigestOf(rtts, total, unloaded).value.rows[j];
      row.length == SortedLengths(rtts)[j] && row.length in rtts && row.count == |rtts[row.length]| &&
      row.cumFrac == CumFrac(rtts, total, row.length)
  {
    assert DigestOf(rtts, total, unloaded).value.rows[j] == RowAt(rtts, total, unloaded, j);
  }

  /**
   * The rows of a digest are the distinct lengths in ascending order, each with the
   * number of its samples and its cumulative fraction.
   */
  lemma DigestRowsAreTheLengths(rtts: RttMap, total: int, unloaded: Baselines)
    requires DigestOf(rtts, total, unloaded).Ok?
    ensures var rows := DigestOf(rtts, total, unloaded).value.rows;
      |rows| == |rtts| &&
      (forall j :: 0 <= j < |rows| ==> rows[j].length in rtts && rows[j].count == |rtts[rows[j].length]|) &&
      (forall j :: 0 <= j < |rows| ==> rows[j].cumFrac == CumFrac(rtts, total, rows[j].length)) &&
      (forall i, j :: 0 <= i < j < |rows| ==> rows[i].length < rows[j].length) &&
      (forall k :: k in rtts ==> exists j :: 0 <= j < |rows| && rows[j].length == k)
  {
    var rows := DigestOf(rtts, total, unloaded).value.rows;
    var ks := SortedLengths(rtts);
    assert |rows| == |rtts|;
    forall j | 0 <= j < |rows|
      ensures rows[j].length == ks[j] && rows[j].length in rtts && rows[j].count == |rtts[rows[j].length]|
      ensures rows[j].cumFrac == CumFrac(rtts, total, rows[j].length)
    {
      DigestRowAt(rtts, total, unloaded, j);
    }
    forall i, j | 0 <= i < j < |rows|
      ensures rows[i].length < rows[j].length
    {
      assert Ascends(ks, i, j);
    }
    forall k | k in rtts
      ensures exists j :: 0 <= j < |rows| && rows[j].length == k
    {
      assert k in ks;
      var j :| 0 <= j < |ks| && ks[j] == k;
      assert rows[j].length == k;
    }
  }

  /**
   * When the total is the number of samples (as read_rtts returns it), the cumulative
   * fractions of a digest never decrease, lie in [0, 1] and end at 1.
   */
  lemma DigestCumFracs(rtts: RttMap, total: int, unloaded: Baselines)
    requires total == TotalSamples(rtts)
    requires DigestOf(rtts, total, unloaded).Ok?
    ensures var rows := DigestOf(rtts, total, unloaded).value.rows;
      |rows| > 0 &&
      (forall i, j :: 0 <= i <= j < |rows| ==> rows[i].cumFrac <= rows[j].cumFrac) &&
      (forall j :: 0 <= j < |rows| ==> 0.0 <= rows[j].cumFrac <= 1.0) &&
      rows[|rows| - 1].cumFrac == 1.0
  {
    var rows := DigestOf(rtts, total, unloaded).value.rows;
    var ks := SortedLengths(rtts);
    assert total > 0;
    forall i, j | 0 <= i <= j < |rows|
      ensures rows[i].cumFrac <= rows[j].cumFrac
    {
      CumFracNonDecreasing(rtts, total, i, j);
    }
    forall j | 0 <= j < |rows|
      ensures 0.0 <= rows[j].cumFrac <= 1.0
    {
      CumFracInUnitInterval(rtts, total, j);
    }
    LastCumFracIsOne(rtts, total);
  }

  /**
   * The percentiles of row j of a digest, for the samples s of the j-th length and the
   * baseline in force once the sweep has reached it: ordered, each RTT percentile one of
   * s and each slowdown percentile one of the slowdowns of s against that baseline
   * (SlowdownsScale: each of those times the baseline is the RTT it came from), each read
   * at rank count//2, count*99//100 or count*999//1000 of its list; an empty bucket reports
   * zeros.
   */
  lemma DigestRowSpreads(rtts: RttMap, total: int, unloaded: Baselines, j: nat)
    requires DigestOf(rtts, total, unloaded).Ok?
    requires j < |rtts|
    ensures var r := DigestOf(rtts, total, unloaded).value.rows[j];
      var s := rtts[SortedLengths(rtts)[j]];
      var base := BaselineAfter(unloaded, SweepLengths(rtts), j + 1);
      var sl := Slowdowns(s, base);
      r.rtt.p50 <= r.rtt.p99 <= r.rtt.p999 &&
      r.slowdown.p50 <= r.slowdown.p99 <= r.slowdown.p999 &&
      (s == [] ==> r.rtt == Spread(0.0, 0.0, 0.0) && r.slowdown == Spread(0.0, 0.0, 0.0)) &&
      (s != [] ==> r.rtt.p50 in s && r.rtt.p99 in s && r.rtt.p999 in s) &&
      (s != [] ==> r.slowdown.p50 in sl && r.slowdown.p99 in sl && r.slowdown.p999 in sl) &&
      (s != [] ==> ReportsPercentiles(s, r.rtt) && ReportsPercentiles(sl, r.slowdown))
  {
    var c := ClosedAt(rtts, total, unloaded, j);
    assert DigestOf(rtts, total, unloaded).value.rows[j] == RowOf(c);
    assert Divides(rtts, unloaded, SweepLengths(rtts), j);
    if c.rtts != [] {
      SpreadOfRanks(c.rtts);
      SpreadOfRanks(c.slowdowns);
    }
  }

  /** While every length lies below the sentinel, get_digest produces the intended digest. */
  lemma AsWrittenBelowSentinel(rtts: RttMap, total: int, unloaded: Baselines)
    requires forall k :: k in rtts ==> k < Sentinel
    ensures DigestAsWritten(rtts, total, unloaded) == DigestOf(rtts, total, unloaded)
  {
    if DigestOf(rtts, total, unloaded).Ok? {
      var last := SortedLengths(rtts)[|rtts| - 1];
      assert last in SortedLengths(rtts);
      assert last in rtts;
    }
  }

  /**
   * While every length lies below the sentinel and the total is the number of samples,
   * the digest get_digest produces accounts for every sample and ends at fraction 1.
   */
  lemma BelowSentinelSummary(rtts: RttMap, total: int, unloaded: Baselines)
    requires forall k :: k in rtts ==> k < Sentinel
    requires total == TotalSamples(rtts)
    requires DigestAsWritten(rtts, total, unloaded).Ok?
    ensures var rows := DigestAsWritten(rtts, total, unloaded).value.rows;
      SumCounts(rows) == total && |rows| > 0 && rows[|rows| - 1].cumFrac == 1.0
  {
    AsWrittenBelowSentinel(rtts, total, unloaded);
    DigestCountsAllSamples(rtts, total, unloaded);
    DigestCumFracs(rtts, total, unloaded);
  }

  /**
   * A length at or above the sentinel spoils the digest: the intended digest exists, but
   * get_digest raises or leaves out the bucket of the largest length.
   */
  lemma AsWrittenAtSentinel(rtts: RttMap, total: int, unloaded: Baselines, k: int)
    requires k in rtts && k >= Sentinel
    requires DigestOf(rtts, total, unloaded).Ok?
    ensures DigestAsWritten(rtts, total, unloaded).Ok? ==>
      |DigestAsWritten(rtts, total, unloaded).value.rows| == |DigestOf(rtts, total, unloaded).value.rows| - 1
    ensures DigestAsWritten(rtts, total, unloaded) != DigestOf(rtts, total, unloaded)
  {
    var ks := SortedLengths(rtts);
    var n := |rtts|;
    assert k in ks;
    var i :| 0 <= i < n && ks[i] == k;
    if i < n - 1 {
      assert Ascends(ks, i, n - 1);
    }
    assert SweepLengths(rtts)[n - 1] == ks[n - 1] >= Sentinel;
  }

  /**
   * The smallest case: one sample of length 999999999 with total 1 and a baseline of 1.0
   * for that length. The intended digest has one row; get_digest emits none.
   */
  lemma SentinelLengthExample()
    ensures var rtts := map[Sentinel := [5.0]];
      var unloaded := map[Sentinel := 1.0];
      DigestOf(rtts, 1, unloaded).Ok? && |DigestOf(rtts, 1, unloaded).value.rows| == 1 &&
      DigestAsWritten(rtts, 1, unloaded) == Ok(Digest(rtts, 1, []))
  {
    var rtts := map[Sentinel := [5.0]];
    var unloaded := map[Sentinel := 1.0];
    var ks := SortedLengths(rtts);
    var k0 := ks[0];
    assert k0 in ks;
    assert ks == [Sentinel];
    assert unloaded.Keys == {Sentinel};
    var lengths := SweepLengths(rtts);
    assert lengths == [Sentinel, Sentinel];
    assert BaselineAfter(unloaded, lengths, 1) == 1.0;
    assert BaselineAfter(unloaded, lengths, 2) == 1.0;
    assert AllDivide(rtts, unloaded, 1);
    assert Divides(rtts, unloaded, lengths, 1);
  }

  // Two samples of length 100 (10.0 and 20.0) and one of length 200 (30.0), with
  // baselines 10.0 and 15.0 for those lengths.
  const ExampleRtts: RttMap := map[100 := [10.0, 20.0], 200 := [30.0]]
  const ExampleBaselines: Baselines := map[100 := 10.0, 200 := 15.0]

  lemma ExampleLengths()
    ensures SortedLengths(ExampleRtts) == [100, 200]
    ensures SweepLengths(ExampleRtts) == [100, 200, Sentinel]
  {
    assert Ascends([100, 200], 0, 1);
    assert forall k :: k in SortedLengths(ExampleRtts) <==> k in [100, 200];
    SortedUnique(SortedLengths(ExampleRtts), [100, 200]);
  }

  /** Two of the three samples are of length 100 or less, all three of length 200 or less. */
  lemma ExampleFractions()
    ensures CumFrac(ExampleRtts, 3, 100) == 2.0 / 3.0
    ensures CumFrac(ExampleRtts, 3, 200) == 1.0
  {
    var ks := SortedLengths(ExampleRtts);
    ExampleLengths();
    PrefixSamples(ExampleRtts, 0);
    PrefixSamples(ExampleRtts, 1);
    assert ks[..1] == [100] && ks[..2] == [100, 200];
    assert SumLens(ExampleRtts, [100]) == 2;
    assert SumLens(ExampleRtts, [100, 200]) == 3;
  }

  /** Each length is divided by its own baseline. */
  lemma ExampleBaselinesInForce()
    ensures |ExampleBaselines| > 0
    ensures BaselineAfter(ExampleBaselines, SweepLengths(ExampleRtts), 1) == 10.0
    ensures BaselineAfter(ExampleBaselines, SweepLengths(ExampleRtts), 2) == 15.0
    ensures AllDivide(ExampleRtts, ExampleBaselines, 2)
  {
    ExampleLengths();
    assert 100 in ExampleBaselines;
    var lengths := SweepLengths(ExampleRtts);
    assert BaselineAfter(ExampleBaselines, lengths, 1) == 10.0;
    assert BaselineAfter(ExampleBaselines, lengths, 2) == 15.0;
  }

  /** The two buckets as the sweep closes them. */
  lemma ExampleClosed()
    ensures |ExampleRtts| == 2 && |ExampleBaselines| > 0 && AllDivide(ExampleRtts, ExampleBaselines, 2)
    ensures ClosedAt(ExampleRtts, 3, ExampleBaselines, 0) == Closed(100, 2.0 / 3.0, 2, [10.0, 20.0], [1.0, 2.0])
    ensures ClosedAt(ExampleRtts, 3, ExampleBaselines, 1) == Closed(200, 1.0, 1, [30.0], [2.0])
  {
    ExampleLengths();
    ExampleFractions();
    ExampleBaselinesInForce();
    assert Slowdowns([10.0], 10.0) == [1.0];
    assert Slowdowns([10.0, 20.0], 10.0) == [1.0, 2.0];
    assert Slowdowns([30.0], 15.0) == [2.0];
  }

  /** The row of the first bucket: both percentiles are read at index 1 (2 // 2, 198 // 100, 1998 // 1000). */
  lemma ExampleFirstRow()
    ensures |ExampleRtts| == 2 && |ExampleBaselines| > 0 && AllDivide(ExampleRtts, ExampleBaselines, 2)
    ensures RowAt(ExampleRtts, 3, ExampleBaselines, 0) ==
            Row(100, 2.0 / 3.0, 2, Spread(20.0, 20.0, 20.0), Spread(2.0, 2.0, 2.0))
  {
    ExampleClosed();
    SpreadOfPair(10.0, 20.0);
    SpreadOfPair(1.0, 2.0);
  }

  /** The row of the second bucket, whose single sample is every percentile. */
  lemma ExampleSecondRow()
    ensures |ExampleRtts| == 2 && |ExampleBaselines| > 0 && AllDivide(ExampleRtts, ExampleBaselines, 2)
    ensures RowAt(ExampleRtts, 3, ExampleBaselines, 1) ==
            Row(200, 1.0, 1, Spread(30.0, 30.0, 30.0), Spread(2.0, 2.0, 2.0))
  {
    ExampleClosed();
    SpreadOfOne(30.0);
    SpreadOfOne(2.0);
  }

  /**
   * The digest of the example: the buckets end at fractions 2/3 and 1; the first reports
   * the RTT at index 2 // 2 = 1 of [10.0, 20.0] and the slowdown 2.0, the second its only
   * RTT and 2.0.
   */
  lemma DigestExample()
    ensures DigestOf(ExampleRtts, 3, ExampleBaselines) ==
      Ok(Digest(ExampleRtts, 3, [Row(100, 2.0 / 3.0, 2, Spread(20.0, 20.0, 20.0), Spread(2.0, 2.0, 2.0)),
                                 Row(200, 1.0, 1, Spread(30.0, 30.0, 30.0), Spread(2.0, 2.0, 2.0))]))
  {
    ExampleFirstRow();
    ExampleSecondRow();
    var rs := Rows(ExampleRtts, 3, ExampleBaselines, 2);
    PairOf(rs, RowAt(ExampleRtts, 3, ExampleBaselines, 0), RowAt(ExampleRtts, 3, ExampleBaselines, 1));
    assert DigestOf(ExampleRtts, 3, ExampleBaselines) == Ok(Digest(ExampleRtts, 3, rs));
  }

  lemma PairOf(s: seq<Row>, a: Row, b: Row)
    requires |s| == 2 && s[0] == a && s[1] == b
    ensures s == [a, b]
  {
  }

  /** In a bucket of two samples all three percentiles are the larger one. */
  lemma SpreadOfPair(x: real, y: real)
    requires x <= y
    ensures SpreadOf([x, y]) == Spread(y, y, y)
  {
    SortedPair(x, y);
  }

  /** In a bucket of one sample all three percentiles are that sample. */
  lemma SpreadOfOne(x: real)
    ensures SpreadOf([x]) == Spread(x, x, x)
  {
    assert Sorted([x]) == [x];
  }

  /** A sorted pair stays as it is. */
  lemma SortedPair(x: real, y: real)
    requires x <= y
    ensures Sorted([x, y]) == [x, y]
  {
    assert [x, y][..1] == [x];
    assert Sorted([x]) == [x];
  }
}
