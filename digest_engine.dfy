/**
 * get_digest: the per-length digest of one experiment. The samples of each
 * distinct message length form one bucket; for every bucket the digest lists
 * the length, its cumulative fraction, the number of samples, the 50th, 99th
 * and 99.9th percentile RTTs and the same percentiles of the slowdowns, each
 * RTT divided by the unloaded p50 RTT in force at that length.
 */
module DigestEngine {
  import opened Wrappers
  import opened RttMaps
  import opened Bucketizer
  import opened Sorting
  import opened BucketSummary

  /** The length appended to the sorted lengths to force one extra sweep step. */
  const Sentinel: int := 999999999

  /** unloaded_p50: the p50 RTT of an unloaded system, by message length. */
  type Baselines = map<int, real>

  /** One line of the digest. */
  datatype Row = Row(length: int, cumFrac: real, count: nat, rtt: Spread, slowdown: Spread)

  /**
   * The digest dictionary: the samples it was made from, their number, and its rows.
   * Row j holds entry j of each of the nine parallel lists (lengths, cum_frac, counts,
   * p50, p99, p999, slow_50, slow_99, slow_999).
   */
  datatype Digest = Digest(rtts: RttMap, totalMessages: int, rows: seq<Row>)

  /** The lengths the sweep visits: every length in ascending order, then the sentinel. */
  function SweepLengths(rtts: RttMap): (r: seq<int>)
    ensures |r| == |rtts| + 1
  {
    SortedLengths(rtts) + [Sentinel]
  }

  /** A baseline map with an entry has a smallest length. */
  lemma BaselinesHaveMin(unloaded: Baselines)
    requires |unloaded| > 0
    ensures unloaded.Keys != {}
  {
    assert |unloaded.Keys| == |unloaded|;
  }

  /**
   * cur_unloaded once the sweep has passed the first i entries of lengths: it starts at
   * the baseline of the smallest baseline length and takes the baseline of every
   * visited length that has one.
   */
  function BaselineAfter(unloaded: Baselines, lengths: seq<int>, i: nat): real
    requires |unloaded| > 0
    requires i <= |lengths|
  {
    if i == 0 then
      BaselinesHaveMin(unloaded);
      unloaded[SetMin(unloaded.Keys)]
    else if lengths[i - 1] in unloaded then unloaded[lengths[i - 1]]
    else BaselineAfter(unloaded, lengths, i - 1)
  }

  /** With no baseline among the first i visited lengths, the sweep still uses the smallest. */
  lemma {:induction false} BaselineBeforeAnyKnown(unloaded: Baselines, lengths: seq<int>, i: nat)
    requires |unloaded| > 0
    requires i <= |lengths|
    requires forall j :: 0 <= j < i ==> lengths[j] !in unloaded
    ensures unloaded.Keys != {}
    ensures BaselineAfter(unloaded, lengths, i) == unloaded[SetMin(unloaded.Keys)]
  {
    BaselinesHaveMin(unloaded);
    if i > 0 {
      BaselineBeforeAnyKnown(unloaded, lengths, i - 1);
    }
  }

  /** Otherwise it uses the baseline of the last visited length that has one. */
  lemma {:induction false} BaselineIsLatestKnown(unloaded: Baselines, lengths: seq<int>, i: nat, j: nat)
    requires |unloaded| > 0
    requires j < i <= |lengths|
    requires lengths[j] in unloaded
    requires forall k :: j < k < i ==> lengths[k] !in unloaded
    ensures BaselineAfter(unloaded, lengths, i) == unloaded[lengths[j]]
  {
    if i - 1 > j {
      BaselineIsLatestKnown(unloaded, lengths, i - 1, j);
    }
  }

  /** The slowdowns of samples s against a baseline: each RTT divided by it. */
  function Slowdowns(s: seq<real>, base: real): (r: seq<real>)
    requires base != 0.0 || s == []
    ensures |r| == |s|
  {
    if s == [] then [] else Slowdowns(s[..|s| - 1], base) + [s[|s| - 1] / base]
  }

  /** Each slowdown times the baseline is its RTT. */
  lemma {:induction false} SlowdownsScale(s: seq<real>, base: real, j: nat)
    requires base != 0.0 || s == []
    requires j < |s|
    ensures Slowdowns(s, base)[j] * base == s[j]
  {
    if j < |s| - 1 {
      SlowdownsScale(s[..|s| - 1], base, j);
    }
  }

  /**
   * Visiting entry i of lengths divides by a non-zero baseline, or has nothing to divide:
   * otherwise rtt/cur_unloaded raises ZeroDivisionError.
   */
  predicate Divides(rtts: RttMap, unloaded: Baselines, lengths: seq<int>, i: nat)
    requires |unloaded| > 0
    requires i < |lengths| && lengths[i] in rtts
  {
    BaselineAfter(unloaded, lengths, i + 1) != 0.0 || rtts[lengths[i]] == []
  }

  /** Every one of the first i lengths divides safely. */
  predicate AllDivide(rtts: RttMap, unloaded: Baselines, i: nat)
    requires |unloaded| > 0
    requires i <= |rtts|
  {
    var lengths := SweepLengths(rtts);
    forall j :: 0 <= j < i ==> lengths[j] in rtts && Divides(rtts, unloaded, lengths, j)
  }

  /**
   * A bucket as the sweep closes it, before its percentiles are read: its length,
   * cumulative fraction and count, its RTTs and their slowdowns.
   */
  datatype Closed = Closed(length: int, cumFrac: real, count: nat, rtts: seq<real>, slowdowns: seq<real>)

  /** The row of a closed bucket: an empty bucket reads as the single sample 0. */
  function RowOf(c: Closed): Row {
    Row(c.length, c.cumFrac, c.count, SpreadOf(c.rtts), SpreadOf(c.slowdowns))
  }

  /** The rows of closed buckets, in order. */
  function RowsOf(cs: seq<Closed>): (r: seq<Row>)
    ensures |r| == |cs|
  {
    seq(|cs|, j requires 0 <= j < |cs| => RowOf(cs[j]))
  }

  lemma RowsOfSnoc(cs: seq<Closed>, c: Closed)
    ensures RowsOf(cs + [c]) == RowsOf(cs) + [RowOf(c)]
  {
    var rs := RowsOf(cs + [c]);
    forall j | 0 <= j < |cs|
      ensures rs[j] == RowsOf(cs)[j]
    {
      assert (cs + [c])[j] == cs[j];
    }
    assert rs[|cs|] == RowOf(c);
  }

  /** The bucket of the j-th smallest length as the sweep closes it. */
  function ClosedAt(rtts: RttMap, total: int, unloaded: Baselines, j: nat): (r: Closed)
    requires total != 0 && |unloaded| > 0
    requires j < |rtts| && AllDivide(rtts, unloaded, j + 1)
    ensures r.length == SortedLengths(rtts)[j]
    ensures r.length in rtts && r.count == |rtts[r.length]| && r.rtts == rtts[r.length]
    ensures r.cumFrac == CumFrac(rtts, total, r.length)
  {
    var lengths := SweepLengths(rtts);
    var length := lengths[j];
    var cumFrac := CumFrac(rtts, total, length);
    var samples := rtts[length];
    var base := BaselineAfter(unloaded, lengths, j + 1);
    Closed(length, cumFrac, |samples|, samples, Slowdowns(samples, base))
  }

  /** The row get_digest emits for the bucket of the j-th smallest length. */
  function RowAt(rtts: RttMap, total: int, unloaded: Baselines, j: nat): (r: Row)
    requires total != 0 && |unloaded| > 0
    requires j < |rtts| && AllDivide(rtts, unloaded, j + 1)
    ensures r.length == SortedLengths(rtts)[j]
    ensures r.length in rtts && r.count == |rtts[r.length]|
    ensures r.cumFrac == CumFrac(rtts, total, r.length)
  {
    RowOf(ClosedAt(rtts, total, unloaded, j))
  }

  /** The first count rows, in the order the sweep emits them. */
  function Rows(rtts: RttMap, total: int, unloaded: Baselines, count: nat): (r: seq<Row>)
    requires total != 0 && |unloaded| > 0
    requires count <= |rtts| && AllDivide(rtts, unloaded, count)
    ensures |r| == count
  {
    seq(count, j requires 0 <= j < count => RowAt(rtts, total, unloaded, j))
  }

  /**
   * The digest get_digest is meant to produce, one row per length, or the exception it
   * raises, in the order the code meets them: no baseline at all, a zero total
   * (get_buckets), no samples (buckets[0]), a zero baseline for a length with samples.
   */
  function DigestOf(rtts: RttMap, total: int, unloaded: Baselines): Result<Digest> {
    if |unloaded| == 0 then Err(NoUnloadedData)
    else if total == 0 && |rtts| > 0 then Err(ZeroDivisionError)
    else if |rtts| == 0 then Err(IndexError)
    else if !AllDivide(rtts, unloaded, |rtts|) then Err(ZeroDivisionError)
    else Ok(Digest(rtts, total, Rows(rtts, total, unloaded, |rtts|)))
  }

  /**
   * The digest get_digest produces as written. It is DigestOf unless the largest length
   * is the sentinel or above; then the sentinel step does not close the last bucket but
   * adds the sentinel length's samples to it again (KeyError when there are none), and
   * that bucket is never emitted.
   */
  function DigestAsWritten(rtts: RttMap, total: int, unloaded: Baselines): Result<Digest> {
    var d := DigestOf(rtts, total, unloaded);
    if d.Err? then d
    else
      var n := |rtts|;
      var lengths := SweepLengths(rtts);
      if lengths[n - 1] < Sentinel then d
      else if Sentinel !in rtts then Err(KeyError)
      else if !Divides(rtts, unloaded, lengths, n) then Err(ZeroDivisionError)
      else Ok(Digest(rtts, total, Rows(rtts, total, unloaded, n - 1)))
  }

  /** The local variables of the sweep between two steps; done records that it broke off. */
  datatype SweepState = SweepState(
    bucketLength: int, bucketCumFrac: real, nextBucket: nat,
    bucketRtts: seq<real>, bucketSlowdowns: seq<real>, bucketCount: nat,
    curUnloaded: real, closed: seq<Closed>, done: bool)

  /** The buckets get_buckets returns for a non-zero total. */
  function BucketsOf(rtts: RttMap, total: int): (r: seq<Bucket>)
    requires total != 0
    ensures |r| == |rtts|
  {
    var ks := SortedLengths(rtts);
    seq(|rtts|, i requires 0 <= i < |rtts| => Bucket(ks[i], CumFrac(rtts, total, ks[i])))
  }

  /** The state before the first step: the first bucket is open and empty. */
  function InitialState(unloaded: Baselines, buckets: seq<Bucket>): SweepState
    requires |unloaded| > 0 && |buckets| > 0
  {
    BaselinesHaveMin(unloaded);
    SweepState(buckets[0].length, buckets[0].cumFrac, 1, [], [], 0,
               unloaded[SetMin(unloaded.Keys)], [], false)
  }

  /**
   * Closing the open bucket: it joins the closed ones; then the next bucket opens, or,
   * with no bucket left, the sweep breaks off.
   */
  function Flush(buckets: seq<Bucket>, st: SweepState): SweepState {
    var c := Closed(st.bucketLength, st.bucketCumFrac, st.bucketCount, st.bucketRtts, st.bucketSlowdowns);
    if st.nextBucket >= |buckets| then st.(closed := st.closed + [c], done := true)
    else
      var b := buckets[st.nextBucket];
      SweepState(b.length, b.cumFrac, st.nextBucket + 1, [], [], 0, st.curUnloaded, st.closed + [c], false)
  }

  /**
   * One step of the sweep at a visited length: flush when the length moves past the open
   * bucket, take the length's baseline if it has one, then add its samples and their
   * slowdowns to the bucket.
   */
  function SweepStep(rtts: RttMap, unloaded: Baselines, buckets: seq<Bucket>, st: SweepState,
                     length: int): Result<SweepState>
  {
    var st1 := if length > st.bucketLength then Flush(buckets, st) else st;
    if st1.done then Ok(st1) else Absorb(rtts, unloaded, st1, length)
  }

  /**
   * The rest of a step: the length's baseline replaces the current one if it has one,
   * and its samples and their slowdowns join the open bucket.
   */
  function Absorb(rtts: RttMap, unloaded: Baselines, st: SweepState, length: int): Result<SweepState> {
    var cur := if length in unloaded then unloaded[length] else st.curUnloaded;
    if length !in rtts then Err(KeyError)
    else
      var samples := rtts[length];
      if cur == 0.0 && samples != [] then Err(ZeroDivisionError)
      else Ok(st.(curUnloaded := cur, bucketCount := st.bucketCount + |samples|,
                  bucketRtts := st.bucketRtts + samples,
                  bucketSlowdowns := st.bucketSlowdowns + Slowdowns(samples, cur)))
  }

  /** The sweep over the given lengths, from the state init; it stops at an exception or the break. */
  function SweepOver(rtts: RttMap, unloaded: Baselines, buckets: seq<Bucket>, init: SweepState,
                     lengths: seq<int>): Result<SweepState>
    decreases |lengths|
  {
    if lengths == [] then Ok(init)
    else
      match SweepOver(rtts, unloaded, buckets, init, lengths[..|lengths| - 1])
      case Err(e) => Err(e)
      case Ok(st) =>
        if st.done then Ok(st) else SweepStep(rtts, unloaded, buckets, st, lengths[|lengths| - 1])
  }

  /** The rows the sweep over the given lengths emits, or the exception it raises. */
  function SweepRows(rtts: RttMap, unloaded: Baselines, buckets: seq<Bucket>, lengths: seq<int>): Result<seq<Row>>
    requires |unloaded| > 0 && |buckets| > 0
  {
    match SweepOver(rtts, unloaded, buckets, InitialState(unloaded, buckets), lengths)
    case Err(e) => Err(e)
    case Ok(st) => Ok(RowsOf(st.closed))
  }

  /** get_digest after read_rtts, step by step as the code runs. */
  function Sweep(rtts: RttMap, total: int, unloaded: Baselines): Result<Digest> {
    if |unloaded| == 0 then Err(NoUnloadedData)
    else if total == 0 && |rtts| > 0 then Err(ZeroDivisionError)
    else if |rtts| == 0 then Err(IndexError)
    else
      match SweepRows(rtts, unloaded, BucketsOf(rtts, total), SweepLengths(rtts))
      case Err(e) => Err(e)
      case Ok(rows) => Ok(Digest(rtts, total, rows))
  }

  /** Absorbing a length that has samples to divide adds them to the open bucket. */
  lemma AbsorbAdds(rtts: RttMap, unloaded: Baselines, st: SweepState, length: int, cur: real)
    requires length in rtts
    requires cur == if length in unloaded then unloaded[length] else st.curUnloaded
    requires cur != 0.0 || rtts[length] == []
    ensures Absorb(rtts, unloaded, st, length) ==
      Ok(SweepState(st.bucketLength, st.bucketCumFrac, st.nextBucket, st.bucketRtts + rtts[length],
                    st.bucketSlowdowns + Slowdowns(rtts[length], cur), st.bucketCount + |rtts[length]|,
                    cur, st.closed, st.done))
  {
  }

  /** The same, stated for the bucket contents after the step. */
  lemma AbsorbInto(rtts: RttMap, unloaded: Baselines, st: SweepState, length: int, cur: real,
                   bucketRtts: seq<real>, bucketSlowdowns: seq<real>, bucketCount: nat)
    requires length in rtts
    requires cur == if length in unloaded then unloaded[length] else st.curUnloaded
    requires cur != 0.0 || rtts[length] == []
    requires bucketRtts == st.bucketRtts + rtts[length]
    requires bucketSlowdowns == st.bucketSlowdowns + Slowdowns(rtts[length], cur)
    requires bucketCount == st.bucketCount + |rtts[length]|
    ensures Absorb(rtts, unloaded, st, length) ==
      Ok(SweepState(st.bucketLength, st.bucketCumFrac, st.nextBucket, bucketRtts, bucketSlowdowns,
                    bucketCount, cur, st.closed, st.done))
  {
    AbsorbAdds(rtts, unloaded, st, length, cur);
  }

  /** A flush with no bucket left ends the sweep with the open bucket closed. */
  lemma SweepStepBreaks(rtts: RttMap, unloaded: Baselines, buckets: seq<Bucket>, st: SweepState, length: int)
    requires length > st.bucketLength && st.nextBucket >= |buckets|
    ensures SweepStep(rtts, unloaded, buckets, st, length) ==
      Ok(SweepState(st.bucketLength, st.bucketCumFrac, st.nextBucket, st.bucketRtts, st.bucketSlowdowns,
                    st.bucketCount, st.curUnloaded,
                    st.closed + [Closed(st.bucketLength, st.bucketCumFrac, st.bucketCount,
                                        st.bucketRtts, st.bucketSlowdowns)], true))
  {
  }

  /** A sweep that ends in a state emits the rows of its closed buckets. */
  lemma SweepRowsOf(rtts: RttMap, unloaded: Baselines, buckets: seq<Bucket>, lengths: seq<int>, st: SweepState)
    requires |unloaded| > 0 && |buckets| > 0
    requires SweepOver(rtts, unloaded, buckets, InitialState(unloaded, buckets), lengths) == Ok(st)
    ensures SweepRows(rtts, unloaded, buckets, lengths) == Ok(RowsOf(st.closed))
  {
  }

  /** Once the sweep has raised or broken off, the remaining lengths change nothing. */
  lemma {:induction false} SweepOverSettled(rtts: RttMap, unloaded: Baselines, buckets: seq<Bucket>,
                                            init: SweepState, lengths: seq<int>, i: nat, j: nat)
    requires i <= j <= |lengths|
    requires SweepOver(rtts, unloaded, buckets, init, lengths[..i]).Err? ||
             SweepOver(rtts, unloaded, buckets, init, lengths[..i]).value.done
    ensures SweepOver(rtts, unloaded, buckets, init, lengths[..j]) ==
            SweepOver(rtts, unloaded, buckets, init, lengths[..i])
    decreases j
  {
    if j > i {
      SweepOverSettled(rtts, unloaded, buckets, init, lengths, i, j - 1);
      assert lengths[..j][..j - 1] == lengths[..j - 1];
    }
  }

  /** AllDivide grows one length at a time. */
  lemma AllDivideNext(rtts: RttMap, unloaded: Baselines, i: nat)
    requires |unloaded| > 0 && i < |rtts|
    ensures AllDivide(rtts, unloaded, i + 1) <==>
      AllDivide(rtts, unloaded, i) && SweepLengths(rtts)[i] in rtts &&
      Divides(rtts, unloaded, SweepLengths(rtts), i)
  {
  }

  /** The buckets of the first count lengths, closed in the order the sweep closes them. */
  function ClosedUpTo(rtts: RttMap, total: int, unloaded: Baselines, count: nat): (r: seq<Closed>)
    requires total != 0 && |unloaded| > 0
    requires count <= |rtts| && AllDivide(rtts, unloaded, count)
    ensures |r| == count
  {
    seq(count, j requires 0 <= j < count => ClosedAt(rtts, total, unloaded, j))
  }

  /** Their rows are the first count rows. */
  lemma RowsOfClosed(rtts: RttMap, total: int, unloaded: Baselines, count: nat)
    requires total != 0 && |unloaded| > 0
    requires count <= |rtts| && AllDivide(rtts, unloaded, count)
    ensures RowsOf(ClosedUpTo(rtts, total, unloaded, count)) == Rows(rtts, total, unloaded, count)
  {
    var cs := ClosedUpTo(rtts, total, unloaded, count);
    var rs := Rows(rtts, total, unloaded, count);
    forall j | 0 <= j < count
      ensures RowsOf(cs)[j] == rs[j]
    {
      assert cs[j] == ClosedAt(rtts, total, unloaded, j);
    }
  }

  /** One more closed bucket is the next one in order. */
  lemma ClosedUpToSnoc(rtts: RttMap, total: int, unloaded: Baselines, count: nat)
    requires total != 0 && |unloaded| > 0
    requires count < |rtts| && AllDivide(rtts, unloaded, count + 1)
    ensures ClosedUpTo(rtts, total, unloaded, count + 1) ==
            ClosedUpTo(rtts, total, unloaded, count) + [ClosedAt(rtts, total, unloaded, count)]
  {
    var cs := ClosedUpTo(rtts, total, unloaded, count);
    var cs' := ClosedUpTo(rtts, total, unloaded, count + 1);
    forall j | 0 <= j < count
      ensures cs'[j] == cs[j]
    {
    }
  }

  /**
   * The state after the first i lengths (0 < i <= number of lengths) when none of them
   * met a zero baseline: the bucket of the i-th length is open and holds its samples,
   * and the buckets of the lengths before it are closed.
   */
  function OpenState(rtts: RttMap, total: int, unloaded: Baselines, i: nat): SweepState
    requires total != 0 && |unloaded| > 0
    requires 0 < i <= |rtts| && AllDivide(rtts, unloaded, i)
  {
    var c := ClosedAt(rtts, total, unloaded, i - 1);
    SweepState(c.length, c.cumFrac, i, c.rtts, c.slowdowns, c.count,
               BaselineAfter(unloaded, SweepLengths(rtts), i),
               ClosedUpTo(rtts, total, unloaded, i - 1), false)
  }

  /**
   * A step at a length past the open bucket, with a bucket left: the bucket is closed and
   * the next one opens holding the length's samples, unless they meet a zero baseline.
   */
  lemma SweepStepOpens(rtts: RttMap, unloaded: Baselines, buckets: seq<Bucket>, st: SweepState,
                       length: int, cur: real)
    requires length > st.bucketLength && st.nextBucket < |buckets| && length in rtts
    requires cur == if length in unloaded then unloaded[length] else st.curUnloaded
    ensures SweepStep(rtts, unloaded, buckets, st, length) ==
      if cur == 0.0 && rtts[length] != [] then Err(ZeroDivisionError)
      else Ok(SweepState(buckets[st.nextBucket].length, buckets[st.nextBucket].cumFrac, st.nextBucket + 1,
                         rtts[length], Slowdowns(rtts[length], cur), |rtts[length]|, cur,
                         st.closed + [Closed(st.bucketLength, st.bucketCumFrac, st.bucketCount,
                                             st.bucketRtts, st.bucketSlowdowns)], false))
  {
    var samples := rtts[length];
    assert [] + samples == samples;
    if cur != 0.0 || samples == [] {
      assert [] + Slowdowns(samples, cur) == Slowdowns(samples, cur);
    }
  }

  /** A step at the length of the open bucket adds its samples, unless they meet a zero baseline. */
  lemma SweepStepStays(rtts: RttMap, unloaded: Baselines, buckets: seq<Bucket>, st: SweepState,
                       length: int, cur: real)
    requires length <= st.bucketLength && !st.done && length in rtts
    requires cur == if length in unloaded then unloaded[length] else st.curUnloaded
    ensures SweepStep(rtts, unloaded, buckets, st, length) ==
      if cur == 0.0 && rtts[length] != [] then Err(ZeroDivisionError)
      else Ok(st.(bucketRtts := st.bucketRtts + rtts[length],
                  bucketSlowdowns := st.bucketSlowdowns + Slowdowns(rtts[length], cur),
                  bucketCount := st.bucketCount + |rtts[length]|, curUnloaded := cur))
  {
  }

  /** The baseline after visiting entry i is that entry's, or the one before. */
  lemma BaselineStep(unloaded: Baselines, lengths: seq<int>, i: nat)
    requires |unloaded| > 0 && i < |lengths|
    ensures BaselineAfter(unloaded, lengths, i + 1) ==
      if lengths[i] in unloaded then unloaded[lengths[i]] else BaselineAfter(unloaded, lengths, i)
  {
  }

  /** The first step opens the bucket of the smallest length. */
  lemma SweepFirst(rtts: RttMap, total: int, unloaded: Baselines)
    requires total != 0 && |unloaded| > 0 && |rtts| > 0
    ensures SweepOver(rtts, unloaded, BucketsOf(rtts, total),
                      InitialState(unloaded, BucketsOf(rtts, total)), SweepLengths(rtts)[..1]) ==
      if AllDivide(rtts, unloaded, 1) then Ok(OpenState(rtts, total, unloaded, 1))
      else Err(ZeroDivisionError)
  {
    var lengths := SweepLengths(rtts);
    var buckets := BucketsOf(rtts, total);
    var init := InitialState(unloaded, buckets);
    assert lengths[..1][..0] == [];
    var length := lengths[0];
    assert length in rtts;
    AllDivideNext(rtts, unloaded, 0);
    BaselineStep(unloaded, lengths, 0);
    var cur := BaselineAfter(unloaded, lengths, 1);
    assert SweepOver(rtts, unloaded, buckets, init, lengths[..1]) ==
           SweepStep(rtts, unloaded, buckets, init, length);
    SweepStepStays(rtts, unloaded, buckets, init, length, cur);
    if AllDivide(rtts, unloaded, 1) {
      var c := ClosedAt(rtts, total, unloaded, 0);
      assert ClosedUpTo(rtts, total, unloaded, 0) == [];
      assert init.bucketRtts + rtts[length] == c.rtts;
      assert init.bucketSlowdowns + Slowdowns(rtts[length], cur) == c.slowdowns;
    }
  }

  /** A step inside the lengths closes the previous bucket and opens the next one. */
  lemma SweepNext(rtts: RttMap, total: int, unloaded: Baselines, i: nat)
    requires total != 0 && |unloaded| > 0
    requires 0 < i < |rtts| && AllDivide(rtts, unloaded, i)
    requires SweepOver(rtts, unloaded, BucketsOf(rtts, total),
                       InitialState(unloaded, BucketsOf(rtts, total)), SweepLengths(rtts)[..i]) ==
             Ok(OpenState(rtts, total, unloaded, i))
    ensures SweepOver(rtts, unloaded, BucketsOf(rtts, total),
                      InitialState(unloaded, BucketsOf(rtts, total)), SweepLengths(rtts)[..i + 1]) ==
      if AllDivide(rtts, unloaded, i + 1) then Ok(OpenState(rtts, total, unloaded, i + 1))
      else Err(ZeroDivisionError)
  {
    var lengths := SweepLengths(rtts);
    var buckets := BucketsOf(rtts, total);
    var init := InitialState(unloaded, buckets);
    var st := OpenState(rtts, total, unloaded, i);
    assert lengths[..i + 1][..i] == lengths[..i];
    assert SweepOver(rtts, unloaded, buckets, init, lengths[..i + 1]) ==
           SweepStep(rtts, unloaded, buckets, st, lengths[i]);
    var length := lengths[i];
    assert Ascends(SortedLengths(rtts), i - 1, i);
    assert lengths[i - 1] < length;
    assert length in rtts;
    AllDivideNext(rtts, unloaded, i);
    BaselineStep(unloaded, lengths, i);
    var cur := BaselineAfter(unloaded, lengths, i + 1);
    SweepStepOpens(rtts, unloaded, buckets, st, length, cur);
    if AllDivide(rtts, unloaded, i + 1) {
      var c := ClosedAt(rtts, total, unloaded, i - 1);
      assert Closed(st.bucketLength, st.bucketCumFrac, st.bucketCount, st.bucketRtts, st.bucketSlowdowns) == c;
      ClosedUpToSnoc(rtts, total, unloaded, i - 1);
      assert buckets[i] == Bucket(length, CumFrac(rtts, total, length));
    }
  }

  /** Up to the last length, the sweep holds the open bucket of the latest length. */
  lemma {:induction false} SweepPrefix(rtts: RttMap, total: int, unloaded: Baselines, i: nat)
    requires total != 0 && |unloaded| > 0
    requires 0 < i <= |rtts|
    ensures SweepOver(rtts, unloaded, BucketsOf(rtts, total),
                      InitialState(unloaded, BucketsOf(rtts, total)), SweepLengths(rtts)[..i]) ==
      if AllDivide(rtts, unloaded, i) then Ok(OpenState(rtts, total, unloaded, i))
      else Err(ZeroDivisionError)
  {
    if i == 1 {
      SweepFirst(rtts, total, unloaded);
    } else {
      SweepPrefix(rtts, total, unloaded, i - 1);
      AllDivideNext(rtts, unloaded, i - 1);
      if AllDivide(rtts, unloaded, i - 1) {
        SweepNext(rtts, total, unloaded, i - 1);
      } else {
        assert SweepLengths(rtts)[..i][..i - 1] == SweepLengths(rtts)[..i - 1];
      }
    }
  }

  /** After the last length only the sentinel step is left. */
  lemma SentinelStep(rtts: RttMap, total: int, unloaded: Baselines)
    requires total != 0 && |unloaded| > 0 && |rtts| > 0
    requires AllDivide(rtts, unloaded, |rtts|)
    requires SweepOver(rtts, unloaded, BucketsOf(rtts, total),
                       InitialState(unloaded, BucketsOf(rtts, total)), SweepLengths(rtts)[..|rtts|]) ==
             Ok(OpenState(rtts, total, unloaded, |rtts|))
    ensures SweepOver(rtts, unloaded, BucketsOf(rtts, total),
                      InitialState(unloaded, BucketsOf(rtts, total)), SweepLengths(rtts)) ==
            SweepStep(rtts, unloaded, BucketsOf(rtts, total), OpenState(rtts, total, unloaded, |rtts|), Sentinel)
  {
    var n := |rtts|;
    var lengths := SweepLengths(rtts);
    assert lengths[..n + 1] == lengths;
    assert lengths[..n + 1][..n] == lengths[..n];
  }

  /** Below the sentinel, the sentinel step closes the last bucket and breaks off. */
  lemma SweepEndBelow(rtts: RttMap, total: int, unloaded: Baselines)
    requires total != 0 && |unloaded| > 0 && |rtts| > 0
    requires AllDivide(rtts, unloaded, |rtts|)
    requires SweepLengths(rtts)[|rtts| - 1] < Sentinel
    requires SweepOver(rtts, unloaded, BucketsOf(rtts, total),
                       InitialState(unloaded, BucketsOf(rtts, total)), SweepLengths(rtts)[..|rtts|]) ==
             Ok(OpenState(rtts, total, unloaded, |rtts|))
    ensures SweepRows(rtts, unloaded, BucketsOf(rtts, total), SweepLengths(rtts)) ==
            Ok(Rows(rtts, total, unloaded, |rtts|))
  {
    var n := |rtts|;
    var lengths := SweepLengths(rtts);
    var buckets := BucketsOf(rtts, total);
    var st := OpenState(rtts, total, unloaded, n);
    SentinelStep(rtts, total, unloaded);
    SweepStepBreaks(rtts, unloaded, buckets, st, Sentinel);
    var c := ClosedAt(rtts, total, unloaded, n - 1);
    assert Closed(st.bucketLength, st.bucketCumFrac, st.bucketCount, st.bucketRtts, st.bucketSlowdowns) == c;
    ClosedUpToSnoc(rtts, total, unloaded, n - 1);
    var fin := SweepState(st.bucketLength, st.bucketCumFrac, st.nextBucket, st.bucketRtts, st.bucketSlowdowns,
                          st.bucketCount, st.curUnloaded, ClosedUpTo(rtts, total, unloaded, n), true);
    SweepRowsOf(rtts, unloaded, buckets, lengths, fin);
    RowsOfClosed(rtts, total, unloaded, n);
  }

  /**
   * At or above the sentinel, the sentinel step finds the last bucket still open and adds
   * the sentinel length's samples to it; the sweep ends without closing it, so the rows
   * are those of all buckets but the last.
   */
  lemma SweepEndAbove(rtts: RttMap, total: int, unloaded: Baselines)
    requires total != 0 && |unloaded| > 0 && |rtts| > 0
    requires AllDivide(rtts, unloaded, |rtts|)
    requires SweepLengths(rtts)[|rtts| - 1] >= Sentinel
    requires SweepOver(rtts, unloaded, BucketsOf(rtts, total),
                       InitialState(unloaded, BucketsOf(rtts, total)), SweepLengths(rtts)[..|rtts|]) ==
             Ok(OpenState(rtts, total, unloaded, |rtts|))
    ensures SweepRows(rtts, unloaded, BucketsOf(rtts, total), SweepLengths(rtts)) ==
      if Sentinel !in rtts then Err(KeyError)
      else if !Divides(rtts, unloaded, SweepLengths(rtts), |rtts|) then Err(ZeroDivisionError)
      else Ok(Rows(rtts, total, unloaded, |rtts| - 1))
  {
    var n := |rtts|;
    var lengths := SweepLengths(rtts);
    var buckets := BucketsOf(rtts, total);
    var st := OpenState(rtts, total, unloaded, n);
    assert st.bucketLength == lengths[n - 1] >= Sentinel;
    assert lengths[n] == Sentinel;
    BaselineStep(unloaded, lengths, n);
    var cur := BaselineAfter(unloaded, lengths, n + 1);
    SentinelInsideBucket(rtts, unloaded, buckets, lengths, st, cur);
    RowsOfClosed(rtts, total, unloaded, n - 1);
  }

  /**
   * A last step at the sentinel inside the open bucket adds its samples and ends the
   * sweep, emitting the rows of the buckets closed before it.
   */
  lemma SentinelInsideBucket(rtts: RttMap, unloaded: Baselines, buckets: seq<Bucket>,
                             lengths: seq<int>, st: SweepState, cur: real)
    requires |unloaded| > 0 && |buckets| > 0
    requires |lengths| > 0 && lengths[|lengths| - 1] == Sentinel
    requires SweepOver(rtts, unloaded, buckets, InitialState(unloaded, buckets), lengths[..|lengths| - 1]) == Ok(st)
    requires Sentinel <= st.bucketLength && !st.done
    requires cur == if Sentinel in unloaded then unloaded[Sentinel] else st.curUnloaded
    ensures SweepRows(rtts, unloaded, buckets, lengths) ==
      if Sentinel !in rtts then Err(KeyError)
      else if cur == 0.0 && rtts[Sentinel] != [] then Err(ZeroDivisionError)
      else Ok(RowsOf(st.closed))
  {
  }

  /** The sentinel step, from the open bucket of the largest length. */
  lemma SweepLast(rtts: RttMap, total: int, unloaded: Baselines)
    requires total != 0 && |unloaded| > 0 && |rtts| > 0
    requires AllDivide(rtts, unloaded, |rtts|)
    requires SweepOver(rtts, unloaded, BucketsOf(rtts, total),
                       InitialState(unloaded, BucketsOf(rtts, total)), SweepLengths(rtts)[..|rtts|]) ==
             Ok(OpenState(rtts, total, unloaded, |rtts|))
    ensures Sweep(rtts, total, unloaded) == DigestAsWritten(rtts, total, unloaded)
  {
    if SweepLengths(rtts)[|rtts| - 1] < Sentinel {
      SweepEndBelow(rtts, total, unloaded);
    } else {
      SweepEndAbove(rtts, total, unloaded);
    }
  }

  /** The step-by-step sweep produces the digest described by DigestAsWritten. */
  lemma SweepIsAsWritten(rtts: RttMap, total: int, unloaded: Baselines)
    ensures Sweep(rtts, total, unloaded) == DigestAsWritten(rtts, total, unloaded)
  {
    if |unloaded| > 0 && total != 0 && |rtts| > 0 {
      var n := |rtts|;
      var lengths := SweepLengths(rtts);
      var buckets := BucketsOf(rtts, total);
      var init := InitialState(unloaded, buckets);
      SweepPrefix(rtts, total, unloaded, n);
      if AllDivide(rtts, unloaded, n) {
        SweepLast(rtts, total, unloaded);
      } else {
        SweepOverSettled(rtts, unloaded, buckets, init, lengths, n, n + 1);
        assert lengths[..n + 1] == lengths;
      }
    }
  }

  /**
   * The inner loop of a sweep step: every sample of the visited length joins the bucket,
   * together with its slowdown against the current baseline. A zero baseline stops it at
   * the first sample (ZeroDivisionError), reported as divided == false.
   */
  method AppendSamples(bucketRtts: seq<real>, bucketSlowdowns: seq<real>, samples: seq<real>, curUnloaded: real)
    returns (divided: bool, rtts': seq<real>, slowdowns': seq<real>)
    ensures divided <==> curUnloaded != 0.0 || samples == []
    ensures divided ==> rtts' == bucketRtts + samples
    ensures divided ==> slowdowns' == bucketSlowdowns + Slowdowns(samples, curUnloaded)
  {
    rtts', slowdowns' := bucketRtts, bucketSlowdowns;
    for t := 0 to |samples|
      invariant rtts' == bucketRtts + samples[..t]
      invariant t > 0 ==> curUnloaded != 0.0
      invariant slowdowns' == bucketSlowdowns + Slowdowns(samples[..t], curUnloaded)
    {
      if curUnloaded == 0.0 {
        return false, rtts', slowdowns';
      }
      rtts' := rtts' + [samples[t]];
      slowdowns' := slowdowns' + [samples[t] / curUnloaded];
      assert samples[..t + 1][..t] == samples[..t];
    }
    assert samples[..|samples|] == samples;
    return true, rtts', slowdowns';
  }

  /**
   * The rest of a sweep step on the local variables: the length's baseline replaces the
   * current one if it has one, then its samples and their slowdowns join the bucket.
   * An absent length raises KeyError, a zero baseline ZeroDivisionError.
   */
  method AbsorbLength(rtts: RttMap, unloaded: Baselines, ghost st: SweepState, length: int,
                      curUnloaded: real, bucketRtts: seq<real>, bucketSlowdowns: seq<real>, bucketCount: nat)
    returns (failure: Option<Error>, cur: real, rtts': seq<real>, slowdowns': seq<real>, count': nat)
    requires st.curUnloaded == curUnloaded && st.bucketRtts == bucketRtts
    requires st.bucketSlowdowns == bucketSlowdowns && st.bucketCount == bucketCount
    ensures failure.Some? ==> Absorb(rtts, unloaded, st, length) == Err(failure.value)
    ensures failure.None? ==>
      Absorb(rtts, unloaded, st, length) ==
      Ok(SweepState(st.bucketLength, st.bucketCumFrac, st.nextBucket, rtts', slowdowns', count',
                    cur, st.closed, st.done))
  {
    cur := curUnloaded;
    if length in unloaded {
      cur := unloaded[length];
    }
    if length !in rtts {
      return Some(KeyError), cur, bucketRtts, bucketSlowdowns, bucketCount;
    }
    count' := bucketCount + |rtts[length]|;
    var divided;
    divided, rtts', slowdowns' := AppendSamples(bucketRtts, bucketSlowdowns, rtts[length], cur);
    if !divided {
      return Some(ZeroDivisionError), cur, rtts', slowdowns', count';
    }
    AbsorbInto(rtts, unloaded, st, length, cur, rtts', slowdowns', count');
    failure := None;
  }

  /**
   * get_digest once the samples are read: the sweep over the ascending lengths and the
   * sentinel. Each step first closes the open bucket when the length moves past it, then
   * takes the baseline of the length if there is one and adds the length's samples and
   * slowdowns to the bucket.
   */
  method DigestSamples(rtts: RttMap, totalMessages: int, unloaded: Baselines) returns (r: Result<Digest>)
    ensures r == DigestAsWritten(rtts, totalMessages, unloaded)
  {
    SweepIsAsWritten(rtts, totalMessages, unloaded);
    if |unloaded| == 0 {
      return Err(NoUnloadedData);
    }
    var got := GetBuckets(rtts, totalMessages);
    if got.Err? {
      return Err(got.error);
    }
    var buckets := got.value;
    if |buckets| == 0 {
      return Err(IndexError);
    }
    assert buckets == BucketsOf(rtts, totalMessages);
    var lengths := SweepLengths(rtts);
    var swept := RunSweep(rtts, unloaded, buckets, lengths);
    if swept.Err? {
      return Err(swept.error);
    }
    return Ok(Digest(rtts, totalMessages, swept.value));
  }

  /**
   * The sweep of get_digest over the visited lengths. Each step first closes the open
   * bucket when the length moves past it, breaking off when no bucket is left; then it
   * takes the baseline of the length if there is one and adds the length's samples and
   * slowdowns to the bucket.
   */
  method RunSweep(rtts: RttMap, unloaded: Baselines, buckets: seq<Bucket>, lengths: seq<int>)
    returns (r: Result<seq<Row>>)
    requires |unloaded| > 0 && |buckets| > 0
    ensures r == SweepRows(rtts, unloaded, buckets, lengths)
  {
    var bucketLength, bucketCumFrac := buckets[0].length, buckets[0].cumFrac;
    var nextBucket: nat := 1;
    var bucketRtts: seq<real> := [];
    var bucketSlowdowns: seq<real> := [];
    var bucketCount: nat := 0;
    BaselinesHaveMin(unloaded);
    var curUnloaded := unloaded[SetMin(unloaded.Keys)];
    var rows: seq<Row> := [];
    ghost var init := InitialState(unloaded, buckets);
    ghost var closed: seq<Closed> := [];
    for i := 0 to |lengths|
      invariant rows == RowsOf(closed)
      invariant SweepOver(rtts, unloaded, buckets, init, lengths[..i]) ==
        Ok(SweepState(bucketLength, bucketCumFrac, nextBucket, bucketRtts, bucketSlowdowns,
                      bucketCount, curUnloaded, closed, false))
    {
      var length := lengths[i];
      ghost var st := SweepState(bucketLength, bucketCumFrac, nextBucket, bucketRtts, bucketSlowdowns,
                                 bucketCount, curUnloaded, closed, false);
      assert lengths[..i + 1][..i] == lengths[..i];
      assert SweepOver(rtts, unloaded, buckets, init, lengths[..i + 1]) ==
             SweepStep(rtts, unloaded, buckets, st, length);
      if length > bucketLength {
        // Close the bucket: an empty one reads as the single sample 0.
        ghost var c := Closed(bucketLength, bucketCumFrac, bucketCount, bucketRtts, bucketSlowdowns);
        rows := rows + [Row(bucketLength, bucketCumFrac, bucketCount,
                            SpreadOf(bucketRtts), SpreadOf(bucketSlowdowns))];
        RowsOfSnoc(closed, c);
        closed := closed + [c];
        if nextBucket >= |buckets| {
          SweepStepBreaks(rtts, unloaded, buckets, st, length);
          SweepOverSettled(rtts, unloaded, buckets, init, lengths, i + 1, |lengths|);
          assert lengths[..|lengths|] == lengths;
          SweepRowsOf(rtts, unloaded, buckets, lengths,
                      SweepState(bucketLength, bucketCumFrac, nextBucket, bucketRtts, bucketSlowdowns,
                                 bucketCount, curUnloaded, closed, true));
          return Ok(rows);
        }
        bucketRtts := [];
        bucketSlowdowns := [];
        bucketCount := 0;
        bucketLength, bucketCumFrac := buckets[nextBucket].length, buckets[nextBucket].cumFrac;
        nextBucket := nextBucket + 1;
      }
      ghost var st1 := SweepState(bucketLength, bucketCumFrac, nextBucket, bucketRtts, bucketSlowdowns,
                                  bucketCount, curUnloaded, closed, false);
      assert SweepStep(rtts, unloaded, buckets, st, length) == Absorb(rtts, unloaded, st1, length);
      var failure;
      failure, curUnloaded, bucketRtts, bucketSlowdowns, bucketCount :=
        AbsorbLength(rtts, unloaded, st1, length, curUnloaded, bucketRtts, bucketSlowdowns, bucketCount);
      if failure.Some? {
        SweepOverSettled(rtts, unloaded, buckets, init, lengths, i + 1, |lengths|);
        assert lengths[..|lengths|] == lengths;
        return Err(failure.value);
      }
    }
    assert lengths[..|lengths|] == lengths;
    SweepRowsOf(rtts, unloaded, buckets, lengths,
                SweepState(bucketLength, bucketCumFrac, nextBucket, bucketRtts, bucketSlowdowns,
                           bucketCount, curUnloaded, closed, false));
    return Ok(rows);
  }
}
