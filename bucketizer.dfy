/**
 * get_buckets: the histogram boundaries. Every distinct message length becomes
 * one bucket, in ascending order, tagged with the fraction of all samples whose
 * length is that length or smaller.
 */
module Bucketizer {
  import opened Wrappers
  import opened RttMaps

  /** One [length, cum_frac] pair of get_buckets. */
  datatype Bucket = Bucket(length: int, cumFrac: real)

  /** The fraction of the total for the samples of length L or smaller (Python's true division). */
  function CumFrac(rtts: RttMap, total: int, L: int): real
    requires total != 0
  {
    SamplesAtMost(rtts, L) as real / total as real
  }

  /**
   * get_buckets(rtts, total). Python divides by total inside the loop, so a zero total
   * raises ZeroDivisionError as soon as there is one length, and not for an empty map.
   */
  method GetBuckets(rtts: RttMap, total: int) returns (r: Result<seq<Bucket>>)
    ensures r.Err? <==> total == 0 && |rtts| > 0
    ensures r.Err? ==> r.error == ZeroDivisionError
    ensures r.Ok? ==> |r.value| == |rtts|
    ensures r.Ok? ==> forall i :: 0 <= i < |r.value| ==>
      r.value[i] == Bucket(SortedLengths(rtts)[i], CumFrac(rtts, total, SortedLengths(rtts)[i]))
  {
    var buckets: seq<Bucket> := [];
    var cumulative: nat := 0;
    var lengths := SortedLengths(rtts);
    assert forall k :: k in lengths ==> k in rtts;
    for i := 0 to |lengths|
      invariant |buckets| == i
      invariant cumulative == SumLens(rtts, lengths[..i])
      invariant i > 0 ==> total != 0
      invariant forall j :: 0 <= j < i ==> buckets[j] == Bucket(lengths[j], CumFrac(rtts, total, lengths[j]))
    {
      var length := lengths[i];
      SumLensExtend(rtts, lengths, i);
      cumulative := cumulative + |rtts[length]|;
      if total == 0 {
        return Err(ZeroDivisionError);
      }
      PrefixSamples(rtts, i);
      assert cumulative as real / total as real == CumFrac(rtts, total, length);
      buckets := buckets + [Bucket(length, cumulative as real / total as real)];
    }
    return Ok(buckets);
  }

  lemma RealRatioOne(t: real)
    requires t > 0.0
    ensures t / t == 1.0
  {
  }

  lemma RealRatioMonotone(a: real, b: real, t: real)
    requires t > 0.0 && a <= b
    ensures a / t <= b / t
  {
    assert b / t - a / t == (b - a) / t;
  }

  lemma RealRatioUnit(a: real, t: real)
    requires 0.0 <= a <= t && t > 0.0
    ensures 0.0 <= a / t <= 1.0
  {
    RealRatioMonotone(0.0, a, t);
    RealRatioMonotone(a, t, t);
    RealRatioOne(t);
  }

  /** The fractions never decrease along the ascending lengths (for a positive total). */
  lemma CumFracNonDecreasing(rtts: RttMap, total: int, i: int, j: int)
    requires total > 0
    requires 0 <= i <= j < |rtts|
    ensures CumFrac(rtts, total, SortedLengths(rtts)[i]) <= CumFrac(rtts, total, SortedLengths(rtts)[j])
  {
    var ks := SortedLengths(rtts);
    SamplesAtMostMonotone(rtts, i, j);
    RealRatioMonotone(SamplesAtMost(rtts, ks[i]) as real, SamplesAtMost(rtts, ks[j]) as real, total as real);
  }

  /** Each fraction lies in [0, 1] when total is the number of samples in the map. */
  lemma CumFracInUnitInterval(rtts: RttMap, total: int, i: int)
    requires total == TotalSamples(rtts) && total > 0
    requires 0 <= i < |rtts|
    ensures 0.0 <= CumFrac(rtts, total, SortedLengths(rtts)[i]) <= 1.0
  {
    var ks := SortedLengths(rtts);
    SamplesAtMostMonotone(rtts, i, |rtts| - 1);
    SamplesAtMostLast(rtts);
    RealRatioUnit(SamplesAtMost(rtts, ks[i]) as real, total as real);
  }

  /** The last boundary covers every sample: its fraction is 1 when total is the sample count. */
  lemma LastCumFracIsOne(rtts: RttMap, total: int)
    requires total == TotalSamples(rtts) && total > 0
    ensures |rtts| > 0
    ensures CumFrac(rtts, total, SortedLengths(rtts)[|rtts| - 1]) == 1.0
  {
    EmptyMapHasNoSamples(rtts);
    SamplesAtMostLast(rtts);
    RealRatioOne(total as real);
  }
}
