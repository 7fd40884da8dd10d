/**
 * The closing of one histogram bucket in get_digest: an empty bucket gets a
 * single 0, the list is sorted, and the entries at positions count//2,
 * count*99//100 and count*999//1000 are reported as the 50th, 99th and 99.9th
 * percentiles.
 */
module BucketSummary {
  import opened Sorting

  /** The three percentiles reported for one bucket. */
  datatype Spread = Spread(p50: real, p99: real, p999: real)

  /** The list get_digest sorts: the samples, or a single 0 when there are none. */
  function Padded(s: seq<real>): seq<real> {
    if s == [] then [0.0] else s
  }

  /** The three positions read in a sorted bucket of c samples, in order and in range. */
  lemma PercentileIndices(c: nat)
    ensures c / 2 <= c * 99 / 100 <= c * 999 / 1000
    ensures c > 0 ==> c * 999 / 1000 < c
    ensures c == 0 ==> c * 999 / 1000 == 0
  {
    var a := c / 2;
    var b := c * 99 / 100;
    var d := c * 999 / 1000;
    assert 2 * a <= c;
    assert 100 * a <= 99 * c;
    assert 100 * b <= 99 * c < 100 * b + 100;
    assert 1000 * d <= 999 * c < 1000 * d + 1000;
    assert 1000 * b <= 990 * c;
  }

  /** An element of a sorted copy of s is an element of s. */
  lemma SortedElement(s: seq<real>, k: int)
    requires 0 <= k < |s|
    ensures Sorted(s)[k] in s
  {
    var t := Sorted(s);
    var x := t[k];
    assert x in multiset(t);
    assert x in multiset(s);
  }

  /** The number of entries of s below x: a counting definition; the rank facts are SortedCounts, SortedRank and RankIsUnique. */
  function NumBelow(s: seq<real>, x: real): (n: nat)
    ensures n <= |s|
  {
    if s == [] then 0 else NumBelow(s[..|s| - 1], x) + (if s[|s| - 1] < x then 1 else 0)
  }

  /** The number of entries of s at most x: a counting definition, like NumBelow. */
  function NumAtMost(s: seq<real>, x: real): (n: nat)
    ensures n <= |s|
  {
    if s == [] then 0 else NumAtMost(s[..|s| - 1], x) + (if s[|s| - 1] <= x then 1 else 0)
  }

  /**
   * x is what position k of s sorted holds: fewer than k + 1 entries lie below x and more
   * than k lie at or below it.
   */
  predicate HasRank(s: seq<real>, x: real, k: int) {
    NumBelow(s, x) <= k < NumAtMost(s, x)
  }

  /** The three percentiles of samples s as get_digest picks them: ranks c//2, c*99//100, c*999//1000. */
  predicate ReportsPercentiles(s: seq<real>, r: Spread) {
    var c := |s|;
    HasRank(s, r.p50, c / 2) && HasRank(s, r.p99, c * 99 / 100) && HasRank(s, r.p999, c * 999 / 1000)
  }

  /** A rank names one value: two values of the same rank in s are equal. */
  lemma RankIsUnique(s: seq<real>, x: real, y: real, k: int)
    requires HasRank(s, x, k) && HasRank(s, y, k)
    ensures x == y
  {
    if x < y {
      AtMostBelow(s, x, y);
    } else if y < x {
      AtMostBelow(s, y, x);
    }
  }

  lemma {:induction false} AtMostBelow(s: seq<real>, x: real, y: real)
    requires x < y
    ensures NumAtMost(s, x) <= NumBelow(s, y)
    decreases |s|
  {
    if s != [] {
      AtMostBelow(s[..|s| - 1], x, y);
    }
  }

  /** Inserting x adds one to the counts x falls under. */
  lemma {:induction false} InsertCounts(x: real, t: seq<real>, y: real)
    requires IsSorted(t)
    ensures NumBelow(Insert(x, t), y) == NumBelow(t, y) + (if x < y then 1 else 0)
    ensures NumAtMost(Insert(x, t), y) == NumAtMost(t, y) + (if x <= y then 1 else 0)
    decreases |t|
  {
    var r := Insert(x, t);
    if t == [] || t[|t| - 1] <= x {
      assert r[..|r| - 1] == t;
    } else {
      var init := t[..|t| - 1];
      InsertCounts(x, init, y);
      assert r[..|r| - 1] == Insert(x, init);
      assert t[..|t| - 1] == init;
    }
  }

  /** Sorting keeps every count. */
  lemma {:induction false} SortedCounts(s: seq<real>, y: real)
    ensures NumBelow(Sorted(s), y) == NumBelow(s, y)
    ensures NumAtMost(Sorted(s), y) == NumAtMost(s, y)
    decreases |s|
  {
    if s != [] {
      var init := s[..|s| - 1];
      SortedCounts(init, y);
      InsertCounts(s[|s| - 1], Sorted(init), y);
    }
  }

  lemma {:induction false} BelowAtMostPosition(t: seq<real>, x: real, k: nat)
    requires k <= |t|
    requires forall i :: k <= i < |t| ==> x <= t[i]
    ensures NumBelow(t, x) <= k
    decreases |t|
  {
    if |t| > k {
      BelowAtMostPosition(t[..|t| - 1], x, k);
    }
  }

  lemma {:induction false} AtMostFromPosition(t: seq<real>, x: real, k: nat)
    requires k <= |t|
    requires forall i :: 0 <= i < k ==> t[i] <= x
    ensures NumAtMost(t, x) >= k
    decreases |t|
  {
    if t != [] {
      var init := t[..|t| - 1];
      if k == |t| {
        AtMostFromPosition(init, x, k - 1);
      } else {
        AtMostFromPosition(init, x, k);
      }
    }
  }

  /** In a sorted list, position k holds the value of rank k. */
  lemma PositionIsRank(t: seq<real>, k: nat)
    requires IsSorted(t) && k < |t|
    ensures HasRank(t, t[k], k)
  {
    var x := t[k];
    forall i | k <= i < |t|
      ensures x <= t[i]
    {
    }
    forall i | 0 <= i < k + 1
      ensures t[i] <= x
    {
    }
    BelowAtMostPosition(t, x, k);
    AtMostFromPosition(t, x, k + 1);
  }

  /** Position k of a sorted copy of s holds the value of rank k in s. */
  lemma SortedRank(s: seq<real>, k: nat)
    requires k < |s|
    ensures HasRank(s, Sorted(s)[k], k)
  {
    var t := Sorted(s);
    PositionIsRank(t, k);
    SortedCounts(s, t[k]);
  }

  /**
   * The percentiles of a bucket whose samples are s. They are ordered, each is one of
   * the samples, and an empty bucket reports zeros. SpreadOfRanks says which sample each is.
   */
  function SpreadOf(s: seq<real>): (r: Spread)
    ensures r.p50 <= r.p99 <= r.p999
    ensures s != [] ==> r.p50 in s && r.p99 in s && r.p999 in s
    ensures s == [] ==> r == Spread(0.0, 0.0, 0.0)
  {
    var c := |s|;
    var sorted := Sorted(Padded(s));
    PercentileIndices(c);
    SortedElement(Padded(s), c / 2);
    SortedElement(Padded(s), c * 99 / 100);
    SortedElement(Padded(s), c * 999 / 1000);
    Spread(sorted[c / 2], sorted[c * 99 / 100], sorted[c * 999 / 1000])
  }

  /**
   * Each percentile of a non-empty bucket is the sample get_digest reads at position
   * count//2, count*99//100 or count*999//1000 of the sorted bucket, named by its rank.
   */
  lemma SpreadOfRanks(s: seq<real>)
    requires s != []
    ensures ReportsPercentiles(s, SpreadOf(s))
  {
    var c := |s|;
    PercentileIndices(c);
    assert Padded(s) == s;
    SortedRank(s, c / 2);
    SortedRank(s, c * 99 / 100);
    SortedRank(s, c * 999 / 1000);
  }
}
