/**
 * The RTT sample set: a map from message length to the RTTs (usec) observed for
 * messages of that length. Its keys are visited in ascending order, as Python's
 * sorted(rtts.keys()) does, and its samples are counted per length and in total.
 */
module RttMaps {

  type RttMap = map<int, seq<real>>

  /** The elements at positions i < j of s are in ascending order. */
  predicate Ascends(s: seq<int>, i: int, j: int)
    requires 0 <= i < j < |s|
  {
    s[i] < s[j]
  }

  /**
   * Every pair of elements of s is in ascending order. The pairs are reached through
   * Ascends, so a proof names the positions it compares.
   */
  predicate StrictlyIncreasing(s: seq<int>) {
    forall i, j :: 0 <= i < j < |s| ==> Ascends(s, i, j)
  }

  /** Set extensionality: a set without members is the empty set. */
  lemma EmptyIfNoMember(s: set<int>)
    ensures (forall k :: k !in s) ==> s == {}
  {
    if forall k :: k !in s {
      assert s == {};
    }
  }

  /** x is a least element of s. */
  predicate IsMin(s: set<int>, x: int) {
    x in s && forall j :: j in s ==> x <= j
  }

  /** Adding back an element to a set whose least element is known. */
  lemma MinOfInsert(s: set<int>, x: int, y: int)
    requires x in s && IsMin(s - {x}, y)
    ensures IsMin(s, if x < y then x else y)
  {
    var z := if x < y then x else y;
    forall j | j in s ensures z <= j {
      if j != x {
        assert j in s - {x};
      }
    }
  }

  lemma {:induction false} MinExists(s: set<int>)
    requires s != {}
    ensures exists k :: IsMin(s, k)
    decreases |s|
  {
    EmptyIfNoMember(s);
    var x :| x in s;
    if s == {x} {
      assert IsMin(s, x);
    } else {
      MinExists(s - {x});
      var y :| IsMin(s - {x}, y);
      MinOfInsert(s, x, y);
    }
  }

  /** The least element of a non-empty set: Python's min(keys). */
  function SetMin(s: set<int>): (k: int)
    requires s != {}
    ensures k in s && forall j :: j in s ==> k <= j
  {
    MinExists(s);
    var k :| IsMin(s, k);
    k
  }

  /** Python's sorted() of a set of lengths: each element once, ascending. */
  function SortedKeys(s: set<int>): (r: seq<int>)
    ensures StrictlyIncreasing(r)
    ensures forall k :: k in r <==> k in s
    decreases |s|
  {
    if s == {} then []
    else
      var k := SetMin(s);
      var rest := SortedKeys(s - {k});
      ConsIncreasing(k, rest);
      [k] + rest
  }

  /** An element below every element of an ascending sequence can go in front of it. */
  lemma ConsIncreasing(k: int, rest: seq<int>)
    requires StrictlyIncreasing(rest) && forall x :: x in rest ==> k < x
    ensures StrictlyIncreasing([k] + rest)
  {
    var r := [k] + rest;
    forall i, j | 0 <= i < j < |r| ensures Ascends(r, i, j) {
      if i == 0 {
        assert r[j] == rest[j - 1] && rest[j - 1] in rest;
      } else {
        assert Ascends(rest, i - 1, j - 1);
      }
    }
  }

  /** sorted() returns as many elements as the set has. */
  lemma {:induction false} SortedKeysLength(s: set<int>)
    ensures |SortedKeys(s)| == |s|
    decreases |s|
  {
    if s != {} {
      SortedKeysLength(s - {SetMin(s)});
    }
  }

  /** sorted(rtts.keys()): the distinct lengths of a map, ascending. */
  function SortedLengths(m: RttMap): (r: seq<int>)
    ensures StrictlyIncreasing(r)
    ensures |r| == |m|
    ensures forall k :: k in r <==> k in m
  {
    SortedKeysLength(m.Keys);
    SortedKeys(m.Keys)
  }

  lemma SeqEmptyIfNoMember(s: seq<int>)
    ensures (forall k :: k !in s) ==> s == []
  {
    if s != [] {
      var x := s[0];
      assert x in s;
    }
  }

  /** Two ascending sequences with the same elements are the same sequence. */
  lemma {:induction false} SortedUnique(a: seq<int>, b: seq<int>)
    requires StrictlyIncreasing(a) && StrictlyIncreasing(b)
    requires forall k :: k in a <==> k in b
    ensures a == b
    decreases |a|
  {
    if a == [] {
      SeqEmptyIfNoMember(b);
    } else {
      var a0 := a[0];
      assert a0 in a && a0 in b;
      var b0 := b[0];
      assert b0 in b && b0 in a;
      FirstIsLeast(a, b0);
      FirstIsLeast(b, a0);
      assert a[0] == b[0];
      forall k ensures k in a[1..] <==> k in b[1..] {
        if k in a[1..] {
          var p :| 1 <= p < |a| && a[p] == k;
          assert Ascends(a, 0, p);
          assert k in b && k != b[0];
          var q :| 0 <= q < |b| && b[q] == k;
          assert b[1..][q - 1] == k;
        }
        if k in b[1..] {
          var q :| 1 <= q < |b| && b[q] == k;
          assert Ascends(b, 0, q);
          assert k in a && k != a[0];
          var p :| 0 <= p < |a| && a[p] == k;
          assert a[1..][p - 1] == k;
        }
      }
      TailIncreasing(a);
      TailIncreasing(b);
      SortedUnique(a[1..], b[1..]);
      assert a == [a[0]] + a[1..] && b == [b[0]] + b[1..];
    }
  }

  /** The first element of an ascending sequence is its least. */
  lemma FirstIsLeast(s: seq<int>, x: int)
    requires StrictlyIncreasing(s) && x in s
    ensures s[0] <= x
  {
    var i :| 0 <= i < |s| && s[i] == x;
    if i > 0 {
      assert Ascends(s, 0, i);
    }
  }

  /** The tail of an ascending sequence is ascending. */
  lemma TailIncreasing(a: seq<int>)
    requires StrictlyIncreasing(a) && a != []
    ensures StrictlyIncreasing(a[1..])
  {
    forall i, j | 0 <= i < j < |a| - 1 ensures Ascends(a[1..], i, j) {
      assert Ascends(a, i + 1, j + 1);
    }
  }

  /** The number of samples recorded under the lengths ks (each counted once per occurrence). */
  function SumLens(m: RttMap, ks: seq<int>): nat
    requires forall k :: k in ks ==> k in m
  {
    if ks == [] then 0
    else
      var last := ks[|ks| - 1];
      assert last in ks;
      assert last in m;
      assert forall k :: k in ks[..|ks| - 1] ==> k in ks;
      SumLens(m, ks[..|ks| - 1]) + |m[last]|
  }

  /** The number of samples in the whole map: the sum of its list lengths. */
  function TotalSamples(m: RttMap): nat {
    SumLens(m, SortedLengths(m))
  }

  /** The list recorded for length L, empty when L is absent. */
  function ListOf(m: RttMap, L: int): seq<real> {
    if L in m then m[L] else []
  }

  lemma EmptyMapHasNoSamples(m: RttMap)
    ensures |m| == 0 ==> TotalSamples(m) == 0
  {
    if |m| == 0 {
      assert m.Keys == {};
    }
  }

  /** The number of samples among the lengths ks that are no greater than L. */
  function CountAtMost(m: RttMap, ks: seq<int>, L: int): nat
    requires forall k :: k in ks ==> k in m
  {
    if ks == [] then 0
    else
      var last := ks[|ks| - 1];
      assert last in ks;
      assert last in m;
      assert forall k :: k in ks[..|ks| - 1] ==> k in ks;
      CountAtMost(m, ks[..|ks| - 1], L) + (if last <= L then |m[last]| else 0)
  }

  /** The number of samples of length L or smaller. */
  function SamplesAtMost(m: RttMap, L: int): nat {
    CountAtMost(m, SortedLengths(m), L)
  }

  lemma {:induction false} SumLensConcat(m: RttMap, a: seq<int>, b: seq<int>)
    requires forall k :: k in a + b ==> k in m
    ensures SumLens(m, a + b) == SumLens(m, a) + SumLens(m, b)
    decreases |b|
  {
    if b == [] {
      assert a + b == a;
    } else {
      var b' := b[..|b| - 1];
      assert (a + b)[..|a + b| - 1] == a + b';
      SumLensConcat(m, a, b');
    }
  }

  /** Two maps with lists of the same lengths under ks give the same count. */
  lemma {:induction false} SumLensAgree(m1: RttMap, m2: RttMap, ks: seq<int>)
    requires forall k :: k in ks ==> k in m1 && k in m2 && |m1[k]| == |m2[k]|
    ensures SumLens(m1, ks) == SumLens(m2, ks)
    decreases |ks|
  {
    if ks != [] {
      var last := ks[|ks| - 1];
      assert last in ks;
      assert last in m1 && last in m2 && |m1[last]| == |m2[last]|;
      assert forall k :: k in ks[..|ks| - 1] ==> k in ks;
      SumLensAgree(m1, m2, ks[..|ks| - 1]);
    }
  }

  /** Deleting position p from an ascending sequence keeps it ascending and drops exactly ks[p]. */
  lemma RemoveAt(ks: seq<int>, p: int)
    requires StrictlyIncreasing(ks) && 0 <= p < |ks|
    ensures StrictlyIncreasing(ks[..p] + ks[p + 1..])
    ensures forall k :: k in ks[..p] + ks[p + 1..] <==> k in ks && k != ks[p]
  {
    var ks' := ks[..p] + ks[p + 1..];
    forall i, j | 0 <= i < j < |ks'| ensures ks'[i] < ks'[j] {
      var i' := if i < p then i else i + 1;
      var j' := if j < p then j else j + 1;
      assert ks'[i] == ks[i'] && ks'[j] == ks[j'];
      assert Ascends(ks, i', j');
    }
    forall k ensures k in ks' <==> k in ks && k != ks[p] {
      if k in ks' {
        var q :| 0 <= q < |ks'| && ks'[q] == k;
        var q' := if q < p then q else q + 1;
        assert ks[q'] == k && q' != p;
        if q' < p { assert Ascends(ks, q', p); } else { assert Ascends(ks, p, q'); }
      }
      if k in ks && k != ks[p] {
        var q :| 0 <= q < |ks| && ks[q] == k;
        assert q != p;
        if q < p {
          assert ks'[q] == k;
        } else {
          assert ks'[q - 1] == k;
        }
      }
    }
  }

  /** Counting the lengths ks is counting them without position p, plus the samples at p. */
  lemma SumLensSplit(m: RttMap, ks: seq<int>, p: int)
    requires forall k :: k in ks ==> k in m
    requires 0 <= p < |ks|
    ensures SumLens(m, ks) == SumLens(m, ks[..p] + ks[p + 1..]) + |m[ks[p]]|
  {
    assert ks == ks[..p] + [ks[p]] + ks[p + 1..];
    assert ks[p] in ks;
    SumLensConcat(m, ks[..p] + [ks[p]], ks[p + 1..]);
    SumLensConcat(m, ks[..p], [ks[p]]);
    SumLensConcat(m, ks[..p], ks[p + 1..]);
    assert SumLens(m, [ks[p]]) == |m[ks[p]]| by {
      assert [ks[p]][..0] == [];
    }
  }

  lemma RemoveAbsent(m: RttMap, L: int)
    requires L !in m
    ensures m - {L} == m
  {
  }

  /** Removing one length removes exactly its samples from the total. */
  lemma TotalSamplesRemove(m: RttMap, L: int)
    requires L in m
    ensures TotalSamples(m) == TotalSamples(m - {L}) + |m[L]|
  {
    var ks := SortedLengths(m);
    assert L in ks;
    var p :| 0 <= p < |ks| && ks[p] == L;
    var ks' := ks[..p] + ks[p + 1..];
    RemoveAt(ks, p);
    SortedUnique(ks', SortedLengths(m - {L}));
    SumLensSplit(m, ks, p);
    SumLensAgree(m, m - {L}, ks');
  }

  /** When every length of ks is at most L, counting those at most L counts them all. */
  lemma {:induction false} CountAtMostAll(m: RttMap, ks: seq<int>, L: int)
    requires forall k :: k in ks ==> k in m && k <= L
    ensures CountAtMost(m, ks, L) == SumLens(m, ks)
    decreases |ks|
  {
    if ks != [] {
      var last := ks[|ks| - 1];
      assert last in ks;
      assert forall k :: k in ks[..|ks| - 1] ==> k in ks;
      CountAtMostAll(m, ks[..|ks| - 1], L);
    }
  }

  /** In an ascending ks, the lengths at most ks[i] among the first j are the first i + 1. */
  lemma {:induction false} CountAtMostPrefix(m: RttMap, ks: seq<int>, i: int, j: int)
    requires forall k :: k in ks ==> k in m
    requires StrictlyIncreasing(ks) && 0 <= i < j <= |ks|
    ensures CountAtMost(m, ks[..j], ks[i]) == SumLens(m, ks[..i + 1])
    decreases j
  {
    assert forall k :: k in ks[..j] ==> k in ks;
    if j == i + 1 {
      forall k | k in ks[..i + 1] ensures k in m && k <= ks[i] {
        var p :| 0 <= p < i + 1 && ks[..i + 1][p] == k;
        assert ks[p] == k;
        if p < i { assert Ascends(ks, p, i); }
      }
      CountAtMostAll(m, ks[..i + 1], ks[i]);
    } else {
      CountAtMostPrefix(m, ks, i, j - 1);
      assert ks[..j][..j - 1] == ks[..j - 1];
      assert Ascends(ks, i, j - 1);
      assert ks[..j][j - 1] == ks[j - 1] > ks[i];
    }
  }

  /** The samples of the first i + 1 lengths are the samples of length ks[i] or smaller. */
  lemma PrefixSamples(m: RttMap, i: int)
    requires 0 <= i < |m|
    ensures SumLens(m, SortedLengths(m)[..i + 1]) == SamplesAtMost(m, SortedLengths(m)[i])
  {
    var ks := SortedLengths(m);
    assert forall k :: k in ks ==> k in m;
    CountAtMostPrefix(m, ks, i, |ks|);
    assert ks[..|ks|] == ks;
  }

  /** Extending a prefix of the lengths by one more length adds that length's samples. */
  lemma SumLensExtend(m: RttMap, ks: seq<int>, i: int)
    requires forall k :: k in ks ==> k in m
    requires 0 <= i < |ks|
    ensures ks[i] in m
    ensures SumLens(m, ks[..i + 1]) == SumLens(m, ks[..i]) + |m[ks[i]]|
  {
    var k := ks[i];
    assert k in ks;
    assert ks[..i + 1][..i] == ks[..i];
  }

  /** Counting a prefix of the lengths never exceeds counting a longer prefix. */
  lemma {:induction false} SumLensPrefixMonotone(m: RttMap, ks: seq<int>, i: int, j: int)
    requires forall k :: k in ks ==> k in m
    requires 0 <= i <= j <= |ks|
    ensures SumLens(m, ks[..i]) <= SumLens(m, ks[..j])
    decreases j - i
  {
    if i < j {
      SumLensPrefixMonotone(m, ks, i, j - 1);
      assert ks[..j][..j - 1] == ks[..j - 1];
    }
  }

  /** Along the ascending lengths, the number of samples at or below the length never decreases. */
  lemma SamplesAtMostMonotone(m: RttMap, i: int, j: int)
    requires 0 <= i <= j < |m|
    ensures SamplesAtMost(m, SortedLengths(m)[i]) <= SamplesAtMost(m, SortedLengths(m)[j])
  {
    var ks := SortedLengths(m);
    PrefixSamples(m, i);
    PrefixSamples(m, j);
    assert SumLens(m, ks[..i + 1]) <= SumLens(m, ks[..j + 1]) by {
      assert forall k :: k in ks ==> k in m;
      SumLensPrefixMonotone(m, ks, i + 1, j + 1);
    }
  }

  /** At the largest length every sample is counted. */
  lemma SamplesAtMostLast(m: RttMap)
    requires |m| > 0
    ensures SamplesAtMost(m, SortedLengths(m)[|m| - 1]) == TotalSamples(m)
  {
    var ks := SortedLengths(m);
    PrefixSamples(m, |m| - 1);
    assert ks[..|m|] == ks;
  }
}
