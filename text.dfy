/** The parts of Python's str methods that the analysis code uses: strip(), split() and lower(). */
module Text {

  /** Python's str.isspace() for a single code point: the characters strip() and split() remove. */
  predicate IsSpace(c: char) {
    var n := c as int;
    (9 <= n <= 13) || (28 <= n <= 32) || n == 0x85 || n == 0xA0 || n == 0x1680
    || (0x2000 <= n <= 0x200A) || n == 0x2028 || n == 0x2029 || n == 0x202F
    || n == 0x205F || n == 0x3000
  }

  /** The first position at or after i that does not hold whitespace (|s| if there is none). */
  function SkipSpaces(s: string, i: nat): (j: nat)
    requires i <= |s|
    ensures i <= j <= |s|
    ensures forall k :: i <= k < j ==> IsSpace(s[k])
    ensures j < |s| ==> !IsSpace(s[j])
    decreases |s| - i
  {
    if i < |s| && IsSpace(s[i]) then SkipSpaces(s, i + 1) else i
  }

  /** The first position at or after i that holds whitespace (|s| if there is none). */
  function SkipWord(s: string, i: nat): (j: nat)
    requires i <= |s|
    ensures i <= j <= |s|
    ensures forall k :: i <= k < j ==> !IsSpace(s[k])
    ensures j < |s| ==> IsSpace(s[j])
    decreases |s| - i
  {
    if i < |s| && !IsSpace(s[i]) then SkipWord(s, i + 1) else i
  }

  /** The end of the first j characters once the whitespace before position j is dropped. */
  function TrimEnd(s: string, j: nat): (e: nat)
    requires j <= |s|
    ensures e <= j
    ensures forall k :: e <= k < j ==> IsSpace(s[k])
    ensures e > 0 ==> !IsSpace(s[e - 1])
  {
    if j > 0 && IsSpace(s[j - 1]) then TrimEnd(s, j - 1) else j
  }

  /** Python's s.strip(): s without its leading and trailing whitespace. */
  function Strip(s: string): string {
    var a := SkipSpaces(s, 0);
    var e := TrimEnd(s, |s|);
    if e <= a then [] else s[a..e]
  }

  /**
   * A stripped line is a stretch of the line that neither starts nor ends with whitespace,
   * and only whitespace lies outside it.
   */
  lemma StripShape(s: string)
    ensures Strip(s) == [] <==> forall i :: 0 <= i < |s| ==> IsSpace(s[i])
    ensures Strip(s) != [] ==> !IsSpace(Strip(s)[0]) && !IsSpace(Strip(s)[|Strip(s)| - 1])
    ensures Strip(s) != [] ==>
      var a := SkipSpaces(s, 0);
      a + |Strip(s)| <= |s| && Strip(s) == s[a..a + |Strip(s)|]
    ensures Strip(s) != [] ==>
      forall k :: 0 <= k < SkipSpaces(s, 0) ==> IsSpace(s[k])
    ensures Strip(s) != [] ==>
      forall k :: SkipSpaces(s, 0) + |Strip(s)| <= k < |s| ==> IsSpace(s[k])
  {
    var a := SkipSpaces(s, 0);
    var e := TrimEnd(s, |s|);
    if e <= a {
      assert a == |s|;
    } else {
      assert !IsSpace(s[a]);
      assert Strip(s) == s[a..a + |Strip(s)|];
    }
  }

  /** The words of s from position i on: the maximal runs of non-whitespace, in order. */
  function WordsFrom(s: string, i: nat): (ws: seq<string>)
    requires i <= |s|
    ensures forall k :: 0 <= k < |ws| ==> ws[k] != []
    decreases |s| - i
  {
    var a := SkipSpaces(s, i);
    if a == |s| then []
    else
      var b := SkipWord(s, a);
      assert b > a by { assert !IsSpace(s[a]); }
      [s[a..b]] + WordsFrom(s, b)
  }

  /** Python's s.split() with no separator. */
  function Words(s: string): (ws: seq<string>)
    ensures forall k :: 0 <= k < |ws| ==> ws[k] != []
  {
    WordsFrom(s, 0)
  }

  /** No word holds whitespace. */
  lemma {:induction false} WordsHaveNoSpace(s: string, i: nat, k: nat, c: nat)
    requires i <= |s|
    requires k < |WordsFrom(s, i)| && c < |WordsFrom(s, i)[k]|
    ensures !IsSpace(WordsFrom(s, i)[k][c])
    decreases |s| - i
  {
    var a := SkipSpaces(s, i);
    var b := SkipWord(s, a);
    if k == 0 {
      assert WordsFrom(s, i)[0] == s[a..b];
      assert s[a..b][c] == s[a + c];
    } else {
      assert WordsFrom(s, i)[k] == WordsFrom(s, b)[k - 1];
      WordsHaveNoSpace(s, b, k - 1, c);
    }
  }

  /** The characters of s from position i on that are not whitespace, in order. */
  function NonSpaceFrom(s: string, i: nat): string
    requires i <= |s|
    decreases |s| - i
  {
    if i == |s| then [] else (if IsSpace(s[i]) then [] else [s[i]]) + NonSpaceFrom(s, i + 1)
  }

  /** The words one after the other, with nothing between them. */
  function Concat(ws: seq<string>): string {
    if ws == [] then [] else ws[0] + Concat(ws[1..])
  }

  lemma {:induction false} SpacesDrop(s: string, i: nat, j: nat)
    requires i <= j <= |s|
    requires forall k :: i <= k < j ==> IsSpace(s[k])
    ensures NonSpaceFrom(s, i) == NonSpaceFrom(s, j)
    decreases j - i
  {
    if i < j {
      SpacesDrop(s, i + 1, j);
    }
  }

  lemma {:induction false} WordKept(s: string, i: nat, j: nat)
    requires i <= j <= |s|
    requires forall k :: i <= k < j ==> !IsSpace(s[k])
    ensures NonSpaceFrom(s, i) == s[i..j] + NonSpaceFrom(s, j)
    decreases j - i
  {
    if i < j {
      WordKept(s, i + 1, j);
      var rest := NonSpaceFrom(s, j);
      assert NonSpaceFrom(s, i) == [s[i]] + NonSpaceFrom(s, i + 1);
      assert [s[i]] + (s[i + 1..j] + rest) == ([s[i]] + s[i + 1..j]) + rest;
      assert [s[i]] + s[i + 1..j] == s[i..j];
    }
  }

  /** Laid end to end, the words from position i on are exactly the non-whitespace characters, in order. */
  lemma {:induction false} WordsSpellNonSpace(s: string, i: nat)
    requires i <= |s|
    ensures Concat(WordsFrom(s, i)) == NonSpaceFrom(s, i)
    decreases |s| - i
  {
    var a := SkipSpaces(s, i);
    SpacesDrop(s, i, a);
    if a < |s| {
      var b := SkipWord(s, a);
      WordsSpellNonSpace(s, b);
      WordKept(s, a, b);
      var ws := WordsFrom(s, i);
      assert ws[0] == s[a..b];
      assert ws[1..] == WordsFrom(s, b);
    }
  }

  /** s[a..b] is a whole run of non-whitespace: whitespace or the edge of s on both sides. */
  predicate IsMaximalRun(s: string, a: int, b: int) {
    && 0 <= a < b <= |s|
    && (forall k :: a <= k < b ==> !IsSpace(s[k]))
    && (a == 0 || IsSpace(s[a - 1]))
    && (b == |s| || IsSpace(s[b]))
  }

  /** Position p starts a run of non-whitespace: it is not whitespace and whitespace or the edge precedes it. */
  predicate IsRunStart(s: string, p: int)
    requires 0 <= p < |s|
  {
    !IsSpace(s[p]) && (p == 0 || IsSpace(s[p - 1]))
  }

  /** The number of runs of non-whitespace that start before position k. */
  function RunsBefore(s: string, k: nat): nat
    requires k <= |s|
  {
    if k == 0 then 0 else RunsBefore(s, k - 1) + (if IsRunStart(s, k - 1) then 1 else 0)
  }

  lemma {:induction false} NoRunStartsInSpaces(s: string, i: nat, j: nat)
    requires i <= j <= |s|
    requires forall k :: i <= k < j ==> IsSpace(s[k])
    ensures RunsBefore(s, j) == RunsBefore(s, i)
    decreases j - i
  {
    if i < j {
      NoRunStartsInSpaces(s, i, j - 1);
    }
  }

  lemma {:induction false} OneRunStartInRun(s: string, a: nat, b: nat)
    requires a < b <= |s|
    requires forall k :: a <= k < b ==> !IsSpace(s[k])
    requires IsRunStart(s, a)
    ensures RunsBefore(s, b) == RunsBefore(s, a) + 1
    decreases b - a
  {
    if b > a + 1 {
      OneRunStartInRun(s, a, b - 1);
      assert !IsSpace(s[b - 2]);
    }
  }

  /** w is the maximal run of non-whitespace in s that has exactly n runs before it. */
  ghost predicate IsNthRun(s: string, w: string, n: nat) {
    exists a, b :: IsMaximalRun(s, a, b) && w == s[a..b] && RunsBefore(s, a) == n
  }

  /** The words from position i on number the runs that start at or after i. Position i must be an edge of a run. */
  lemma {:induction false} WordsCountRuns(s: string, i: nat)
    requires i <= |s|
    requires i == 0 || i == |s| || IsSpace(s[i - 1]) || IsSpace(s[i])
    ensures |WordsFrom(s, i)| + RunsBefore(s, i) == RunsBefore(s, |s|)
    decreases |s| - i
  {
    var a := SkipSpaces(s, i);
    NoRunStartsInSpaces(s, i, a);
    if a < |s| {
      var b := SkipWord(s, a);
      if a > i {
        assert IsSpace(s[a - 1]);
      }
      OneRunStartInRun(s, a, b);
      WordsCountRuns(s, b);
    }
  }

  /**
   * Word n from position i on is the maximal run with RunsBefore(s, i) + n runs before it.
   * Position i must be an edge of a run.
   */
  lemma {:induction false} WordsAreMaximalRuns(s: string, i: nat, n: nat)
    requires i <= |s|
    requires i == 0 || i == |s| || IsSpace(s[i - 1]) || IsSpace(s[i])
    requires n < |WordsFrom(s, i)|
    ensures IsNthRun(s, WordsFrom(s, i)[n], RunsBefore(s, i) + n)
    decreases |s| - i
  {
    var a := SkipSpaces(s, i);
    var b := SkipWord(s, a);
    NoRunStartsInSpaces(s, i, a);
    if a > i {
      assert IsSpace(s[a - 1]);
    }
    if n == 0 {
      assert WordsFrom(s, i)[0] == s[a..b];
      assert IsMaximalRun(s, a, b);
    } else {
      assert IsRunStart(s, a);
      OneRunStartInRun(s, a, b);
      assert WordsFrom(s, i)[n] == WordsFrom(s, b)[n - 1];
      WordsAreMaximalRuns(s, b, n - 1);
    }
  }

  /** split() finds no word exactly when s is all whitespace. */
  lemma WordsEmpty(s: string)
    ensures Words(s) == [] <==> forall k :: 0 <= k < |s| ==> IsSpace(s[k])
  {
    var a := SkipSpaces(s, 0);
    if a < |s| {
      assert !IsSpace(s[a]);
    }
  }

  /**
   * split(): no words exactly when s is all whitespace; otherwise one word per maximal run
   * of non-whitespace, in the order of the runs (word n is the run with n runs before it),
   * so that the words laid end to end are the non-whitespace characters of s.
   */
  lemma WordsMeaning(s: string)
    ensures Words(s) == [] <==> forall k :: 0 <= k < |s| ==> IsSpace(s[k])
    ensures Concat(Words(s)) == NonSpaceFrom(s, 0)
    ensures |Words(s)| == RunsBefore(s, |s|)
    ensures forall n :: 0 <= n < |Words(s)| ==> IsNthRun(s, Words(s)[n], n)
  {
    WordsEmpty(s);
    WordsSpellNonSpace(s, 0);
    WordsCountRuns(s, 0);
    forall n | 0 <= n < |Words(s)|
      ensures IsNthRun(s, Words(s)[n], n)
    {
      WordsAreMaximalRuns(s, 0, n);
    }
  }

  /** Lower-casing of one character; only the ASCII letters are mapped. */
  function LowerChar(c: char): char {
    if 'A' <= c <= 'Z' then (c as int + 32) as char else c
  }

  /** Python's s.lower(), restricted to ASCII letters. */
  function Lower(s: string): (r: string)
    ensures |r| == |s|
    ensures forall i :: 0 <= i < |s| ==> r[i] == LowerChar(s[i])
  {
    seq(|s|, i requires 0 <= i < |s| => LowerChar(s[i]))
  }

  /** Lowering twice is lowering once. */
  lemma LowerIdempotent(s: string)
    ensures Lower(Lower(s)) == Lower(s)
  {
  }

  /** lower() changes exactly the upper-case letters. */
  lemma LowerChangesUpperCase(s: string, i: nat)
    requires i < |s|
    ensures Lower(s)[i] != s[i] <==> 'A' <= s[i] <= 'Z'
  {
  }
}
