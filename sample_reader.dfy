/**
 * read_rtts: the sample reader. A sample file produced by cp_node's dump_times
 * command holds one message per line, "<length> <rtt-usec> ...". The reader
 * skips comment lines and lines with fewer than two fields, and appends the RTT
 * of every other line to the list of its length in a dictionary it is given.
 */
module SampleReader {
  import opened Wrappers
  import opened Text
  import opened RttMaps

  /** What read_rtts makes of one line. */
  datatype LineKind =
    | Blank        // strips to nothing, so stripped[0] raises IndexError
    | Comment      // starts with '#' once stripped
    | Short        // fewer than two fields: reported and skipped
    | Unparsable   // int() of the first field or float() of the second raises ValueError
    | Sample(length: int, rtt: real)

  /**
   * The decision read_rtts takes on one line. Number parsing is a parameter:
   * parseLength stands for int(), parseRtt for float(), None for a raised ValueError.
   */
  function Classify(line: string, parseLength: string -> Option<int>, parseRtt: string -> Option<real>): LineKind {
    var stripped := Strip(line);
    if |stripped| == 0 then Blank
    else if stripped[0] == '#' then Comment
    else
      var words := Words(stripped);
      if |words| < 2 then Short
      else
        match parseLength(words[0])
        case None => Unparsable
        case Some(length) =>
          match parseRtt(words[1])
          case None => Unparsable
          case Some(usec) => Sample(length, usec)
  }

  function ClassifyAll(lines: seq<string>, parseLength: string -> Option<int>, parseRtt: string -> Option<real>): seq<LineKind> {
    seq(|lines|, i requires 0 <= i < |lines| => Classify(lines[i], parseLength, parseRtt))
  }

  /** The lines read_rtts skips, stops at and takes, described without the parser's control flow. */
  lemma ClassifyMeaning(line: string, parseLength: string -> Option<int>, parseRtt: string -> Option<real>)
    ensures Classify(line, parseLength, parseRtt) == Blank <==> forall i :: 0 <= i < |line| ==> IsSpace(line[i])
    ensures Classify(line, parseLength, parseRtt) == Comment <==> Strip(line) != [] && Strip(line)[0] == '#'
    ensures Classify(line, parseLength, parseRtt) == Short <==>
      Strip(line) != [] && Strip(line)[0] != '#' && |Words(Strip(line))| < 2
    ensures Classify(line, parseLength, parseRtt).Sample? <==>
      && Strip(line) != [] && Strip(line)[0] != '#'
      && |Words(Strip(line))| >= 2
      && parseLength(Words(Strip(line))[0]).Some?
      && parseRtt(Words(Strip(line))[1]).Some?
    ensures Classify(line, parseLength, parseRtt).Sample? ==>
      && Some(Classify(line, parseLength, parseRtt).length) == parseLength(Words(Strip(line))[0])
      && Some(Classify(line, parseLength, parseRtt).rtt) == parseRtt(Words(Strip(line))[1])
  {
    StripShape(line);
  }

  /** The exception a line raises, if any. */
  function FailureOf(k: LineKind): Option<Error> {
    match k
    case Blank => Some(IndexError)
    case Unparsable => Some(ValueError)
    case _ => None
  }

  /** The (length, rtt) pair a line contributes: one for a sample, none otherwise. */
  function SampleOf(k: LineKind): seq<(int, real)> {
    if k.Sample? then [(k.length, k.rtt)] else []
  }

  /** rtts[length].append(usec), or rtts[length] = [usec] for a new length. */
  function AddSample(m: RttMap, length: int, usec: real): (r: RttMap)
    ensures r.Keys == m.Keys + {length}
    ensures r[length] == ListOf(m, length) + [usec]
    ensures forall k :: k in m && k != length ==> r[k] == m[k]
  {
    if length in m then m[length := m[length] + [usec]] else m[length := [usec]]
  }

  /** The dictionary and the counter after some lines, and the exception that stopped the loop, if any. */
  datatype Progress = Progress(rtts: RttMap, total: nat, failure: Option<Error>)

  /** One pass of the loop body of read_rtts; once an exception is raised nothing changes. */
  function Step(p: Progress, k: LineKind): Progress {
    if p.failure.Some? then p
    else if FailureOf(k).Some? then p.(failure := FailureOf(k))
    else if k.Sample? then Progress(AddSample(p.rtts, k.length, k.rtt), p.total + 1, None)
    else p
  }

  /** The loop of read_rtts over the classified lines, one line at a time from the first. */
  function Ingest(m: RttMap, kinds: seq<LineKind>): Progress
    decreases |kinds|
  {
    if kinds == [] then Progress(m, 0, None)
    else Step(Ingest(m, kinds[..|kinds| - 1]), kinds[|kinds| - 1])
  }

  /** What read_rtts hands back: the count, or the exception it raised. */
  function Returned(p: Progress): Result<nat> {
    if p.failure.Some? then Err(p.failure.value) else Ok(p.total)
  }

  // A second description of the same reading, line by line from the front: all lines
  // before the first failing one contribute their samples, in order.

  /** The exception raised by the first failing line, if any. */
  function FirstFailure(kinds: seq<LineKind>): Option<Error> {
    if kinds == [] then None
    else if FailureOf(kinds[0]).Some? then FailureOf(kinds[0])
    else FirstFailure(kinds[1..])
  }

  /** The samples of the lines before the first failing line, in file order. */
  function Accepted(kinds: seq<LineKind>): seq<(int, real)> {
    if kinds == [] then []
    else if FailureOf(kinds[0]).Some? then []
    else SampleOf(kinds[0]) + Accepted(kinds[1..])
  }

  /** The RTTs of length L among samples, in their order. */
  function RttsOfLength(samples: seq<(int, real)>, L: int): seq<real> {
    if samples == [] then []
    else
      var last := samples[|samples| - 1];
      RttsOfLength(samples[..|samples| - 1], L) + (if last.0 == L then [last.1] else [])
  }

  lemma {:induction false} FirstFailureSnoc(a: seq<LineKind>, k: LineKind)
    ensures FirstFailure(a + [k]) == if FirstFailure(a).Some? then FirstFailure(a) else FailureOf(k)
  {
    if a != [] {
      assert (a + [k])[1..] == a[1..] + [k];
      FirstFailureSnoc(a[1..], k);
    }
  }

  lemma {:induction false} AcceptedSnoc(a: seq<LineKind>, k: LineKind)
    ensures Accepted(a + [k]) == if FirstFailure(a).Some? then Accepted(a) else Accepted(a) + SampleOf(k)
  {
    if a == [] {
      assert Accepted([k]) == SampleOf(k) + Accepted([]);
    } else {
      assert (a + [k])[1..] == a[1..] + [k];
      AcceptedSnoc(a[1..], k);
    }
  }

  /** The front-to-back descriptions, one line at a time from the back. */
  lemma FrontDescriptionsStep(kinds: seq<LineKind>)
    requires kinds != []
    ensures var a, k := kinds[..|kinds| - 1], kinds[|kinds| - 1];
      && FirstFailure(kinds) == (if FirstFailure(a).Some? then FirstFailure(a) else FailureOf(k))
      && Accepted(kinds) == (if FirstFailure(a).Some? then Accepted(a) else Accepted(a) + SampleOf(k))
  {
    var a, k := kinds[..|kinds| - 1], kinds[|kinds| - 1];
    assert kinds == a + [k];
    FirstFailureSnoc(a, k);
    AcceptedSnoc(a, k);
  }

  /** The RTTs of length L after one more sample. */
  lemma RttsOfLengthSnoc(samples: seq<(int, real)>, s: (int, real), L: int)
    ensures RttsOfLength(samples + [s], L) == RttsOfLength(samples, L) + (if s.0 == L then [s.1] else [])
  {
    assert (samples + [s])[..|samples|] == samples;
  }

  /** The list of length L after one appended sample. */
  lemma ListOfAdd(m: RttMap, length: int, usec: real, L: int)
    ensures ListOf(AddSample(m, length, usec), L) == ListOf(m, L) + (if length == L then [usec] else [])
    ensures L in AddSample(m, length, usec) <==> L in m || length == L
  {
  }

  /** The loop stops with exactly the exception of the first failing line. */
  lemma {:induction false} IngestStopsAtFirstFailure(m: RttMap, kinds: seq<LineKind>)
    ensures Ingest(m, kinds).failure == FirstFailure(kinds)
    decreases |kinds|
  {
    if kinds != [] {
      IngestStopsAtFirstFailure(m, kinds[..|kinds| - 1]);
      FrontDescriptionsStep(kinds);
    }
  }

  /** The returned total is the number of samples taken, comment and short lines excluded. */
  lemma {:induction false} IngestCountsAccepted(m: RttMap, kinds: seq<LineKind>)
    ensures Ingest(m, kinds).total == |Accepted(kinds)|
    decreases |kinds|
  {
    if kinds != [] {
      var a := kinds[..|kinds| - 1];
      IngestCountsAccepted(m, a);
      IngestStopsAtFirstFailure(m, a);
      FrontDescriptionsStep(kinds);
    }
  }

  /**
   * Each length's list is its old list followed by that length's RTTs in file order;
   * a length gets a list exactly when it had one or some taken sample has it.
   */
  lemma {:induction false} IngestAppendsInFileOrder(m: RttMap, kinds: seq<LineKind>, L: int)
    ensures ListOf(Ingest(m, kinds).rtts, L) == ListOf(m, L) + RttsOfLength(Accepted(kinds), L)
    ensures L in Ingest(m, kinds).rtts <==> L in m || RttsOfLength(Accepted(kinds), L) != []
    decreases |kinds|
  {
    if kinds != [] {
      var a, k := kinds[..|kinds| - 1], kinds[|kinds| - 1];
      var p, acc := Ingest(m, a), Accepted(a);
      IngestAppendsInFileOrder(m, a, L);
      IngestStopsAtFirstFailure(m, a);
      FrontDescriptionsStep(kinds);
      assert Ingest(m, kinds) == Step(p, k);
      if p.failure.None? && FailureOf(k).None? && k.Sample? {
        assert Accepted(kinds) == acc + [(k.length, k.rtt)];
        AppendsOneSample(m, L, p, acc, k.length, k.rtt);
      } else {
        assert Ingest(m, kinds).rtts == p.rtts;
        assert p.failure.None? ==> SampleOf(k) == [] && acc + [] == acc;
      }
    }
  }

  /** The step of IngestAppendsInFileOrder that takes one sample. */
  lemma AppendsOneSample(m: RttMap, L: int, p: Progress, acc: seq<(int, real)>, length: int, usec: real)
    requires ListOf(p.rtts, L) == ListOf(m, L) + RttsOfLength(acc, L)
    requires L in p.rtts <==> L in m || RttsOfLength(acc, L) != []
    ensures ListOf(AddSample(p.rtts, length, usec), L) == ListOf(m, L) + RttsOfLength(acc + [(length, usec)], L)
    ensures L in AddSample(p.rtts, length, usec) <==> L in m || RttsOfLength(acc + [(length, usec)], L) != []
  {
    ListOfAdd(p.rtts, length, usec, L);
    RttsOfLengthSnoc(acc, (length, usec), L);
    var tail := if length == L then [usec] else [];
    assert ListOf(m, L) + RttsOfLength(acc, L) + tail == ListOf(m, L) + (RttsOfLength(acc, L) + tail);
  }

  /** Appending leaves the rest of the dictionary as it was. */
  lemma AddSampleElsewhere(m: RttMap, length: int, usec: real)
    ensures AddSample(m, length, usec) - {length} == m - {length}
  {
  }

  /** One appended sample adds one to the total number of samples. */
  lemma AddSampleCount(m: RttMap, length: int, usec: real)
    ensures TotalSamples(AddSample(m, length, usec)) == TotalSamples(m) + 1
  {
    var r := AddSample(m, length, usec);
    TotalSamplesRemove(r, length);
    AddSampleElsewhere(m, length, usec);
    if length in m {
      TotalSamplesRemove(m, length);
    } else {
      RemoveAbsent(m, length);
    }
  }

  /** The sum of the list lengths grows by exactly the count the reader returns. */
  lemma {:induction false} IngestConservesSamples(m: RttMap, kinds: seq<LineKind>)
    ensures TotalSamples(Ingest(m, kinds).rtts) == TotalSamples(m) + Ingest(m, kinds).total
    decreases |kinds|
  {
    if kinds != [] {
      var a, k := kinds[..|kinds| - 1], kinds[|kinds| - 1];
      IngestConservesSamples(m, a);
      var p := Ingest(m, a);
      if p.failure.None? && FailureOf(k).None? && k.Sample? {
        AddSampleCount(p.rtts, k.length, k.rtt);
      }
    }
  }

  /** Once a line has failed, the lines after it change nothing. */
  lemma {:induction false} IngestAfterFailure(m: RttMap, kinds: seq<LineKind>, j: nat)
    requires j <= |kinds|
    requires Ingest(m, kinds[..j]).failure.Some?
    ensures Ingest(m, kinds) == Ingest(m, kinds[..j])
    decreases |kinds| - j
  {
    if j < |kinds| {
      var a := kinds[..|kinds| - 1];
      assert a[..j] == kinds[..j];
      IngestAfterFailure(m, a, j);
    } else {
      assert kinds[..j] == kinds;
    }
  }

  /**
   * The loop body of read_rtts up to the update: strip the line, index its first
   * character, split it and parse its first two fields.
   */
  method ReadLine(line: string, parseLength: string -> Option<int>, parseRtt: string -> Option<real>)
    returns (k: LineKind)
    ensures k == Classify(line, parseLength, parseRtt)
  {
    var stripped := Strip(line);
    if |stripped| == 0 {
      return Blank;
    }
    if stripped[0] == '#' {
      return Comment;
    }
    var words := Words(stripped);
    if |words| < 2 {
      return Short;
    }
    var length := parseLength(words[0]);
    if length.None? {
      return Unparsable;
    }
    var usec := parseRtt(words[1]);
    if usec.None? {
      return Unparsable;
    }
    return Sample(length.value, usec.value);
  }

  /** The loop after one more line. */
  lemma IngestNext(m: RttMap, kinds: seq<LineKind>, i: nat)
    requires i < |kinds|
    ensures Ingest(m, kinds[..i + 1]) == Step(Ingest(m, kinds[..i]), kinds[i])
  {
    assert kinds[..i + 1][..i] == kinds[..i];
  }

  /** The first failing line ends the loop with its exception and the dictionary as it was. */
  lemma IngestFailsAt(m: RttMap, kinds: seq<LineKind>, i: nat)
    requires i < |kinds| && Ingest(m, kinds[..i]).failure.None? && FailureOf(kinds[i]).Some?
    ensures Ingest(m, kinds) == Ingest(m, kinds[..i]).(failure := FailureOf(kinds[i]))
  {
    IngestNext(m, kinds, i);
    IngestAfterFailure(m, kinds, i + 1);
  }

  /** The dictionary read_rtts fills: it belongs to the caller and is changed in place. */
  class RttTable {
    var rtts: RttMap

    constructor ()
      ensures rtts == map[]
    {
      rtts := map[];
    }

    /** rtts[length].append(usec) for a known length, rtts[length] = [usec] for a new one. */
    method Append(length: int, usec: real)
      modifies this
      ensures rtts == AddSample(old(rtts), length, usec)
    {
      if length in rtts {
        rtts := rtts[length := rtts[length] + [usec]];
      } else {
        rtts := rtts[length := [usec]];
      }
    }

    /**
     * read_rtts(file, rtts): reads the lines of one sample file into rtts. A line that
     * raises leaves rtts as the lines before it made it, and the exception is returned.
     */
    method ReadRtts(lines: seq<string>, parseLength: string -> Option<int>, parseRtt: string -> Option<real>)
      returns (r: Result<nat>)
      modifies this
      ensures rtts == Ingest(old(rtts), ClassifyAll(lines, parseLength, parseRtt)).rtts
      ensures r == Returned(Ingest(old(rtts), ClassifyAll(lines, parseLength, parseRtt)))
      ensures r.Ok? ==> TotalSamples(rtts) == TotalSamples(old(rtts)) + r.value
    {
      ghost var start := rtts;
      ghost var kinds := ClassifyAll(lines, parseLength, parseRtt);
      var total: nat := 0;
      for i := 0 to |lines|
        invariant Ingest(start, kinds[..i]) == Progress(rtts, total, None)
      {
        var k := ReadLine(lines[i], parseLength, parseRtt);
        assert k == kinds[i];
        IngestNext(start, kinds, i);
        match k {
          case Blank =>
            IngestFailsAt(start, kinds, i);
            return Err(IndexError);
          case Unparsable =>
            IngestFailsAt(start, kinds, i);
            return Err(ValueError);
          case Comment =>
          case Short =>
          case Sample(length, usec) =>
            Append(length, usec);
            total := total + 1;
        }
      }
      assert kinds[..|lines|] == kinds;
      IngestConservesSamples(start, kinds);
      return Ok(total);
    }
  }
}
