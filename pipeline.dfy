/**
 * get_digest(file) from end to end: read_rtts fills a fresh dictionary from the lines of
 * the sample file, and the sweep turns it into the digest. The file is read before the
 * unloaded baselines are checked, so a bad line is reported even without baselines.
 */
module Pipeline {
  import opened Wrappers
  import opened RttMaps
  import opened SampleReader
  import opened DigestEngine
  import opened DigestProperties

  /** The digest of a sample file given as its lines, or the exception get_digest raises. */
  function DigestFile(lines: seq<string>, parseLength: string -> Option<int>, parseRtt: string -> Option<real>,
                      unloaded: Baselines): Result<Digest>
  {
    DigestOfLines(ClassifyAll(lines, parseLength, parseRtt), unloaded)
  }

  /** The same, from what read_rtts makes of each line. */
  function DigestOfLines(kinds: seq<LineKind>, unloaded: Baselines): Result<Digest> {
    var p := Ingest(map[], kinds);
    match Returned(p)
    case Err(e) => Err(e)
    case Ok(total) => DigestAsWritten(p.rtts, total, unloaded)
  }

  /** get_digest: read the file into a new dictionary, then digest it. */
  method GetDigest(lines: seq<string>, parseLength: string -> Option<int>, parseRtt: string -> Option<real>,
                   unloaded: Baselines) returns (r: Result<Digest>)
    ensures r == DigestFile(lines, parseLength, parseRtt, unloaded)
  {
    var table := new RttTable();
    var read := table.ReadRtts(lines, parseLength, parseRtt);
    if read.Err? {
      return Err(read.error);
    }
    r := DigestSamples(table.rtts, read.value, unloaded);
  }

  /**
   * A digest made from a file holds the samples of its lines, none of which failed, and
   * their number; the total is the sum of its list lengths.
   */
  lemma DigestFileTotals(kinds: seq<LineKind>, unloaded: Baselines)
    requires DigestOfLines(kinds, unloaded).Ok?
    ensures var d := DigestOfLines(kinds, unloaded).value;
      FirstFailure(kinds) == None &&
      d.rtts == Ingest(map[], kinds).rtts && d.totalMessages == Ingest(map[], kinds).total &&
      d.totalMessages == |Accepted(kinds)| == TotalSamples(d.rtts)
  {
    var p := Ingest(map[], kinds);
    assert p.failure.None?;
    assert DigestOfLines(kinds, unloaded) == DigestAsWritten(p.rtts, p.total, unloaded);
    IngestStopsAtFirstFailure(map[], kinds);
    IngestCountsAccepted(map[], kinds);
    IngestConservesSamples(map[], kinds);
    EmptyMapHasNoSamples(map[]);
  }

  /**
   * While every length lies below the sentinel, the counts of a digest made from a file
   * add up to its total and its cumulative fractions climb to 1.
   */
  lemma DigestFileFractions(kinds: seq<LineKind>, unloaded: Baselines)
    requires DigestOfLines(kinds, unloaded).Ok?
    requires forall k :: k in DigestOfLines(kinds, unloaded).value.rtts ==> k < Sentinel
    ensures var d := DigestOfLines(kinds, unloaded).value;
      SumCounts(d.rows) == d.totalMessages && |d.rows| > 0 && d.rows[|d.rows| - 1].cumFrac == 1.0
  {
    DigestFileTotals(kinds, unloaded);
    var p := Ingest(map[], kinds);
    assert DigestOfLines(kinds, unloaded) == DigestAsWritten(p.rtts, p.total, unloaded);
    BelowSentinelSummary(p.rtts, p.total, unloaded);
  }

  /**
   * A line that fails to parse is reported whatever the baselines are, even when there are
   * none: the file is read before the unloaded dictionary is looked at.
   */
  lemma ReadErrorsComeFirst(kinds: seq<LineKind>, unloaded: Baselines)
    requires FirstFailure(kinds).Some?
    ensures DigestOfLines(kinds, unloaded) == Err(FirstFailure(kinds).value)
  {
    IngestStopsAtFirstFailure(map[], kinds);
  }

  /** With a file that reads cleanly and no baselines, get_digest reports the missing data. */
  lemma NoBaselinesIsAnError(kinds: seq<LineKind>)
    requires FirstFailure(kinds) == None
    ensures DigestOfLines(kinds, map[]) == Err(NoUnloadedData)
  {
    IngestStopsAtFirstFailure(map[], kinds);
  }
}
