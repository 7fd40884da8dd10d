# RTT digests of the cperf analysis tools

This project models how `util/cp_analysis_tools.py` turns a sample file of message
round-trip times (RTTs) into a digest, and proves properties of that model in Dafny.
The sample files come from cp_node's `dump_times` command.

- **Reading** (`read_rtts`). The reader goes through the sample file line by line. It
  skips comment lines and lines with fewer than two fields. For every other line it appends
  the RTT to the list kept for that message length, and it counts the samples it took.
- **Buckets** (`get_buckets`). Every distinct length becomes one histogram bucket, in
  ascending order. Each bucket is tagged with the fraction of all samples at that length or
  below.
- **Sweep** (`get_digest`). A single pass over the sorted lengths, closed by the sentinel
  length 999999999, emits one row per bucket. A row holds the length, the cumulative
  fraction, the sample count, the 50th/99th/99.9th percentile RTTs, and the same
  percentiles of the slowdowns. A slowdown is an RTT divided by the unloaded p50 RTT in
  force at that length.
- **Command-line parsing** (`boolean`). This is the argparse type that reads Boolean words.

The files:

- `wrappers.dfy`: `Option`, `Result`, and the Python exceptions the code can raise. Each
  exception is an `Error` value.
- `text.dfy`: `str.strip`, `str.split` and `str.lower` on `seq<char>`.
- `sorting.dfy`: `sorted()` on lists of reals.
- `rttmaps.dfy`: the length → RTT-list dictionary, its sorted keys, and sample counts.
- `sample_reader.dfy`: `read_rtts`. It is a class `RttTable` whose `rtts` field is the
  dictionary the function mutates. `ReadRtts` is its loop, and `Ingest` is the function on
  values that specifies the loop.
- `bucketizer.dfy`: `get_buckets`, as a method with a loop.
- `bucket_summary.dfy`: how one bucket is closed (padding with 0, sorting, reading the
  three percentiles).
- `digest_engine.dfy`: the sweep of `get_digest`. It has three parts:
  - the method `DigestSamples`, with its loop `RunSweep`;
  - `Sweep`, the step-by-step function that specifies the loop;
  - `DigestOf`, a description of the result that does not follow the loop, together with
    `DigestAsWritten`, which describes the code's behaviour at the sentinel.
- `digest_properties.dfy`: what a digest says about its samples, plus a worked example.
- `pipeline.dfy`: `get_digest` as a whole. It reads a fresh dictionary, then sweeps it.
- `boolean_arg.dfy`: `boolean`.

Python's exceptions are error results. The model follows the code's order of checks:

- The file is read first.
- If the read succeeded, the code checks that unloaded data exists.
- Then come the division in `get_buckets`, `buckets[0]`, and every `rtt/cur_unloaded`.

The code reads the file before it checks for unloaded data, so a bad line is reported even
when no baseline is loaded (`Pipeline.ReadErrorsComeFirst`).

## Model

| member | source | states |
|---|---|---|
| BooleanArg.BooleanAccepts | util/cp_analysis_tools.py:126-136 | boolean gives True exactly for the six true words, False exactly for the five false words, and ValueError for every other word, after lower-casing |
| BooleanArg.Boolean | util/cp_analysis_tools.py:134-135 | the only exception boolean raises is ValueError |
| BooleanArg.BooleanIgnoresCase | util/cp_analysis_tools.py:133 | two arguments that agree letter by letter after lower-casing give the same result |
| BooleanArg.BooleanExamples | util/cp_analysis_tools.py:133-136 | "YES" gives True; "Off" raises ValueError |
| BooleanArg.TableWordsAreLower | util/cp_analysis_tools.py:130-134 | every word of the table is already lower case, so boolean accepts each one and returns its table value |
| BooleanArg.BooleanOfLower | util/cp_analysis_tools.py:133-136 | lower-casing the argument beforehand does not change what boolean returns |
| Text.LowerIdempotent | util/cp_analysis_tools.py:133 | lower-casing an already lower-cased string changes nothing |
| Text.LowerChangesUpperCase | util/cp_analysis_tools.py:133 | the model's lower-casing changes a character exactly when it is an ASCII upper-case letter A-Z (Python's lower() also maps other letters; see "## Left out") |
| Text.IsSpace | util/cp_analysis_tools.py:176-179 | the whitespace strip() and split() remove: the code points Python's str.isspace accepts (tab to carriage return, 0x1C-0x20, 0x85, 0xA0, 0x1680, 0x2000-0x200A, 0x2028, 0x2029, 0x202F, 0x205F, 0x3000) |
| Text.SkipSpaces | util/cp_analysis_tools.py:176 | the scan for the first non-space stops at the first non-whitespace character, or at the end |
| Text.TrimEnd | util/cp_analysis_tools.py:176 | the scan from the right stops after the last non-whitespace character |
| Text.Strip | util/cp_analysis_tools.py:176 | strip(): the line from its first to its last non-whitespace character, or empty; characterised by StripShape |
| Text.StripShape | util/cp_analysis_tools.py:176 | strip() is empty exactly when the line is all whitespace; otherwise it is the contiguous slice of the line that neither starts nor ends with whitespace, and only whitespace lies before and after it |
| Text.SkipWord | util/cp_analysis_tools.py:179 | a word runs up to the next whitespace character or the end |
| Text.Words | util/cp_analysis_tools.py:179 | split() never yields an empty field |
| Text.WordsHaveNoSpace | util/cp_analysis_tools.py:179 | no field of split() contains whitespace |
| Text.WordsMeaning | util/cp_analysis_tools.py:179-180 | split() yields no field exactly for an all-whitespace line; it yields one field per maximal run of non-whitespace, and field n is the run with n runs before it, so the fields come in the line's order and their number is the number of runs; laid end to end they are the line's non-whitespace characters |
| Text.WordsCountRuns | util/cp_analysis_tools.py:179 | from a run edge on, the number of fields is the number of maximal runs still to come |
| Text.WordsAreMaximalRuns | util/cp_analysis_tools.py:179 | from a run edge on, field n is a maximal run of non-whitespace with exactly n more runs before it than before the edge |
| Text.WordsSpellNonSpace | util/cp_analysis_tools.py:179 | the fields from any position, laid end to end, are the non-whitespace characters from there |
| SampleReader.Classify | util/cp_analysis_tools.py:176-185 | the outcome of one pass of the loop body on a line: IndexError on a blank line, skip a comment or short line, ValueError when int() or float() fails, else a sample; characterised by ClassifyMeaning |
| SampleReader.ClassifyMeaning | util/cp_analysis_tools.py:176-185 | a line is blank (stripped[0] raises IndexError) iff it is all whitespace; a comment iff it starts with '#' once stripped; short iff it has fewer than two fields; a sample iff int() of field 1 and float() of field 2 succeed, and then the sample holds those two values |
| SampleReader.ReadLine | util/cp_analysis_tools.py:176-185 | the loop body's decision on one line is the one ClassifyMeaning characterises |
| SampleReader.FailureOf | util/cp_analysis_tools.py:177-185 | the exception a line raises: IndexError for a blank line (stripped[0]), ValueError for a failed int() or float(), none otherwise |
| SampleReader.Step | util/cp_analysis_tools.py:175-190 | one loop iteration: after an exception nothing changes; a blank or unparsable line raises; a sample is added and counted; other lines are skipped |
| SampleReader.Ingest | util/cp_analysis_tools.py:173-192 | the loop over the file from the first line: dictionary, count and raised exception after the given lines; tied to the front-to-back description by IngestStopsAtFirstFailure, IngestCountsAccepted and IngestAppendsInFileOrder |
| SampleReader.Returned | util/cp_analysis_tools.py:192 | what read_rtts hands back: the count of samples, or the exception raised by a line |
| SampleReader.AddSample | util/cp_analysis_tools.py:186-189 | after adding a sample, the dictionary has the new length as a key, the new RTT is last in that length's list, and every other list is unchanged |
| SampleReader.RttTable.Append | util/cp_analysis_tools.py:186-189 | the dictionary field becomes old dictionary plus one sample, and nothing else changes |
| SampleReader.RttTable.constructor | util/cp_analysis_tools.py:224 | the table starts as the empty dictionary get_digest passes in |
| SampleReader.RttTable.ReadRtts | util/cp_analysis_tools.py:162-192 | the loop leaves the dictionary as Ingest over the classified lines; it returns the count or the first exception; on success, the dictionary gained exactly that many samples |
| SampleReader.IngestStopsAtFirstFailure | util/cp_analysis_tools.py:175-185 | the reader raises exactly the exception of the first failing line, or none |
| SampleReader.IngestCountsAccepted | util/cp_analysis_tools.py:173-192 | the returned total is the number of sample lines before the first failure; comment and short lines are not counted |
| SampleReader.IngestAppendsInFileOrder | util/cp_analysis_tools.py:186-189 | after reading, each length's list is its old list followed by that length's RTTs in file order; a length is a key iff it was one before or some accepted line has it |
| SampleReader.IngestConservesSamples | util/cp_analysis_tools.py:162-192 | the samples in the dictionary grow by exactly the returned total |
| SampleReader.IngestAfterFailure | util/cp_analysis_tools.py:184-185 | once a line has raised, the remaining lines change nothing |
| SampleReader.IngestFailsAt | util/cp_analysis_tools.py:177-185 | a failing line keeps the dictionary and count reached before it, and records its exception |
| SampleReader.IngestNext | util/cp_analysis_tools.py:175 | reading one more line is one more loop step |
| SampleReader.FirstFailureSnoc | util/cp_analysis_tools.py:175-185 | appending a line changes the first failure only when there was none |
| SampleReader.AcceptedSnoc | util/cp_analysis_tools.py:175-190 | appending a line adds its sample only when no earlier line failed |
| SampleReader.AddSampleCount | util/cp_analysis_tools.py:186-190 | each appended sample raises the sample count by one |
| SampleReader.AddSampleElsewhere | util/cp_analysis_tools.py:186-189 | adding a sample leaves the lists of other lengths alone |
| SampleReader.ListOfAdd | util/cp_analysis_tools.py:186-189 | adding a sample extends only its own length's list, by that one RTT |
| Sorting.Insert | util/cp_analysis_tools.py:265 | inserting into a sorted list keeps it sorted and adds exactly that element |
| Sorting.Sorted | util/cp_analysis_tools.py:265-269 | sorted() returns an ascending permutation of its argument |
| RttMaps.SetMin | util/cp_analysis_tools.py:254 | min() of a non-empty key set is a member and is at most every member |
| RttMaps.SortedKeys | util/cp_analysis_tools.py:206-255 | the sorted keys are strictly increasing and hold exactly the keys |
| RttMaps.SortedLengths | util/cp_analysis_tools.py:206-255 | sorted(rtts.keys()) is strictly increasing, has one entry per key, and holds exactly the keys |
| RttMaps.SortedKeysLength | util/cp_analysis_tools.py:206 | the sorted keys have one entry per key |
| RttMaps.SortedUnique | util/cp_analysis_tools.py:206-255 | two strictly increasing lists with the same members are equal, so the sorted key list is determined by the key set |
| RttMaps.MinExists | util/cp_analysis_tools.py:254 | a non-empty set of lengths has a least element |
| RttMaps.PrefixSamples | util/cp_analysis_tools.py:206-207 | the running sum over the first i+1 sorted lengths is the number of samples of length at most the (i+1)-th |
| RttMaps.SamplesAtMostMonotone | util/cp_analysis_tools.py:207 | the running count never decreases along the sorted lengths |
| RttMaps.SamplesAtMostLast | util/cp_analysis_tools.py:207 | at the largest length, the running count is the total of all samples |
| RttMaps.TotalSamplesRemove | util/cp_analysis_tools.py:207 | a map's samples are those of one length plus those of the rest |
| Bucketizer.CumFrac | util/cp_analysis_tools.py:207-208 | cumulative/total for a length: the samples at that length or below divided by the total, in true division |
| Bucketizer.GetBuckets | util/cp_analysis_tools.py:194-209 | ZeroDivisionError iff total is 0 and at least one length exists; otherwise one bucket per length, in ascending order, each length paired with the fraction of samples at that length or below |
| Bucketizer.CumFracNonDecreasing | util/cp_analysis_tools.py:206-208 | cumulative fractions never decrease along the buckets |
| Bucketizer.CumFracInUnitInterval | util/cp_analysis_tools.py:207-208 | when total is the sample count, every cumulative fraction lies in [0, 1] |
| Bucketizer.LastCumFracIsOne | util/cp_analysis_tools.py:207-208 | when total is the sample count, the last bucket's fraction is exactly 1 |
| BucketSummary.Padded | util/cp_analysis_tools.py:262-264 | an empty bucket is read as the single sample 0; other buckets are unchanged |
| BucketSummary.PercentileIndices | util/cp_analysis_tools.py:266-268 | the indices count//2 ≤ count*99//100 ≤ count*999//1000 lie in the (padded) bucket |
| BucketSummary.SortedElement | util/cp_analysis_tools.py:265-266 | each entry of the sorted bucket is one of its samples |
| BucketSummary.SpreadOf | util/cp_analysis_tools.py:262-272 | a closed bucket reports p50 ≤ p99 ≤ p999, each one of its samples; an empty bucket reports zeros |
| BucketSummary.SpreadOfRanks | util/cp_analysis_tools.py:265-272 | the percentiles of a non-empty bucket are its samples of rank count//2, count*99//100 and count*999//1000 (0-based, in sorted order) |
| BucketSummary.SortedRank | util/cp_analysis_tools.py:265-268 | position k of the sorted list holds the value of rank k: fewer than k+1 samples below it, more than k at or below it |
| BucketSummary.SortedCounts | util/cp_analysis_tools.py:265 | sorting keeps how many samples lie below, and at or below, any value |
| BucketSummary.RankIsUnique | util/cp_analysis_tools.py:266-272 | a rank names a single value, so the rank clauses pin each percentile |
| DigestEngine.SweepLengths | util/cp_analysis_tools.py:255-256 | the lengths the loop visits: the sorted lengths followed by 999999999, one more than there are lengths |
| DigestEngine.BucketsOf | util/cp_analysis_tools.py:248 | what get_buckets returns for a non-zero total: one bucket per length, pairing the j-th sorted length with its cumulative fraction |
| DigestEngine.BaselineAfter | util/cp_analysis_tools.py:254-281 | cur_unloaded after the sweep has visited some lengths: the smallest baseline length's baseline, replaced at each visited length that has one |
| DigestEngine.Slowdowns | util/cp_analysis_tools.py:285 | the slowdowns of a list of RTTs, one per RTT, in order; each times the baseline is its RTT (SlowdownsScale) |
| DigestEngine.BaselineBeforeAnyKnown | util/cp_analysis_tools.py:254 | until a length with a baseline is met, the baseline in force is that of the smallest baseline length |
| DigestEngine.BaselineIsLatestKnown | util/cp_analysis_tools.py:280-281 | the baseline in force is that of the latest visited length that has one |
| DigestEngine.BaselineStep | util/cp_analysis_tools.py:280-281 | visiting a length switches to its baseline if it has one, and otherwise keeps the current one |
| DigestEngine.SlowdownsScale | util/cp_analysis_tools.py:285 | each slowdown times the baseline gives back its RTT |
| DigestEngine.InitialState | util/cp_analysis_tools.py:249-254 | the loop variables before the first step: the first bucket open and empty, next_bucket 1, no rows, and cur_unloaded the baseline of the smallest baseline length |
| DigestEngine.RowOf | util/cp_analysis_tools.py:259-272 | the row appended when a bucket closes: its length, cum_frac and count, and the percentiles of its RTTs and slowdowns |
| DigestEngine.Flush | util/cp_analysis_tools.py:258-279 | closing the open bucket: it joins the closed buckets; then the next bucket opens empty, or with none left the loop breaks |
| DigestEngine.Absorb | util/cp_analysis_tools.py:280-285 | the rest of a step: take the length's baseline if it has one, KeyError for a length absent from rtts, ZeroDivisionError for a zero baseline with samples, else add the samples and slowdowns |
| DigestEngine.SweepStep | util/cp_analysis_tools.py:257-285 | one iteration of the for loop: flush when the length passes the open bucket, stop at the break, else absorb the length |
| DigestEngine.SweepOver | util/cp_analysis_tools.py:257-285 | the for loop over a list of lengths from a given state, stopping at an exception or the break |
| DigestEngine.SweepRows | util/cp_analysis_tools.py:257-285 | the rows the loop appends over the given lengths from the initial state, or the exception it raises |
| DigestEngine.Sweep | util/cp_analysis_tools.py:244-285 | get_digest after the read, step by step: NoUnloadedData, get_buckets' ZeroDivisionError, buckets[0]'s IndexError, then the loop's rows; equal to DigestAsWritten by SweepIsAsWritten |
| DigestEngine.DigestOf | util/cp_analysis_tools.py:244-285 | the intended digest, stated without the loop: the same exceptions, and then one row per length in ascending order; its properties are DigestRowsAreTheLengths, DigestCountsAllSamples, DigestCumFracs and DigestRowSpreads |
| DigestEngine.DigestAsWritten | util/cp_analysis_tools.py:244-285 | the digest the code produces: DigestOf while the largest length is below 999999999; otherwise KeyError, ZeroDivisionError, or all rows but the last |
| DigestEngine.AppendSamples | util/cp_analysis_tools.py:283-285 | the inner loop appends the length's RTTs and their slowdowns in order; it fails iff it must divide by a zero baseline |
| DigestEngine.AbsorbLength | util/cp_analysis_tools.py:280-285 | absorbing one length into the open bucket is the specified sweep step, ZeroDivisionError included |
| DigestEngine.RunSweep | util/cp_analysis_tools.py:255-285 | the for loop over the lengths computes the emitted rows, or the exception the specification sweep raises |
| DigestEngine.DigestSamples | util/cp_analysis_tools.py:244-285 | the sweep method computes DigestAsWritten: the error checks of lines 244-254 and the rows of the loop |
| DigestEngine.SweepIsAsWritten | util/cp_analysis_tools.py:244-285 | the step-by-step sweep equals the direct description (all buckets when the largest length is below the sentinel), with KeyError, ZeroDivisionError and IndexError where the code raises them |
| DigestEngine.SweepPrefix | util/cp_analysis_tools.py:257-285 | after the first i lengths, the sweep holds the first i−1 rows closed and the i-th bucket open, unless a division by zero has occurred |
| DigestEngine.SweepStepOpens | util/cp_analysis_tools.py:258-279 | a length beyond the open bucket closes it and starts the next one with that length's samples |
| DigestEngine.SweepStepStays | util/cp_analysis_tools.py:280-285 | a length inside the open bucket adds its samples to that bucket |
| DigestEngine.SweepStepBreaks | util/cp_analysis_tools.py:258-274 | passing the last bucket closes it and stops the loop |
| DigestEngine.SweepOverSettled | util/cp_analysis_tools.py:273-274 | after the break, later lengths change nothing |
| DigestEngine.SweepEndBelow | util/cp_analysis_tools.py:256-274 | the sentinel step closes the last bucket when every length lies below it |
| DigestEngine.SweepEndAbove | util/cp_analysis_tools.py:256-282 | when the largest length is at least the sentinel, the sentinel step joins the last bucket, which is never emitted (KeyError when 999999999 itself is not a length) |
| DigestEngine.RowsOfSnoc | util/cp_analysis_tools.py:259-272 | closing another bucket appends its row |
| DigestEngine.RowAt | util/cp_analysis_tools.py:259-272 | the row emitted for bucket j is for the j-th smallest length, counts exactly that length's samples and carries its cumulative fraction; it is defined only while every visited length so far divides by a non-zero baseline or has no samples (Divides, line 285) |
| DigestEngine.ClosedAt | util/cp_analysis_tools.py:258-261 | bucket j holds the j-th sorted length, all that length's samples and count, and its cumulative fraction |
| DigestProperties.RowCountsUpTo | util/cp_analysis_tools.py:259-282 | the counts of the first rows add up to the samples of length up to the last of those rows |
| DigestProperties.DigestCountsAllSamples | util/cp_analysis_tools.py:259-282 | the counts column adds up to every sample read |
| DigestProperties.DigestRowAt | util/cp_analysis_tools.py:258-260 | row j of the digest is for the j-th smallest length, counts exactly that length's samples and carries that length's cumulative fraction |
| DigestProperties.DigestRowsAreTheLengths | util/cp_analysis_tools.py:255-261 | the digest has one row per length, in strictly ascending order, covering every length, each counting exactly that length's samples and carrying that length's cumulative fraction from get_buckets |
| DigestProperties.DigestCumFracs | util/cp_analysis_tools.py:248-260 | cum_frac never decreases, lies in [0, 1], and ends at 1 |
| DigestProperties.DigestRowSpreads | util/cp_analysis_tools.py:262-285 | each row's RTT percentiles are ordered RTTs of that length at ranks count//2, count*99//100 and count*999//1000; its slowdown percentiles are the same ranks of that length's RTTs divided by the baseline in force; an empty list gives zeros |
| DigestProperties.AsWrittenBelowSentinel | util/cp_analysis_tools.py:255-258 | while every length is below 999999999, the code's digest is the intended one |
| DigestProperties.BelowSentinelSummary | util/cp_analysis_tools.py:255-285 | below the sentinel, the code's counts add up to the total and its last cum_frac is 1 |
| DigestProperties.AsWrittenAtSentinel | util/cp_analysis_tools.py:255-258 | a length of 999999999 or more loses the last row, so the code's digest differs from the intended one |
| DigestProperties.SentinelLengthExample | util/cp_analysis_tools.py:255-258 | samples only at length 999999999 give a digest with no rows, where one row was meant |
| DigestProperties.ExampleLengths | util/cp_analysis_tools.py:255-256 | for lengths 100 and 200, the sweep visits 100, 200, 999999999 |
| DigestProperties.ExampleFractions | util/cp_analysis_tools.py:207-208 | with 2 samples at 100 and 1 at 200, the fractions are 2/3 and 1 |
| DigestProperties.ExampleBaselinesInForce | util/cp_analysis_tools.py:254-281 | baselines {100: 10, 200: 15} are in force at 100 and 200 respectively |
| DigestProperties.ExampleClosed | util/cp_analysis_tools.py:258-285 | the example's two buckets hold the expected samples and slowdowns |
| DigestProperties.ExampleFirstRow | util/cp_analysis_tools.py:259-272 | the first row reports index 1 of [10, 20] and slowdown 2 |
| DigestProperties.ExampleSecondRow | util/cp_analysis_tools.py:259-272 | the second row reports its single RTT 30 and slowdown 2 |
| DigestProperties.DigestExample | util/cp_analysis_tools.py:244-285 | the whole digest of the example, row by row |
| Pipeline.DigestFile | util/cp_analysis_tools.py:211-285 | get_digest of a file given as its lines: the read's exception, or the as-written digest of a fresh dictionary filled from the file |
| Pipeline.DigestOfLines | util/cp_analysis_tools.py:224-285 | get_digest from what read_rtts makes of each line: the read's exception first, else the as-written digest of the dictionary read into an empty one |
| Pipeline.GetDigest | util/cp_analysis_tools.py:211-285 | get_digest reads the file into a new dictionary, raises the read's exception if there is one, and otherwise returns the sweep's digest |
| Pipeline.DigestFileTotals | util/cp_analysis_tools.py:239 | a successful digest comes from a file with no failing line; its total_messages is the number of accepted lines and the number of samples in its dictionary |
| Pipeline.DigestFileFractions | util/cp_analysis_tools.py:239-285 | for a file whose lengths lie below the sentinel, the counts add up to total_messages and the last cum_frac is 1 |
| Pipeline.ReadErrorsComeFirst | util/cp_analysis_tools.py:239-245 | a failing line is reported whatever the unloaded data, since the file is read before the unloaded check |
| Pipeline.NoBaselinesIsAnError | util/cp_analysis_tools.py:244-245 | a cleanly read file without unloaded data raises "No unloaded data" |

## Left out

- Writing the report file (lines 286-300), logging, and writing progress to stdout are not
  modelled. They add no value to the digest, but they can raise. `log` (lines 146-147) calls
  `log_file.write`, which fails while `log_file` is still the 0 of line 45. `open` (line 289)
  fails when `<log_dir>/reports` is missing, since line 288 only computes that path and never
  creates it. It also fails when the experiment name holds directory parts that do not exist.
- Pipeline.GetDigest: returns the digest even where the program would raise one of the
  errors above, after the sweep, while logging or writing the report. Where it returns
  `Ok(digest)`, the program's result is that digest or one of those exceptions.
- The file system is replaced by the file's lines, given as a sequence of strings; `open`
  and `close` are not modelled.
- `int()` and `float()` are parameters (`string -> Option<...>`, where `None` is a raised
  ValueError). Python's number syntax is not modelled.
- The module globals `unloaded_p50` and `log_dir` are parameters or are left out.
  `log`, `vlog`, plotting, `set_unloaded`, and everything else in the file outside
  `boolean`, `read_rtts`, `get_buckets` and `get_digest` is not part of this model.
- Floats are Dafny reals. There is no rounding and no NaN or infinity, so `float()` results
  such as `nan` and the rounding of `cumulative/total` and `rtt/cur_unloaded` are not
  captured. A zero divisor is modelled as ZeroDivisionError, just as in Python.
- Text.Lower: only the ASCII letters A-Z are lower-cased. Python's full Unicode case mapping
  is not modelled. BooleanArg.Boolean and BooleanArg.BooleanAccepts inherit this: Python
  lower-cases "O\u212A" (with KELVIN SIGN) to "ok", so boolean returns True, where the
  model raises ValueError.
- Text.IsSpace: a fixed list of the code points Python's `str.isspace` accepts. It is not
  derived from the Unicode database.
- The digest dictionary's nine parallel lists are one `Row` per bucket. The lists are
  always appended together, so the two hold the same information. The `rtts` and
  `total_messages` entries are fields of `Digest`.
- `bucket_rtts.append(0)` pads an empty bucket with the integer 0. The model pads with the
  real 0.0, which compares and prints the same way.
- Pipeline.GetDigest: follows the code, so a length of 999999999 or above loses the last
  row (see Findings). The intended behaviour is DigestEngine.DigestOf; the two agree
  whenever every length lies below the sentinel (DigestProperties.AsWrittenBelowSentinel).
- Aliasing: Python's `rtts` lists are shared between the dictionary and the digest. The
  model copies values, and the sweep never mutates those lists.

## Findings

| source | as written | input that shows it | evidently intended | confidence | as-written member | corrected member |
|---|---|---|---|---|---|---|
| util/cp_analysis_tools.py:255-258 | the "extra" iteration uses the length 999999999, and `length > bucket_length` is false when the largest real length is 999999999 or more; the extra step then joins the last bucket (or raises KeyError), and the last bucket is never emitted | rtts {999999999: [5.0]}, total 1, unloaded {999999999: 1.0}: the code produces no rows | one row per length, whatever the length | not executed; such lengths are unlikely in practice | DigestEngine.DigestAsWritten, DigestProperties.SentinelLengthExample, DigestProperties.AsWrittenAtSentinel | DigestEngine.DigestOf, DigestProperties.DigestRowsAreTheLengths, DigestProperties.DigestCountsAllSamples |
