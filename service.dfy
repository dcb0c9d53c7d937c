/**
 * `TopRgbService.start`: sort the input file of URLs, open a new CSV file,
 * then walk the sorted lines and submit one task per URL, skipping a line
 * equal to the last one submitted. Submitting a task is appending its URL to
 * the dispatch list; the tasks themselves are `TopRgbTask`.
 */
module TopRgbServices {
  import opened Strings
  import opened Optional
  import opened SplitPhase
  import opened ExternalSorters

  /** What `start` reads from the configuration: the size of the thread pool,
      the input file's lines, the chunk size for the sorter and the output
      file name. */
  datatype Configuration = Configuration(threads: int, inputFile: seq<Line>, chunkSize: int, outputFilename: string)

  /** How a call of `start` ends. */
  datatype Outcome =
    | ThreadsRejected          // the fixed thread pool refuses a size below one
    | ChunkSizeRejected        // the sorter's constructor throws
    | SortNeverEnds            // the merge of zero chunk files loops forever
    | NoWriter                 // `createBufferedWriter` returned null
    | Dispatched(outputFile: string, submitted: seq<Line>, urlsProcessed: nat, urlsSkipped: nat)

  /** The name `createBufferedWriter` opens: the configured name, or, when a
      file of that name exists, the name, `_` and the time in milliseconds. */
  function OutputFilename(name: string, existing: set<string>, timestamp: nat): (r: string)
    ensures name <= r && (r == name <==> name !in existing)
  {
    if name in existing then name + "_" + DecimalString(timestamp) else name
  }

  /** `createBufferedWriter`: `CREATE_NEW` fails on a file that exists, and the
      failure is reported as no writer. The file opened is always a new one
      whose name starts with the configured name. */
  function CreateBufferedWriter(name: string, existing: set<string>, timestamp: nat): (r: Option<string>)
    ensures r.Some? ==> r.value !in existing
    ensures r.Some? ==> |name| <= |r.value| && r.value[..|name|] == name
    ensures name !in existing ==> r == Some(name)
  {
    var f := OutputFilename(name, existing, timestamp);
    if f in existing then None else Some(f)
  }

  /** An existing output file is kept: the new one carries the timestamp, and
      opening fails only when that name is taken as well. */
  lemma PreviousOutputKept(name: string, existing: set<string>, timestamp: nat)
    requires name in existing
    ensures var stamped := name + "_" + DecimalString(timestamp);
      && (CreateBufferedWriter(name, existing, timestamp).None? <==> stamped in existing)
      && (CreateBufferedWriter(name, existing, timestamp).Some? ==>
            CreateBufferedWriter(name, existing, timestamp).value == stamped != name)
  {
    var stamped := name + "_" + DecimalString(timestamp);
    assert |stamped| > |name|;
  }

  /** The URLs submitted for `lines` when the last one submitted is `previous`. */
  function Dedup(previous: Line, lines: seq<Line>): (r: seq<Line>)
    ensures |r| <= |lines|
    decreases |lines|
  {
    if lines == [] then []
    else if lines[0] == previous then Dedup(previous, lines[1..])
    else [lines[0]] + Dedup(lines[0], lines[1..])
  }

  /** The loop of `start` over the sorted file: a line equal to `previousLine`
      is skipped, any other line is submitted and becomes `previousLine`. Every
      line read is counted once, as processed or as skipped. */
  method Dispatch(sortedFile: seq<Line>) returns (submitted: seq<Line>, urlsProcessed: nat, urlsSkipped: nat)
    ensures submitted == Dedup("", sortedFile)
    ensures urlsProcessed == |submitted| && urlsProcessed + urlsSkipped == |sortedFile|
  {
    submitted, urlsProcessed, urlsSkipped := [], 0, 0;
    var previousLine := "";
    var i := 0;
    while i < |sortedFile|
      invariant 0 <= i <= |sortedFile|
      invariant submitted + Dedup(previousLine, sortedFile[i..]) == Dedup("", sortedFile)
      invariant urlsProcessed == |submitted| && urlsProcessed + urlsSkipped == i
    {
      var urlLine := sortedFile[i];
      assert sortedFile[i..][1..] == sortedFile[i + 1..];
      i := i + 1;
      if CompareTo(urlLine, previousLine) == 0 {
        urlsSkipped := urlsSkipped + 1;
        continue;
      } else {
        previousLine := urlLine;
      }
      submitted := submitted + [urlLine];
      urlsProcessed := urlsProcessed + 1;
    }
    assert sortedFile[i..] == [];
    assert submitted + [] == submitted;
  }

  /** `start`: create the thread pool, sort, open the output file, dispatch.
      A rejected pool size or chunk size stops before anything is read;
      without a writer no URL is read. */
  method Start(config: Configuration, existing: set<string>, timestamp: nat) returns (outcome: Outcome)
    requires IntSized(config.inputFile)
    ensures outcome.ThreadsRejected? <==> config.threads <= 0
    ensures outcome.ChunkSizeRejected? <==> config.threads > 0 && config.chunkSize == 0
    ensures outcome.SortNeverEnds? <==>
      config.threads > 0 && config.chunkSize != 0 && SortSpec(config.inputFile, config.chunkSize).None?
    ensures outcome.NoWriter? <==>
      && config.threads > 0
      && config.chunkSize != 0
      && SortSpec(config.inputFile, config.chunkSize).Some?
      && CreateBufferedWriter(config.outputFilename, existing, timestamp).None?
    ensures outcome.Dispatched? ==>
      && config.threads > 0
      && SortSpec(config.inputFile, config.chunkSize).Some?
      && CreateBufferedWriter(config.outputFilename, existing, timestamp) == Some(outcome.outputFile)
      && outcome.submitted == Dedup("", SortSpec(config.inputFile, config.chunkSize).value)
      && outcome.urlsProcessed == |outcome.submitted|
      && outcome.urlsProcessed + outcome.urlsSkipped == |SortSpec(config.inputFile, config.chunkSize).value|
  {
    if config.threads <= 0 {
      return ThreadsRejected;
    }
    var sorter := NewExternalSorter(config.chunkSize);
    if sorter.None? {
      return ChunkSizeRejected;
    }
    var sortedFile := sorter.value.Sort(config.inputFile);
    if sortedFile.None? {
      return SortNeverEnds;
    }
    var writer := CreateBufferedWriter(config.outputFilename, existing, timestamp);
    if writer.None? {
      return NoWriter;
    }
    var submitted, urlsProcessed, urlsSkipped := Dispatch(sortedFile.value);
    outcome := Dispatched(writer.value, submitted, urlsProcessed, urlsSkipped);
  }

  /** No URL is submitted twice in a row, and the first one differs from
      `previous`. */
  lemma {:induction false} DedupNoRepeats(previous: Line, lines: seq<Line>)
    ensures var r := Dedup(previous, lines);
      && (r != [] ==> r[0] != previous)
      && forall i :: 0 <= i < |r| - 1 ==> r[i] != r[i + 1]
    decreases |lines|
  {
    if lines != [] {
      if lines[0] == previous {
        DedupNoRepeats(previous, lines[1..]);
      } else {
        var t := Dedup(lines[0], lines[1..]);
        DedupNoRepeats(lines[0], lines[1..]);
        var r := [lines[0]] + t;
        forall i | 0 <= i < |r| - 1 ensures r[i] != r[i + 1] {
          if i > 0 {
            assert r[i] == t[i - 1] && r[i + 1] == t[i];
          }
        }
      }
    }
  }

  /** Only lines of the file are submitted, and every line other than
      `previous` is submitted at least once. */
  lemma {:induction false} DedupCovers(previous: Line, lines: seq<Line>)
    ensures forall x :: x in Dedup(previous, lines) ==> x in lines
    ensures forall x :: x in lines && x != previous ==> x in Dedup(previous, lines)
    decreases |lines|
  {
    if lines != [] {
      var rest := lines[1..];
      assert lines == [lines[0]] + rest;
      if lines[0] == previous {
        DedupCovers(previous, rest);
      } else {
        DedupCovers(lines[0], rest);
      }
    }
  }

  /** In a sorted file every line after the first is at least the first. */
  lemma HeadBelowRest(lines: seq<Line>, x: Line)
    requires Sorted(lines) && lines != [] && x in lines[1..]
    ensures LessEq(lines[0], x)
  {
    var m :| 0 <= m < |lines[1..]| && lines[1..][m] == x;
    assert lines[m + 1] == x;
  }

  /** On a sorted file that starts at or above `previous`, the submitted URLs
      are strictly ascending, so each is submitted once, and `previous` is
      never submitted. */
  lemma {:induction false} DedupOfSorted(previous: Line, lines: seq<Line>)
    requires Sorted(lines)
    requires lines != [] ==> LessEq(previous, lines[0])
    ensures var r := Dedup(previous, lines);
      && (forall i, j :: 0 <= i < j < |r| ==> LessEq(r[i], r[j]) && r[i] != r[j])
      && previous !in r
    decreases |lines|
  {
    if lines != [] {
      var rest := lines[1..];
      assert Sorted(rest) by {
        forall i, j | 0 <= i < j < |rest| ensures LessEq(rest[i], rest[j]) {
          assert rest[i] == lines[i + 1] && rest[j] == lines[j + 1];
        }
      }
      if lines[0] == previous {
        assert rest != [] ==> rest[0] == lines[1];
        DedupOfSorted(previous, rest);
      } else {
        var head := lines[0];
        assert rest != [] ==> rest[0] == lines[1];
        DedupOfSorted(head, rest);
        DedupCovers(head, rest);
        var t := Dedup(head, rest);
        var r := [head] + t;
        forall k | 0 <= k < |t| ensures LessEq(head, t[k]) && head != t[k] {
          HeadBelowRest(lines, t[k]);
        }
        forall i, j | 0 <= i < j < |r| ensures LessEq(r[i], r[j]) && r[i] != r[j] {
          if i > 0 {
            assert r[i] == t[i - 1] && r[j] == t[j - 1];
          } else {
            assert r[j] == t[j - 1];
          }
        }
        if previous in t {
          HeadBelowRest(lines, previous);
          LessEqTotal(previous, head);
        }
      }
    }
  }

  /** `""` is at or below every line. */
  lemma EmptyLeast(x: Line)
    ensures LessEq("", x)
  {
  }

  /** On a sorted file the loop submits each distinct non-empty line exactly
      once, in ascending order; empty lines are never submitted. */
  lemma SortedDispatch(sortedFile: seq<Line>)
    requires Sorted(sortedFile)
    ensures var r := Dedup("", sortedFile);
      && (forall i, j :: 0 <= i < j < |r| ==> LessEq(r[i], r[j]) && r[i] != r[j])
      && (forall x :: x in r <==> x in sortedFile && x != "")
  {
    if sortedFile != [] {
      EmptyLeast(sortedFile[0]);
    }
    DedupOfSorted("", sortedFile);
    DedupCovers("", sortedFile);
  }

  /** End to end for an input that fits one chunk: the sorted file is the input
      sorted, and `start` submits each distinct non-empty URL of the input
      exactly once, in ascending order. */
  lemma SmallInputDispatch(input: seq<Line>, chunkSize: int)
    requires Estimate(input) < chunkSize
    ensures SortSpec(input, chunkSize) == Some(SortedCopy(input))
    ensures var r := Dedup("", SortedCopy(input));
      && (forall i, j :: 0 <= i < j < |r| ==> LessEq(r[i], r[j]) && r[i] != r[j])
      && (forall x :: x in r <==> x in input && x != "")
  {
    SmallInputSorted(input, chunkSize);
    SortedCopyIsSortedPermutation(input);
    var s := SortedCopy(input);
    SortedDispatch(s);
    forall x ensures x in s <==> x in input {
      assert x in s <==> x in multiset(s);
      assert x in input <==> x in multiset(input);
    }
  }
}
