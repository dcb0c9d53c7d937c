/**
 * `ExternalSorter`: a sorter configured with a chunk size; `sort` splits the
 * input into sorted chunk files and merges them into the sorted file.
 */
module ExternalSorters {
  import opened Strings
  import opened Optional
  import opened SplitPhase
  import opened MergePhase
  import opened Readers

  datatype ExternalSorter = ExternalSorter(chunkSize: int)
  {
    /** `sort`: the sorted file's lines, or `None` when the merge never ends. */
    method Sort(input: seq<Line>) returns (sorted: Option<seq<Line>>)
      requires IntSized(input)
      ensures sorted == SortSpec(input, chunkSize)
    {
      var sortedChunkFiles := BreakDownFile(input, chunkSize);
      sorted := ExternalSort(sortedChunkFiles);
    }
  }

  /** The constructor: a chunk size of 0 is refused, any other value is kept. */
  function NewExternalSorter(chunkSize: int): (r: Option<ExternalSorter>)
    ensures r.None? <==> chunkSize == 0
    ensures r.Some? ==> r.value.chunkSize == chunkSize
  {
    if chunkSize == 0 then None else Some(ExternalSorter(chunkSize))
  }

  function SortSpec(input: seq<Line>, chunkSize: int): (r: Option<seq<Line>>)
    ensures r.None? <==> Chunks(input, chunkSize) == []
  {
    ExternalSortSpec(SortAll(Chunks(input, chunkSize)))
  }

  /** The sort never finishes exactly when it makes no chunk file at all, which
      happens only for an empty input and a negative chunk size. */
  lemma SortHangs(input: seq<Line>, chunkSize: int)
    requires chunkSize != 0
    ensures SortSpec(input, chunkSize).None? <==> input == [] && chunkSize < 0
  {
    EmptyFirstChunk(input, chunkSize);
  }

  /** With a single chunk the sorted file is that chunk sorted: ascending and a
      permutation of the input it holds. */
  lemma SingleChunkSorted(input: seq<Line>, chunkSize: int)
    requires |Chunks(input, chunkSize)| == 1
    ensures SortSpec(input, chunkSize).Some?
    ensures var out := SortSpec(input, chunkSize).value;
      Sorted(out) && multiset(out) == multiset(Chunks(input, chunkSize)[0])
  {
    SortedCopyIsSortedPermutation(Chunks(input, chunkSize)[0]);
  }

  /** When the input fits one chunk, the sorted file is the input sorted. */
  lemma SmallInputSorted(input: seq<Line>, chunkSize: int)
    requires Estimate(input) < chunkSize
    ensures SortSpec(input, chunkSize) == Some(SortedCopy(input))
  {
    FitsOneChunk(input, chunkSize);
  }

  lemma FitsOneChunk(input: seq<Line>, chunkSize: int)
    requires Estimate(input) < chunkSize
    ensures Chunks(input, chunkSize) == [input]
  {
    assert [] + input == input;
    FitsInBuffer([], input, chunkSize);
    assert [] + [input] == [input];
  }

  lemma {:induction false} FitsInBuffer(buf: seq<Line>, rest: seq<Line>, chunkSize: int)
    requires Estimate(buf + rest) < chunkSize
    ensures CutFrom(buf, rest, chunkSize) == Cut([], buf + rest)
    decreases |rest|
  {
    if rest != [] {
      EstimateSplit(buf + [rest[0]], rest[1..]);
      EstimateAppend(buf, rest[0]);
      assert buf + rest == buf + [rest[0]] + rest[1..];
      FitsInBuffer(buf + [rest[0]], rest[1..], chunkSize);
    } else {
      assert buf + rest == buf;
    }
  }

  lemma {:induction false} EstimateSplit(a: seq<Line>, b: seq<Line>)
    ensures Estimate(a + b) == Estimate(a) + Estimate(b)
  {
    if a != [] {
      assert (a + b)[1..] == a[1..] + b;
      EstimateSplit(a[1..], b);
    } else {
      assert a + b == b;
    }
  }
}
