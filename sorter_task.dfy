/**
 * `ExternalSorterTask`: sorts one chunk of lines in place and writes it,
 * line by line, to its own temporary chunk file.
 */
module SorterTask {
  import opened Strings

  class ExternalSorterTask {
    var urlChunk: seq<Line>
    /** The lines of the temporary chunk file. */
    var outputFile: seq<Line>

    /** A task over a chunk and a freshly created, empty temporary file. */
    constructor (urlChunk: seq<Line>)
      ensures this.urlChunk == urlChunk && outputFile == []
    {
      this.urlChunk := urlChunk;
      outputFile := [];
    }

    /** Sorts the chunk in natural order and writes exactly its lines, in list
        order, each as one line of the chunk file. */
    method Run()
      modifies this
      ensures Sorted(urlChunk) && multiset(urlChunk) == multiset(old(urlChunk))
      ensures urlChunk == SortedCopy(old(urlChunk))
      ensures outputFile == urlChunk
    {
      SortedCopyIsSortedPermutation(urlChunk);
      var sorted := SortedCopy(urlChunk);
      urlChunk := sorted;
      var written: seq<Line> := [];
      for i := 0 to |sorted|
        invariant written == sorted[..i]
      {
        written := written + [sorted[i]];
      }
      outputFile := written;
      assert sorted[..|sorted|] == sorted;
    }
  }
}
