/**
 * The split phase of `ExternalSorter` (`breakDownFile` and `createChunk`):
 * the input lines are cut into chunks by a running size estimate of two
 * bytes per character, each chunk is sorted by its own task, and the sorted
 * chunk files are listed in creation order.
 */
module SplitPhase {
  import opened Strings
  import opened SorterTask

  /** The size estimate of a chunk: two bytes per character. */
  function Estimate(chunk: seq<Line>): (e: nat)
    ensures chunk != [] ==> e >= 2 * |chunk[0]|
  {
    if chunk == [] then 0 else 2 * |chunk[0]| + Estimate(chunk[1..])
  }

  lemma {:induction false} EstimateAppend(chunk: seq<Line>, line: Line)
    ensures Estimate(chunk + [line]) == Estimate(chunk) + 2 * |line|
  {
    if chunk != [] {
      assert (chunk + [line])[1..] == chunk[1..] + [line];
      EstimateAppend(chunk[1..], line);
    }
  }

  /** Where the cuts fall: the chunks emitted while lines remain, and the buffer
      left when the input ends. `buf` is the chunk being filled, `rest` the lines
      not yet read. A line that brings the estimate to `chunkSize` or above
      closes the buffer (even an empty one) and starts the next buffer alone. */
  datatype Cut = Cut(chunks: seq<seq<Line>>, last: seq<Line>)

  function CutFrom(buf: seq<Line>, rest: seq<Line>, chunkSize: int): (r: Cut)
    ensures |r.chunks| <= |rest|
    ensures r.last != [] || (buf == [] && rest == [])
    decreases |rest|
  {
    if rest == [] then Cut([], buf)
    else if Estimate(buf) + 2 * |rest[0]| < chunkSize then CutFrom(buf + [rest[0]], rest[1..], chunkSize)
    else
      var c := CutFrom([rest[0]], rest[1..], chunkSize);
      Cut([buf] + c.chunks, c.last)
  }

  /** The chunks `breakDownFile` creates, in creation order and before sorting:
      the final buffer is kept only when its estimate is below `chunkSize`. */
  function Chunks(lines: seq<Line>, chunkSize: int): (r: seq<seq<Line>>)
    ensures |r| <= |lines| + 1
  {
    var c := CutFrom([], lines, chunkSize);
    if Estimate(c.last) < chunkSize then c.chunks + [c.last] else c.chunks
  }

  /** The lines no chunk holds: the final buffer when its estimate is too large. */
  function Dropped(lines: seq<Line>, chunkSize: int): (r: seq<Line>)
    ensures r != [] ==> lines != [] && Estimate(r) >= chunkSize
  {
    var c := CutFrom([], lines, chunkSize);
    if Estimate(c.last) < chunkSize then [] else c.last
  }

  function Flatten(chunks: seq<seq<Line>>): seq<Line>
  {
    if chunks == [] then [] else chunks[0] + Flatten(chunks[1..])
  }

  lemma {:induction false} FlattenAppend(a: seq<seq<Line>>, b: seq<seq<Line>>)
    ensures Flatten(a + b) == Flatten(a) + Flatten(b)
  {
    if a != [] {
      assert (a + b)[0] == a[0];
      assert (a + b)[1..] == a[1..] + b;
      FlattenAppend(a[1..], b);
    } else {
      assert a + b == b;
    }
  }

  lemma {:induction false} CutKeepsOrder(buf: seq<Line>, rest: seq<Line>, chunkSize: int)
    ensures Flatten(CutFrom(buf, rest, chunkSize).chunks) + CutFrom(buf, rest, chunkSize).last == buf + rest
    decreases |rest|
  {
    if rest != [] {
      assert buf + rest == (buf + [rest[0]]) + rest[1..];
      if Estimate(buf) + 2 * |rest[0]| < chunkSize {
        CutKeepsOrder(buf + [rest[0]], rest[1..], chunkSize);
      } else {
        CutKeepsOrder([rest[0]], rest[1..], chunkSize);
        var c := CutFrom([rest[0]], rest[1..], chunkSize);
        assert ([buf] + c.chunks)[0] == buf;
        assert ([buf] + c.chunks)[1..] == c.chunks;
        assert Flatten([buf] + c.chunks) == buf + Flatten(c.chunks);
        assert rest == [rest[0]] + rest[1..];
      }
    }
  }

  /** Splitting loses no line and keeps the order: the chunks, concatenated and
      followed by the dropped final buffer, are the input; a dropped buffer is one
      whose estimate is at least `chunkSize`. */
  lemma SplitKeepsOrder(lines: seq<Line>, chunkSize: int)
    ensures Flatten(Chunks(lines, chunkSize)) + Dropped(lines, chunkSize) == lines
    ensures Dropped(lines, chunkSize) != [] ==> Estimate(Dropped(lines, chunkSize)) >= chunkSize
  {
    var c := CutFrom([], lines, chunkSize);
    CutKeepsOrder([], lines, chunkSize);
    assert [] + lines == lines;
    FlattenAppend(c.chunks, [c.last]);
    assert [c.last][1..] == [];
    assert Flatten([c.last]) == c.last;
  }

  /** What every buffer satisfies while the input is read: it is empty, or its
      estimate is below `chunkSize`, or it holds a single line that alone reaches
      `chunkSize`. */
  predicate Bounded(chunk: seq<Line>, chunkSize: int) {
    chunk == [] || Estimate(chunk) < chunkSize || (|chunk| == 1 && Estimate(chunk) >= chunkSize)
  }

  lemma {:induction false} CutBounded(buf: seq<Line>, rest: seq<Line>, chunkSize: int)
    requires buf != [] && Bounded(buf, chunkSize)
    ensures var c := CutFrom(buf, rest, chunkSize);
      && (forall i :: 0 <= i < |c.chunks| ==> c.chunks[i] != [] && Bounded(c.chunks[i], chunkSize))
      && c.last != [] && Bounded(c.last, chunkSize)
      && (forall i :: 0 <= i < |c.chunks| - 1 ==> Estimate(c.chunks[i] + [c.chunks[i + 1][0]]) >= chunkSize)
      && (c.chunks != [] ==> Estimate(c.chunks[|c.chunks| - 1] + [c.last[0]]) >= chunkSize)
    decreases |rest|, 1
  {
    if rest != [] {
      var x := rest[0];
      EstimateAppend(buf, x);
      if Estimate(buf) + 2 * |x| < chunkSize {
        CutBounded(buf + [x], rest[1..], chunkSize);
      } else {
        CutBoundedClose(buf, rest, chunkSize);
      }
    }
  }

  /** The case of `CutBounded` where the next line closes the buffer. */
  lemma {:induction false} CutBoundedClose(buf: seq<Line>, rest: seq<Line>, chunkSize: int)
    requires buf != [] && Bounded(buf, chunkSize) && rest != []
    requires Estimate(buf + [rest[0]]) >= chunkSize
    ensures var c := CutFrom(buf, rest, chunkSize);
      && (forall i :: 0 <= i < |c.chunks| ==> c.chunks[i] != [] && Bounded(c.chunks[i], chunkSize))
      && c.last != [] && Bounded(c.last, chunkSize)
      && (forall i :: 0 <= i < |c.chunks| - 1 ==> Estimate(c.chunks[i] + [c.chunks[i + 1][0]]) >= chunkSize)
      && (c.chunks != [] ==> Estimate(c.chunks[|c.chunks| - 1] + [c.last[0]]) >= chunkSize)
    decreases |rest|, 0
  {
    var x := rest[0];
    EstimateAppend(buf, x);
    assert CutFrom(buf, rest, chunkSize) == Cut([buf] + CutFrom([x], rest[1..], chunkSize).chunks, CutFrom([x], rest[1..], chunkSize).last);
    assert Bounded([x], chunkSize);
    CutBounded([x], rest[1..], chunkSize);
    var c := CutFrom([x], rest[1..], chunkSize);
    var all := [buf] + c.chunks;
    CutFirstChunkStart(x, rest[1..], chunkSize);
    forall i | 0 <= i < |all| - 1 ensures Estimate(all[i] + [all[i + 1][0]]) >= chunkSize {
      if i > 0 { assert all[i] == c.chunks[i - 1] && all[i + 1] == c.chunks[i]; }
    }
  }

  /** A buffer opened with line `x` is the start of the next chunk (or of the final buffer). */
  lemma {:induction false} CutFirstChunkStart(x: Line, rest: seq<Line>, chunkSize: int)
    ensures var c := CutFrom([x], rest, chunkSize);
      (c.chunks != [] ==> c.chunks[0] != [] && c.chunks[0][0] == x) && (c.chunks == [] ==> c.last != [] && c.last[0] == x)
  {
    CutStartsWithBuffer([x], rest, chunkSize);
  }

  lemma {:induction false} CutStartsWithBuffer(buf: seq<Line>, rest: seq<Line>, chunkSize: int)
    requires buf != []
    ensures var c := CutFrom(buf, rest, chunkSize);
      (c.chunks != [] ==> |c.chunks[0]| >= |buf| && c.chunks[0][..|buf|] == buf)
      && (c.chunks == [] ==> |c.last| >= |buf| && c.last[..|buf|] == buf)
    decreases |rest|
  {
    if rest != [] && Estimate(buf) + 2 * |rest[0]| < chunkSize {
      CutStartsWithBuffer(buf + [rest[0]], rest[1..], chunkSize);
      var c := CutFrom(buf + [rest[0]], rest[1..], chunkSize);
      if c.chunks != [] {
        assert c.chunks[0][..|buf|] == c.chunks[0][..|buf| + 1][..|buf|];
      } else {
        assert c.last[..|buf|] == c.last[..|buf| + 1][..|buf|];
      }
    }
  }

  /** The cuts fall at fixed points: every chunk is bounded, only the first chunk
      can be empty, and a chunk followed by the next line of the input would reach
      `chunkSize`. */
  lemma SplitChunksBounded(lines: seq<Line>, chunkSize: int)
    ensures var s := Chunks(lines, chunkSize);
      && (forall i :: 0 <= i < |s| ==> Bounded(s[i], chunkSize))
      && (forall i :: 0 < i < |s| ==> s[i] != [])
      && (forall i :: 0 <= i < |s| - 1 ==> Estimate(s[i] + [s[i + 1][0]]) >= chunkSize)
  {
    var s := Chunks(lines, chunkSize);
    if lines != [] {
      var x := lines[0];
      EstimateAppend([], x);
      assert [] + [x] == [x];
      if 2 * |x| < chunkSize {
        CutBounded([x], lines[1..], chunkSize);
      } else {
        CutBounded([x], lines[1..], chunkSize);
        CutFirstChunkStart(x, lines[1..], chunkSize);
        var c := CutFrom([x], lines[1..], chunkSize);
        var all := [[]] + c.chunks;
        forall i | 0 <= i < |all| - 1 ensures Estimate(all[i] + [all[i + 1][0]]) >= chunkSize {
          if i > 0 { assert all[i] == c.chunks[i - 1] && all[i + 1] == c.chunks[i]; }
        }
      }
    }
  }

  /** The first chunk is empty exactly when the first line alone reaches
      `chunkSize`; empty input gives one empty chunk when `chunkSize` is positive
      and none otherwise. */
  lemma EmptyFirstChunk(lines: seq<Line>, chunkSize: int)
    ensures lines == [] ==> Chunks(lines, chunkSize) == (if 0 < chunkSize then [[]] else [])
    ensures lines != [] ==>
      |Chunks(lines, chunkSize)| >= 1 && (Chunks(lines, chunkSize)[0] == [] <==> 2 * |lines[0]| >= chunkSize)
  {
    if lines != [] {
      var x := lines[0];
      EstimateAppend([], x);
      assert [] + [x] == [x];
      CutFirstChunkStart(x, lines[1..], chunkSize);
      if 2 * |x| < chunkSize {
        CutStartsWithBuffer([x], lines[1..], chunkSize);
        CutBounded([x], lines[1..], chunkSize);
      }
    }
  }

  /** `createChunk`: hand the chunk to a sorter task and list its file. The task is
      run here, since the split phase waits for every task before it returns. */
  method CreateChunk(returnFiles: seq<seq<Line>>, urlChunk: seq<Line>) returns (files: seq<seq<Line>>)
    ensures files == returnFiles + [SortedCopy(urlChunk)]
  {
    var task := new ExternalSorterTask(urlChunk);
    task.Run();
    files := returnFiles + [task.outputFile];
  }

  function SortAll(chunks: seq<seq<Line>>): (r: seq<seq<Line>>)
    ensures |r| == |chunks| && forall i :: 0 <= i < |chunks| ==> r[i] == SortedCopy(chunks[i])
  {
    if chunks == [] then [] else [SortedCopy(chunks[0])] + SortAll(chunks[1..])
  }

  /** Lines short enough that `length() * 2` fits a Java int. */
  predicate IntSized(lines: seq<Line>) {
    forall i :: 0 <= i < |lines| ==> |lines[i]| < 0x4000_0000
  }

  /** One line of the cut: it joins the buffer when the estimate stays below
      `chunkSize`, and otherwise closes the buffer and starts the next one. */
  lemma CutStep(emitted: seq<seq<Line>>, buf: seq<Line>, rest: seq<Line>, chunkSize: int)
    requires rest != []
    ensures Estimate(buf + [rest[0]]) == Estimate(buf) + 2 * |rest[0]|
    ensures Estimate([rest[0]]) == 2 * |rest[0]|
    ensures Estimate(buf) + 2 * |rest[0]| < chunkSize ==>
      CutFrom(buf, rest, chunkSize) == CutFrom(buf + [rest[0]], rest[1..], chunkSize)
    ensures Estimate(buf) + 2 * |rest[0]| >= chunkSize ==>
      emitted + CutFrom(buf, rest, chunkSize).chunks == emitted + [buf] + CutFrom([rest[0]], rest[1..], chunkSize).chunks
      && CutFrom(buf, rest, chunkSize).last == CutFrom([rest[0]], rest[1..], chunkSize).last
  {
    EstimateAppend(buf, rest[0]);
    EstimateAppend([], rest[0]);
    assert [] + [rest[0]] == [rest[0]];
  }

  lemma SortAllAppend(chunks: seq<seq<Line>>, chunk: seq<Line>)
    ensures SortAll(chunks + [chunk]) == SortAll(chunks) + [SortedCopy(chunk)]
  {
  }

  /** `breakDownFile`: the sorted chunk files, in creation order. */
  method BreakDownFile(input: seq<Line>, chunkSize: int) returns (returnFiles: seq<seq<Line>>)
    requires IntSized(input)
    ensures returnFiles == SortAll(Chunks(input, chunkSize))
  {
    returnFiles := [];
    var byteCount := 0;
    var urlChunk: seq<Line> := [];
    ghost var emitted: seq<seq<Line>> := [];
    ghost var whole := CutFrom([], input, chunkSize);
    var i := 0;
    while i < |input|
      invariant 0 <= i <= |input|
      invariant byteCount == Estimate(urlChunk)
      invariant returnFiles == SortAll(emitted)
      invariant emitted + CutFrom(urlChunk, input[i..], chunkSize).chunks == whole.chunks
      invariant CutFrom(urlChunk, input[i..], chunkSize).last == whole.last
    {
      var urlLine := input[i];
      CutStep(emitted, urlChunk, input[i..], chunkSize);
      assert input[i..][1..] == input[i + 1..];
      byteCount := byteCount + |urlLine| * 2;
      if byteCount < chunkSize {
        urlChunk := urlChunk + [urlLine];
      } else {
        returnFiles := CreateChunk(returnFiles, urlChunk);
        SortAllAppend(emitted, urlChunk);
        emitted := emitted + [urlChunk];
        urlChunk := [urlLine];
        byteCount := |urlLine| * 2;
      }
      i := i + 1;
    }
    assert input[i..] == [];
    assert emitted + [] == emitted;
    assert whole.chunks == emitted && whole.last == urlChunk;
    if byteCount < chunkSize {
      returnFiles := CreateChunk(returnFiles, urlChunk);
      SortAllAppend(emitted, urlChunk);
    }
  }
}
