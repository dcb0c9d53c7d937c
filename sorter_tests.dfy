/**
 * The runs of `ExternalSorterTest` on the model, and two small inputs that
 * show the merge writing a line twice and stopping before every line is read.
 */
module SorterTests {
  import opened Strings
  import opened Optional
  import opened Readers
  import opened SplitPhase
  import opened MergePhase
  import opened ExternalSorters

  const Low: Line := "000012345"
  const Mid: Line := "123456789"
  const High: Line := "999999999"

  /** Lines that differ in their first character compare by it. */
  lemma FirstCharDecides(a: Line, b: Line)
    requires a != [] && b != [] && a[0] < b[0]
    ensures CompareTo(a, b) < 0 && CompareTo(b, a) > 0
  {
  }

  lemma {:induction false} EstimateUniform(lines: seq<Line>, n: nat)
    requires forall j :: 0 <= j < |lines| ==> |lines[j]| == n
    ensures Estimate(lines) == 2 * n * |lines|
  {
    if lines != [] {
      EstimateUniform(lines[1..], n);
    }
  }

  /** Three lines in strictly ascending order. */
  predicate Ascending(l: Line, m: Line, h: Line) {
    && LessEq(l, m) && LessEq(m, h) && LessEq(l, h)
    && !LessEq(m, l) && !LessEq(h, m) && !LessEq(h, l)
  }

  /** The three lines of the test files, nine characters each. */
  lemma TestLines()
    ensures Ascending(Low, Mid, High)
    ensures |Low| == 9 && |Mid| == 9 && |High| == 9
  {
    FirstCharDecides(Low, Mid);
    FirstCharDecides(Mid, High);
    FirstCharDecides(Low, High);
  }

  /** A second pass over two readers, visit by visit. */
  lemma SweepOfTwo(s: MergeState, t: MergeState, u: MergeState)
    requires Ready(s.cs) && |s.cs| == 2 && Step(s, 0) == t && Ready(t.cs) && |t.cs| == 2 && Step(t, 1) == u
    ensures Sweep(s, 0) == u
  {
    assert Sweep(s, 0) == Sweep(t, 1);
    assert Sweep(t, 1) == Sweep(u, 2);
    assert Sweep(u, 2) == u;
  }

  /** A second pass over three readers, visit by visit. */
  lemma SweepOfThree(s: MergeState, t: MergeState, u: MergeState, v: MergeState)
    requires Ready(s.cs) && |s.cs| == 3 && Step(s, 0) == t && Ready(t.cs) && |t.cs| == 3 && Step(t, 1) == u
    requires Ready(u.cs) && |u.cs| == 3 && Step(u, 2) == v
    ensures Sweep(s, 0) == v
  {
    assert Sweep(s, 0) == Sweep(t, 1);
    assert Sweep(t, 1) == Sweep(u, 2);
    assert Sweep(u, 2) == Sweep(v, 3);
    assert Sweep(v, 3) == v;
  }

  /** The four-line test file: one chunk at chunk size 10000. */
  lemma BreakDownLessThanChunkSize()
    ensures |Chunks([Mid, Low, Mid, Low], 10000)| == 1
  {
    TestLines();
    EstimateUniform([Mid, Low, Mid, Low], 9);
    FitsOneChunk([Mid, Low, Mid, Low], 10000);
  }

  /** How `breakDownFile` cuts five lines of nine characters at chunk size 50. */
  lemma FiveLineChunks(l: Line, m: Line, h: Line)
    requires |l| == 9 && |m| == 9 && |h| == 9
    ensures Chunks([m, l, m, l, h], 50) == [[m, l], [m, l], [h]]
  {
    EstimateUniform([m], 9);
    EstimateUniform([m, l], 9);
    EstimateUniform([h], 9);
    assert [h][1..] == [];
    assert CutFrom([m, l], [h], 50) == Cut([[m, l]], [h]);
    assert [l, h][1..] == [h] && [m] + [l] == [m, l];
    assert CutFrom([m], [l, h], 50) == Cut([[m, l]], [h]);
    assert [m, l, h][1..] == [l, h];
    assert CutFrom([m, l], [m, l, h], 50) == Cut([[m, l], [m, l]], [h]);
    assert [l, m, l, h][1..] == [m, l, h];
    assert CutFrom([m], [l, m, l, h], 50) == Cut([[m, l], [m, l]], [h]);
    assert [m, l, m, l, h][1..] == [l, m, l, h] && [] + [m] == [m];
    assert CutFrom([], [m, l, m, l, h], 50) == Cut([[m, l], [m, l]], [h]);
  }

  /** The five-line test file at chunk size 50: chunks of 2, 2 and 1 lines. */
  lemma BreakDownGreaterThanChunkSize()
    ensures var s := Chunks([Mid, Low, Mid, Low, High], 50);
      |s| == 3 && |s[0]| == 2 && |s[1]| == 2 && |s[2]| == 1
  {
    TestLines();
    FiveLineChunks(Low, Mid, High);
  }

  /** Insertion sort of the five-line test file, one insertion at a time. */
  lemma SortFiveLines(l: Line, m: Line, h: Line)
    requires Ascending(l, m, h)
    ensures SortedCopy([m, l, m, l, h]) == [l, l, m, m, h]
  {
    assert [m, l, m, l, h][1..] == [l, m, l, h] && [l, m, l, h][1..] == [m, l, h];
    assert [m, l, h][1..] == [l, h] && [l, h][1..] == [h] && [h][1..] == [];
    assert SortedCopy([h]) == [h];
    assert SortedCopy([l, h]) == Insert(l, [h]) == [l, h];
    assert Insert(m, [h]) == [m, h];
    assert SortedCopy([m, l, h]) == Insert(m, [l, h]) == [l, m, h];
    assert SortedCopy([l, m, l, h]) == Insert(l, [l, m, h]) == [l, l, m, h];
    assert [l, l, m, h][1..] == [l, m, h] && [l, m, h][1..] == [m, h];
    assert Insert(m, [m, h]) == [m, m, h];
    assert Insert(m, [l, m, h]) == [l, m, m, h];
    assert SortedCopy([m, l, m, l, h]) == Insert(m, [l, l, m, h]) == [l, l, m, m, h];
  }

  /** The five-line test file sorted through one chunk. */
  lemma ExternalSortOneFile()
    ensures SortSpec([Mid, Low, Mid, Low, High], 1000) == Some([Low, Low, Mid, Mid, High])
  {
    TestLines();
    EstimateUniform([Mid, Low, Mid, Low, High], 9);
    SmallInputSorted([Mid, Low, Mid, Low, High], 1000);
    SortFiveLines(Low, Mid, High);
  }

  /** The sorted chunk files of the five-line test at chunk size 50. */
  lemma FiveLineSortedChunks(l: Line, m: Line, h: Line)
    requires Ascending(l, m, h) && |l| == 9 && |m| == 9 && |h| == 9
    ensures SortAll(Chunks([m, l, m, l, h], 50)) == [[l, m], [l, m], [h]]
  {
    FiveLineChunks(l, m, h);
    assert [l][1..] == [] && [h][1..] == [] && [m, l][1..] == [l];
    assert SortedCopy([l]) == [l];
    assert SortedCopy([m, l]) == Insert(m, [l]) == [l, m];
    assert SortedCopy([h]) == [h];
    var chunks := [[m, l], [m, l], [h]];
    assert chunks[1..] == [[m, l], [h]] && chunks[1..][1..] == [[h]] && chunks[1..][1..][1..] == [];
  }

  /** A visit whose reader holds a line at most `lowest`: `lowest` is written,
      the reader's line becomes `lowest` and the reader advances. */
  lemma VisitWrites(s: MergeState, i: nat, d: Cursor)
    requires Ready(s.cs) && i < |s.cs| && !s.cs[i].eof && !s.allRead
    requires CompareTo(s.cs[i].current.value, s.lowest) <= 0 && Advance(s.cs[i]) == d
    ensures Step(s, i) == MergeState(s.cs[i := d], s.cs[i].current.value, false, s.out + [s.lowest])
    ensures Ready(s.cs[i := d])
  {
  }

  /** Round 1 of merging [l, m], [l, m] and [h]: both copies of `l` are written. */
  lemma ManyRound1(l: Line, m: Line, h: Line)
    requires Ascending(l, m, h)
    ensures var s0 := MergeState(Prime([[l, m], [l, m], [h]]), "", false, []);
      Round(s0) == MergeState([Cursor([l, m], 2, false, Some(m)), Cursor([l, m], 2, false, Some(m)), Cursor([h], 1, false, Some(h))], l, false, [l, l])
  {
    var a1, b1 := Cursor([l, m], 1, false, Some(l)), Cursor([l, m], 2, false, Some(m));
    var c1 := Cursor([h], 1, false, Some(h));
    assert Prime([[l, m], [l, m], [h]]) == [a1, a1, c1];
    var s0 := MergeState([a1, a1, c1], "", false, []);
    var p := s0.(lowest := l);
    assert Pass1(s0) == p;
    ManyRound1Sweep(l, m, h);
  }

  lemma ManyRound1Sweep(l: Line, m: Line, h: Line)
    requires Ascending(l, m, h)
    ensures var a1, b1 := Cursor([l, m], 1, false, Some(l)), Cursor([l, m], 2, false, Some(m));
      var c1 := Cursor([h], 1, false, Some(h));
      Sweep(MergeState([a1, a1, c1], l, false, []), 0) == MergeState([b1, b1, c1], l, false, [l, l])
  {
    var a1, b1 := Cursor([l, m], 1, false, Some(l)), Cursor([l, m], 2, false, Some(m));
    var c1 := Cursor([h], 1, false, Some(h));
    var p := MergeState([a1, a1, c1], l, false, []);
    CompareToAntisymmetric(l, l);
    VisitWrites(p, 0, b1);
    assert p.cs[0 := b1] == [b1, a1, c1];
    var t := MergeState([b1, a1, c1], l, false, [l]);
    VisitWrites(t, 1, b1);
    assert t.cs[1 := b1] == [b1, b1, c1];
    var u := MergeState([b1, b1, c1], l, false, [l, l]);
    assert Step(u, 2) == u;
    SweepOfThree(p, t, u, u);
  }

  /** Round 2: the second line of both two-line chunks is written twice. */
  lemma ManyRound2(l: Line, m: Line, h: Line)
    requires Ascending(l, m, h)
    ensures var b1, c1 := Cursor([l, m], 2, false, Some(m)), Cursor([h], 1, false, Some(h));
      var e1 := Cursor([l, m], 2, true, None);
      Round(MergeState([b1, b1, c1], l, false, [l, l])) == MergeState([e1, e1, c1], m, false, [l, l, m, m])
  {
    var b1, c1 := Cursor([l, m], 2, false, Some(m)), Cursor([h], 1, false, Some(h));
    var e1 := Cursor([l, m], 2, true, None);
    var s1 := MergeState([b1, b1, c1], l, false, [l, l]);
    var p := s1.(lowest := m);
    assert Pass1(s1) == p;
    CompareToAntisymmetric(m, m);
    VisitWrites(p, 0, e1);
    assert p.cs[0 := e1] == [e1, b1, c1];
    var t := MergeState([e1, b1, c1], m, false, [l, l, m]);
    VisitWrites(t, 1, e1);
    assert t.cs[1 := e1] == [e1, e1, c1];
    var u := MergeState([e1, e1, c1], m, false, [l, l, m, m]);
    assert Step(u, 2) == u;
    SweepOfThree(p, t, u, u);
  }

  /** Round 3: only the one-line chunk is left; its line is written. */
  lemma ManyRound3(l: Line, m: Line, h: Line)
    requires Ascending(l, m, h)
    ensures var c1, e1, e3 := Cursor([h], 1, false, Some(h)), Cursor([l, m], 2, true, None), Cursor([h], 1, true, None);
      Round(MergeState([e1, e1, c1], m, false, [l, l, m, m])) == MergeState([e1, e1, e3], h, false, [l, l, m, m, h])
  {
    var c1, e1, e3 := Cursor([h], 1, false, Some(h)), Cursor([l, m], 2, true, None), Cursor([h], 1, true, None);
    var s2 := MergeState([e1, e1, c1], m, false, [l, l, m, m]);
    var p := s2.(lowest := h);
    assert FirstLive(s2.cs, 2) == Some(2);
    assert FirstLive(s2.cs, 1) == Some(2);
    assert FirstLive(s2.cs, 0) == Some(2);
    assert Pass1(s2) == p;
    var q := p.(allRead := true);
    assert Step(p, 0) == q;
    assert Step(q, 1) == q;
    CompareToAntisymmetric(h, h);
    VisitWrites(p, 2, e3);
    assert q.cs[2 := e3] == [e1, e1, e3];
    SweepOfThree(p, q, q, MergeState([e1, e1, e3], h, false, [l, l, m, m, h]));
  }

  /** Merging [l, m], [l, m] and [h] writes l, l, m, m, h. */
  lemma MergeThreeChunks(l: Line, m: Line, h: Line)
    requires Ascending(l, m, h)
    ensures MergeSpec([[l, m], [l, m], [h]]) == [l, l, m, m, h]
  {
    var b1, c1 := Cursor([l, m], 2, false, Some(m)), Cursor([h], 1, false, Some(h));
    var e1, e3 := Cursor([l, m], 2, true, None), Cursor([h], 1, true, None);
    var s0 := MergeState(Prime([[l, m], [l, m], [h]]), "", false, []);
    var s1 := MergeState([b1, b1, c1], l, false, [l, l]);
    var s2 := MergeState([e1, e1, c1], m, false, [l, l, m, m]);
    var s3 := MergeState([e1, e1, e3], h, false, [l, l, m, m, h]);
    ManyRound1(l, m, h);
    ManyRound2(l, m, h);
    ManyRound3(l, m, h);
    // Round 4: every reader is at EOF.
    assert FirstLive(s3.cs, 0) == None;
    SweepAllAtEof(s3, 0);
    assert Rounds(s0) == Rounds(s1) == Rounds(s2) == Rounds(s3) == Rounds(Round(s3));
  }

  /** The five-line test file sorted through three chunks and the merge. */
  lemma ExternalSortManyFiles()
    ensures SortSpec([Mid, Low, Mid, Low, High], 50) == Some([Low, Low, Mid, Mid, High])
  {
    TestLines();
    FiveLineSortedChunks(Low, Mid, High);
    MergeThreeChunks(Low, Mid, High);
  }

  /** Chunk size 3 cuts lines "5" and "3" into two chunk files. */
  lemma TwoSingleChunks()
    ensures SortAll(Chunks(["5", "3"], 3)) == [["5"], ["3"]]
  {
    var x, y := "5", "3";
    EstimateUniform([x], 1);
    EstimateUniform([y], 1);
    assert [y][1..] == [];
    assert CutFrom([x], [y], 3) == Cut([[x]], [y]);
    assert [x, y][1..] == [y] && [] + [x] == [x];
    assert Chunks([x, y], 3) == [[x], [y]];
    assert [x][1..] == [];
    assert SortedCopy([x]) == [x] && SortedCopy([y]) == [y];
    assert [[x], [y]][1..] == [[y]] && [[y]][1..] == [];
  }

  /** A round that ends the merge is the last one. */
  lemma RoundsLast(s: MergeState)
    requires Ready(s.cs) && |s.cs| > 0 && Round(s).allRead
    ensures Rounds(Round(s)) == Round(s)
  {
  }

  /** Round 1 of merging [x] and [y] with y before x: x is written for both readers. */
  lemma TwoSinglesRound1(x: Line, y: Line)
    requires CompareTo(y, x) < 0
    ensures Round(MergeState(Prime([[x], [y]]), "", false, []))
      == MergeState([Cursor([x], 1, true, None), Cursor([y], 1, true, None)], y, false, [x, x])
  {
    CompareToAntisymmetric(x, x);
    var cx := Cursor([x], 1, false, Some(x));
    var cy := Cursor([y], 1, false, Some(y));
    var ex := Cursor([x], 1, true, None);
    var ey := Cursor([y], 1, true, None);
    assert Prime([[x], [y]]) == [cx, cy];
    var s0 := MergeState([cx, cy], "", false, []);
    var p0 := s0.(lowest := x);
    assert Pass1(s0) == p0;
    VisitWrites(p0, 0, ex);
    assert p0.cs[0 := ex] == [ex, cy];
    var t := MergeState([ex, cy], x, false, [x]);
    VisitWrites(t, 1, ey);
    assert t.cs[1 := ey] == [ex, ey];
    SweepOfTwo(p0, t, MergeState([ex, ey], y, false, [x, x]));
  }

  /** The merge writes the first chunk's line twice and never writes the second's. */
  lemma MergeDuplicatesAndLoses()
    ensures SortSpec(["5", "3"], 3) == Some(["5", "5"])
  {
    var x, y := "5", "3";
    TwoSingleChunks();
    FirstCharDecides(y, x);
    TwoSinglesRound1(x, y);
    var s0 := MergeState(Prime([[x], [y]]), "", false, []);
    var s1 := MergeState([Cursor([x], 1, true, None), Cursor([y], 1, true, None)], y, false, [x, x]);
    // Round 2: both readers are at EOF, and y is never written.
    assert FirstLive(s1.cs, 0) == None;
    SweepAllAtEof(s1, 0);
    RoundsStep(s0);
    RoundsStep(s1);
    RoundsLast(s1);
  }

  /** Round 1 of merging [a, b, c] and [a]: a is written twice and the second
      reader reaches EOF. */
  lemma StopsRound1(a: Line, b: Line, c: Line)
    requires CompareTo(a, b) < 0
    ensures Round(MergeState(Prime([[a, b, c], [a]]), "", false, []))
      == MergeState([Cursor([a, b, c], 2, false, Some(b)), Cursor([a], 1, true, None)], a, false, [a, a])
  {
    CompareToAntisymmetric(a, a);
    var f1, f2 := [a, b, c], [a];
    var ca := Cursor(f1, 1, false, Some(a));
    var cb := Cursor(f1, 2, false, Some(b));
    var d := Cursor(f2, 1, false, Some(a));
    var e := Cursor(f2, 1, true, None);
    assert Prime([f1, f2]) == [ca, d];
    var s0 := MergeState([ca, d], "", false, []);
    var p0 := s0.(lowest := a);
    assert Pass1(s0) == p0;
    VisitWrites(p0, 0, cb);
    assert p0.cs[0 := cb] == [cb, d];
    var t := MergeState([cb, d], a, false, [a]);
    VisitWrites(t, 1, e);
    assert t.cs[1 := e] == [cb, e];
    SweepOfTwo(p0, t, MergeState([cb, e], a, false, [a, a]));
  }

  /** Round 2: b is written, then the last reader is found at EOF. */
  lemma StopsRound2(a: Line, b: Line, c: Line)
    requires CompareTo(a, b) < 0
    ensures Round(MergeState([Cursor([a, b, c], 2, false, Some(b)), Cursor([a], 1, true, None)], a, false, [a, a]))
      == MergeState([Cursor([a, b, c], 3, false, Some(c)), Cursor([a], 1, true, None)], b, true, [a, a, b])
  {
    CompareToAntisymmetric(b, b);
    var f1, f2 := [a, b, c], [a];
    var cb := Cursor(f1, 2, false, Some(b));
    var cc := Cursor(f1, 3, false, Some(c));
    var e := Cursor(f2, 1, true, None);
    var s1 := MergeState([cb, e], a, false, [a, a]);
    var p1 := s1.(lowest := b);
    assert Pass1(s1) == p1;
    var s2 := MergeState([cc, e], b, true, [a, a, b]);
    VisitWrites(p1, 0, cc);
    assert p1.cs[0 := cc] == [cc, e];
    assert Step(s2.(allRead := false), 1) == s2;
    SweepOfTwo(p1, s2.(allRead := false), s2);
  }

  /** The merge stops once the last reader is at EOF, leaving lines unread. */
  lemma MergeStopsEarly()
    ensures ExternalSortSpec([["1", "2", "3"], ["1"]]) == Some(["1", "1", "2"])
  {
    var one, two, three := "1", "2", "3";
    FirstCharDecides(one, two);
    StopsRound1(one, two, three);
    StopsRound2(one, two, three);
    var s0 := MergeState(Prime([[one, two, three], [one]]), "", false, []);
    var s1 := Round(s0);
    RoundsStep(s0);
    RoundsLast(s1);
  }
}
