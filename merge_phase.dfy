/**
 * The merge phase of `ExternalSorter` (`externalSort`). With one chunk file
 * the output is a copy of it. With several, one reader per chunk file is
 * opened and primed, and rounds repeat until `allRead`: a first pass takes
 * as `lowest` the current line of the first reader not at EOF; a second
 * pass visits every reader, and a reader whose current line is at most
 * `lowest` makes the merge write `lowest`, take that line as the new
 * `lowest` and advance the reader; a reader at EOF sets `allRead`, one not
 * at EOF clears it. This is not a k-way merge: lines can be written twice or
 * never, and the loop ends as soon as the last reader is at EOF when visited.
 */
module MergePhase {
  import opened Strings
  import opened Optional
  import opened Readers

  /** Every reader is valid and has been read at least once. */
  predicate Ready(cs: seq<Cursor>) {
    forall j :: 0 <= j < |cs| ==> cs[j].Valid() && cs[j].Primed()
  }

  /** The chunk files under the readers. */
  function LinesOf(cs: seq<Cursor>): (r: seq<seq<Line>>)
    ensures |r| == |cs| && forall j :: 0 <= j < |cs| ==> r[j] == cs[j].lines
  {
    seq(|cs|, j requires 0 <= j < |cs| => cs[j].lines)
  }

  /** Every line of every chunk file. */
  function Pool(files: seq<seq<Line>>): set<Line> {
    set j, n | 0 <= j < |files| && 0 <= n < |files[j]| :: files[j][n]
  }

  function TotalLines(files: seq<seq<Line>>): nat {
    if files == [] then 0 else |files[0]| + TotalLines(files[1..])
  }

  /** The `read()` calls still able to change some reader. */
  function TotalPending(cs: seq<Cursor>): nat
    requires forall j :: 0 <= j < |cs| ==> cs[j].Valid()
  {
    if cs == [] then 0 else cs[0].Pending() + TotalPending(cs[1..])
  }

  lemma {:induction false} TotalPendingUpdate(cs: seq<Cursor>, k: nat, d: Cursor)
    requires forall j :: 0 <= j < |cs| ==> cs[j].Valid()
    requires k < |cs| && d.Valid()
    ensures TotalPending(cs[k := d]) == TotalPending(cs) - cs[k].Pending() + d.Pending()
  {
    if k > 0 {
      assert cs[k := d][1..] == cs[1..][k - 1 := d];
      TotalPendingUpdate(cs[1..], k - 1, d);
    } else {
      assert cs[k := d][1..] == cs[1..];
    }
  }

  /** The merge's variables between statements. */
  datatype MergeState = MergeState(cs: seq<Cursor>, lowest: Line, allRead: bool, out: seq<Line>)

  /** The index of the first reader at or after `k` that is not at EOF. */
  function FirstLive(cs: seq<Cursor>, k: nat): (r: Option<nat>)
    requires k <= |cs|
    ensures r.Some? ==>
      k <= r.value < |cs| && !cs[r.value].eof && forall j :: k <= j < r.value ==> cs[j].eof
    ensures r.None? ==> forall j :: k <= j < |cs| ==> cs[j].eof
    decreases |cs| - k
  {
    if k == |cs| then None
    else if !cs[k].eof then Some(k)
    else FirstLive(cs, k + 1)
  }

  /** The first pass of a round: `lowest` becomes the current line of the first
      reader not at EOF, and stays as it was when every reader is at EOF. */
  function Pass1(s: MergeState): (r: MergeState)
    requires Ready(s.cs)
    ensures r.cs == s.cs && r.out == s.out && r.allRead == s.allRead
    ensures FirstLive(s.cs, 0).None? ==> r.lowest == s.lowest
    ensures FirstLive(s.cs, 0).Some? ==> r.lowest == s.cs[FirstLive(s.cs, 0).value].current.value
  {
    s.(lowest := FirstLowest(s.cs, s.lowest))
  }

  function FirstLowest(cs: seq<Cursor>, lowest: Line): Line
    requires Ready(cs)
  {
    match FirstLive(cs, 0)
    case None => lowest
    case Some(i) => cs[i].current.value
  }

  /** The second pass's visit of reader `i`. */
  function Step(s: MergeState, i: nat): (r: MergeState)
    requires Ready(s.cs) && i < |s.cs|
    ensures |r.cs| == |s.cs| && s.out <= r.out && |r.out| <= |s.out| + 1
    ensures r.allRead <==> s.cs[i].eof
  {
    var c := s.cs[i];
    if c.eof then s.(allRead := true)
    else
      var cur := c.current.value;
      if CompareTo(cur, s.lowest) <= 0 then
        s.(allRead := false, out := s.out + [s.lowest], lowest := cur, cs := s.cs[i := Advance(c)])
      else s.(allRead := false)
  }

  /** A visit writes a line exactly when it makes a `read()` that changes the reader. */
  lemma StepPaired(s: MergeState, i: nat)
    requires Ready(s.cs) && i < |s.cs|
    ensures var t := Step(s, i);
      Ready(t.cs) && LinesOf(t.cs) == LinesOf(s.cs) && s.out <= t.out
      && |t.out| + TotalPending(t.cs) == |s.out| + TotalPending(s.cs)
  {
    if !s.cs[i].eof && CompareTo(s.cs[i].current.value, s.lowest) <= 0 {
      TotalPendingUpdate(s.cs, i, Advance(s.cs[i]));
    }
  }

  /** The second pass from reader `i` on. Readers keep their files, every line
      written is paired with one `read()` that changes a reader, and the output
      only grows. */
  function Sweep(s: MergeState, i: nat): (r: MergeState)
    requires Ready(s.cs) && i <= |s.cs|
    ensures Ready(r.cs) && LinesOf(r.cs) == LinesOf(s.cs)
    ensures |r.out| + TotalPending(r.cs) == |s.out| + TotalPending(s.cs)
    ensures s.out <= r.out
    decreases |s.cs| - i
  {
    if i == |s.cs| then s
    else
      StepPaired(s, i);
      Sweep(Step(s, i), i + 1)
  }

  /** A pass from reader `i` is the visit of `i` followed by the pass from `i + 1`. */
  lemma SweepUnfold(t: MergeState, i: nat)
    requires Ready(t.cs) && i < |t.cs|
    ensures Sweep(t, i) == Sweep(Step(t, i), i + 1)
  {
  }

  /** One iteration of `while (!allRead)`. */
  function Round(s: MergeState): (r: MergeState)
    requires Ready(s.cs)
    ensures Ready(r.cs) && LinesOf(r.cs) == LinesOf(s.cs)
    ensures |r.out| + TotalPending(r.cs) == |s.out| + TotalPending(s.cs)
  {
    Sweep(Pass1(s), 0)
  }

  /** A pass over readers that are all at EOF changes nothing but `allRead`,
      which it sets when it visits at least one reader. */
  lemma {:induction false} SweepAllAtEof(s: MergeState, i: nat)
    requires Ready(s.cs) && i <= |s.cs|
    requires forall j :: i <= j < |s.cs| ==> s.cs[j].eof
    ensures Sweep(s, i) == (if i < |s.cs| then s.(allRead := true) else s)
    decreases |s.cs| - i
  {
    if i < |s.cs| {
      SweepAllAtEof(Step(s, i), i + 1);
    }
  }

  /** When the first reader not at EOF holds `lowest`, the pass advances it. */
  lemma {:induction false} SweepAdvancesFirstLive(s: MergeState, i: nat, j: nat)
    requires Ready(s.cs) && i <= j < |s.cs|
    requires !s.cs[j].eof && s.cs[j].current.value == s.lowest
    requires forall k :: i <= k < j ==> s.cs[k].eof
    ensures TotalPending(Sweep(s, i).cs) < TotalPending(s.cs)
    decreases j - i
  {
    if i < j {
      SweepAdvancesFirstLive(Step(s, i), i + 1, j);
    } else {
      CompareToAntisymmetric(s.lowest, s.lowest);
      TotalPendingUpdate(s.cs, i, Advance(s.cs[i]));
      var t := Step(s, i);
      assert t.out == s.out + [s.lowest];
      assert |Sweep(t, i + 1).out| >= |t.out|;
    }
  }

  /** Every round with at least one reader makes progress: either it ends the
      merge, or some reader advances. */
  lemma RoundProgress(s: MergeState)
    requires Ready(s.cs) && |s.cs| > 0
    ensures Round(s).allRead || TotalPending(Round(s).cs) < TotalPending(s.cs)
  {
    var p := Pass1(s);
    match FirstLive(s.cs, 0)
    case None =>
      SweepAllAtEof(p, 0);
    case Some(j) =>
      SweepAdvancesFirstLive(p, 0, j);
  }

  /** With no reader `allRead` never becomes true: a round changes nothing. */
  lemma NoReadersNeverFinish(s: MergeState)
    requires s.cs == [] && !s.allRead
    ensures Round(s) == s && !Round(s).allRead
  {
  }

  /** The rounds from state `s` until `allRead`. */
  function Rounds(s: MergeState): (r: MergeState)
    requires Ready(s.cs) && |s.cs| > 0
    ensures r.allRead && Ready(r.cs) && LinesOf(r.cs) == LinesOf(s.cs)
    ensures |r.out| + TotalPending(r.cs) == |s.out| + TotalPending(s.cs)
    decreases TotalPending(s.cs), if s.allRead then 0 else 1
  {
    if s.allRead then s
    else
      RoundProgress(s);
      Rounds(Round(s))
  }

  /** A round that does not end the merge is followed by the remaining rounds. */
  lemma RoundsStep(s: MergeState)
    requires Ready(s.cs) && |s.cs| > 0 && !s.allRead
    ensures Rounds(s) == Rounds(Round(s))
  {
  }

  /** The readers after the first `read()` of every chunk file. */
  function Prime(files: seq<seq<Line>>): (cs: seq<Cursor>)
    ensures |cs| == |files| && Ready(cs) && LinesOf(cs) == files
  {
    seq(|files|, j requires 0 <= j < |files| => Advance(Open(files[j])))
  }

  lemma {:induction false} PrimedPending(files: seq<seq<Line>>)
    ensures TotalPending(Prime(files)) == TotalLines(files)
  {
    if files != [] {
      PrimedPending(files[1..]);
      assert Prime(files)[1..] == Prime(files[1..]);
    }
  }

  /** The lines the merge loop writes for two or more chunk files: at most one
      per chunk line. */
  function MergeSpec(files: seq<seq<Line>>): (r: seq<Line>)
    requires |files| > 0
    ensures |r| <= TotalLines(files)
  {
    PrimedPending(files);
    Rounds(MergeState(Prime(files), "", false, [])).out
  }

  /** `externalSort` as a whole: one chunk file is copied; no chunk file at all
      leaves the merge loop running forever, which is `None`. */
  function ExternalSortSpec(files: seq<seq<Line>>): (r: Option<seq<Line>>)
    ensures r.None? <==> files == []
    ensures |files| == 1 ==> r == Some(files[0])
  {
    if |files| == 1 then Some(files[0])
    else if files == [] then None
    else Some(MergeSpec(files))
  }

  /** What a state may have written so far: only chunk lines, and `lowest` is a
      chunk line unless nothing has been written yet. */
  predicate FromPool(s: MergeState, pool: set<Line>) {
    (forall x :: x in s.out ==> x in pool) && (s.lowest in pool || s.out == [])
  }

  lemma CurrentInPool(cs: seq<Cursor>, j: nat)
    requires Ready(cs) && j < |cs| && cs[j].current.Some?
    ensures cs[j].current.value in Pool(LinesOf(cs))
  {
    var c := cs[j];
    assert LinesOf(cs)[j][c.pos - 1] == c.current.value;
  }

  lemma {:induction false} SweepFromPool(s: MergeState, i: nat, pool: set<Line>)
    requires Ready(s.cs) && i <= |s.cs| && Pool(LinesOf(s.cs)) == pool
    requires forall x :: x in s.out ==> x in pool
    requires s.lowest in pool || forall j :: i <= j < |s.cs| ==> s.cs[j].eof
    ensures var r := Sweep(s, i);
      (forall x :: x in r.out ==> x in pool) && (r.lowest in pool || (r.lowest == s.lowest && r.out == s.out))
    decreases |s.cs| - i
  {
    if i < |s.cs| {
      var t := Step(s, i);
      StepFromPool(s, i, pool);
      SweepFromPool(t, i + 1, pool);
      assert Sweep(s, i) == Sweep(t, i + 1);
    }
  }

  /** One visit of the second pass writes only lines of the pool. */
  lemma StepFromPool(s: MergeState, i: nat, pool: set<Line>)
    requires Ready(s.cs) && i < |s.cs| && Pool(LinesOf(s.cs)) == pool
    requires forall x :: x in s.out ==> x in pool
    requires s.lowest in pool || forall j :: i <= j < |s.cs| ==> s.cs[j].eof
    ensures var t := Step(s, i);
      && Ready(t.cs) && |t.cs| == |s.cs| && Pool(LinesOf(t.cs)) == pool
      && (forall x :: x in t.out ==> x in pool)
      && (t.lowest in pool || (t.lowest == s.lowest && t.out == s.out && t.cs == s.cs))
  {
    StepPaired(s, i);
    if !s.cs[i].eof {
      CurrentInPool(s.cs, i);
    }
  }

  lemma {:induction false} RoundsFromPool(s: MergeState, pool: set<Line>)
    requires Ready(s.cs) && |s.cs| > 0 && Pool(LinesOf(s.cs)) == pool && FromPool(s, pool)
    ensures FromPool(Rounds(s), pool)
    decreases TotalPending(s.cs), if s.allRead then 0 else 1
  {
    if !s.allRead {
      var p := Pass1(s);
      var first := FirstLive(s.cs, 0);
      if first.Some? {
        CurrentInPool(s.cs, first.value);
      }
      SweepFromPool(p, 0, pool);
      RoundProgress(s);
      RoundsFromPool(Round(s), pool);
    }
  }

  /** Every line the merge writes is a line of some chunk file. */
  lemma MergeOutputFromChunks(files: seq<seq<Line>>)
    requires |files| > 0
    ensures forall x :: x in MergeSpec(files) ==> x in Pool(files)
  {
    RoundsFromPool(MergeState(Prime(files), "", false, []), Pool(files));
  }

  /** The views of a list of distinct readers. */
  function Views(rs: seq<FileReader>): (v: seq<Cursor>)
    reads set r | r in rs
    ensures |v| == |rs| && forall j :: 0 <= j < |rs| ==> v[j] == rs[j].View()
  {
    seq(|rs|, j requires 0 <= j < |rs| reads set r | r in rs => rs[j].View())
  }

  predicate Distinct(rs: seq<FileReader>) {
    forall i, j :: 0 <= i < j < |rs| ==> rs[i] != rs[j]
  }

  /** `read()` on reader `k` of a list of distinct readers: the others are untouched. */
  method ReadOne(readers: seq<FileReader>, k: nat)
    requires Distinct(readers) && k < |readers| && readers[k].Valid()
    modifies readers[k]
    ensures Views(readers) == old(Views(readers))[k := Advance(old(readers[k].View()))]
  {
    var line := readers[k].Read();
  }

  /** Opens one reader per chunk file, in list order, and reads the first line
      of every file. */
  method OpenReaders(files: seq<seq<Line>>) returns (readers: seq<FileReader>)
    ensures Distinct(readers) && forall j :: 0 <= j < |readers| ==> fresh(readers[j])
    ensures Views(readers) == Prime(files)
  {
    readers := [];
    for i := 0 to |files|
      invariant |readers| == i && Distinct(readers)
      invariant forall j :: 0 <= j < i ==> fresh(readers[j]) && readers[j].View() == Open(files[j])
    {
      var reader := new FileReader(files[i]);
      readers := readers + [reader];
    }
    for i := 0 to |readers|
      invariant Distinct(readers) && forall j :: 0 <= j < |readers| ==> fresh(readers[j])
      invariant forall j :: 0 <= j < i ==> readers[j].View() == Advance(Open(files[j]))
      invariant forall j :: i <= j < |readers| ==> readers[j].View() == Open(files[j])
    {
      ReadOne(readers, i);
    }
  }

  /** The first pass of a round: the current line of the first reader not at EOF. */
  method FirstPass(readers: seq<FileReader>, lowest: Line) returns (lowest': Line)
    requires Ready(Views(readers))
    ensures lowest' == FirstLowest(Views(readers), lowest)
  {
    lowest' := lowest;
    var k := 0;
    while k < |readers|
      invariant k <= |readers| && lowest' == lowest
      invariant FirstLive(Views(readers), 0) == FirstLive(Views(readers), k)
    {
      if !readers[k].GetEOF() {
        lowest' := readers[k].GetCurrentLine().value;
        break;
      }
      k := k + 1;
    }
  }

  /** The second pass's visit of reader `k`. */
  method Visit(readers: seq<FileReader>, k: nat, lowest: Line, allRead: bool, out: seq<Line>)
    returns (lowest': Line, allRead': bool, out': seq<Line>)
    requires Distinct(readers) && k < |readers| && Ready(Views(readers))
    modifies readers[k]
    ensures Ready(Views(readers))
    ensures MergeState(Views(readers), lowest', allRead', out') == Step(old(MergeState(Views(readers), lowest, allRead, out)), k)
  {
    StepPaired(MergeState(Views(readers), lowest, allRead, out), k);
    lowest', allRead', out' := lowest, allRead, out;
    if !readers[k].GetEOF() {
      allRead' := false;
      var currentLine := readers[k].GetCurrentLine().value;
      if CompareTo(currentLine, lowest') <= 0 {
        out' := out' + [lowest'];
        lowest' := currentLine;
        ReadOne(readers, k);
      }
    } else {
      allRead' := true;
    }
  }

  /** The second pass of a round: every reader is visited once, in list order. */
  method SecondPass(readers: seq<FileReader>, lowest: Line, allRead: bool, out: seq<Line>)
    returns (lowest': Line, allRead': bool, out': seq<Line>)
    requires Distinct(readers) && Ready(Views(readers))
    modifies set r | r in readers
    ensures MergeState(Views(readers), lowest', allRead', out') == Sweep(old(MergeState(Views(readers), lowest, allRead, out)), 0)
  {
    lowest', allRead', out' := lowest, allRead, out;
    ghost var start := MergeState(Views(readers), lowest, allRead, out);
    for k := 0 to |readers|
      invariant Ready(Views(readers)) && |Views(readers)| == |readers|
      invariant Sweep(MergeState(Views(readers), lowest', allRead', out'), k) == Sweep(start, 0)
    {
      SweepUnfold(MergeState(Views(readers), lowest', allRead', out'), k);
      lowest', allRead', out' := Visit(readers, k, lowest', allRead', out');
    }
  }

  /** `externalSort`, over chunk files given as their lines; the sorted file it
      writes to starts empty. */
  method ExternalSort(files: seq<seq<Line>>) returns (output: Option<seq<Line>>)
    ensures output == ExternalSortSpec(files)
  {
    if |files| == 1 {
      return Some(files[0]);
    }
    if files == [] {
      // With no reader the loop below never ends.
      return None;
    }
    var allRead := false;
    var readers := OpenReaders(files);
    var lowest: Line := "";
    var out: seq<Line> := [];
    while !allRead
      invariant Distinct(readers) && forall j :: 0 <= j < |readers| ==> fresh(readers[j])
      invariant Ready(Views(readers)) && |readers| == |files|
      invariant Rounds(MergeState(Views(readers), lowest, allRead, out)) == Rounds(MergeState(Prime(files), "", false, []))
      decreases TotalPending(Views(readers)), if allRead then 0 else 1
    {
      ghost var before := MergeState(Views(readers), lowest, allRead, out);
      RoundProgress(before);
      RoundsStep(before);
      lowest := FirstPass(readers, lowest);
      lowest, allRead, out := SecondPass(readers, lowest, allRead, out);
    }
    output := Some(out);
  }
}
