/**
 * `FileReader`: a cursor over one sorted chunk file that remembers the
 * line it read last and whether the file is exhausted. The chunk file is
 * the sequence of its lines; `pos` counts the lines consumed so far.
 */
module Readers {
  import opened Strings
  import opened Optional

  /** A reader's state as a value. */
  datatype Cursor = Cursor(lines: seq<Line>, pos: nat, eof: bool, current: Option<Line>)
  {
    /** The current line is the line consumed last; EOF means every line has been
        consumed and the current line is null; before the first read there is neither. */
    predicate Valid() {
      && pos <= |lines|
      && (eof ==> pos == |lines| && current == None)
      && (current.Some? ==> 0 < pos && current.value == lines[pos - 1])
      && (current == None && !eof ==> pos == 0)
    }

    /** After a first `read()`: a reader that is not at EOF holds a current line. */
    predicate Primed() {
      eof || current.Some?
    }

    /** How many more `read()` calls change this reader: one per unread line, and one
        that finds the end. */
    function Pending(): nat
      requires Valid()
    {
      |lines| - pos + (if eof then 0 else 1)
    }
  }

  /** A reader just constructed over a chunk file. */
  function Open(lines: seq<Line>): Cursor {
    Cursor(lines, 0, false, None)
  }

  /** `read()`: consume one line and make it the current line, or, with no line
      left, set EOF and make the current line null. */
  function Advance(c: Cursor): (d: Cursor)
    requires c.Valid()
    ensures d.Valid() && d.Primed() && d.lines == c.lines
    ensures d.eof <==> c.pos == |c.lines|
    ensures c.eof ==> d == c
    ensures !d.eof ==> d.pos == c.pos + 1 && d.current == Some(c.lines[c.pos])
    ensures !c.eof ==> d.Pending() == c.Pending() - 1
  {
    if c.pos < |c.lines| then c.(pos := c.pos + 1, current := Some(c.lines[c.pos]))
    else c.(eof := true, current := None)
  }

  /** Reading a file line by line: the (n+1)-th `read()` yields line n, and the
      read after the last line reaches EOF with no current line. */
  lemma {:induction false} ReadsDrainTheFile(lines: seq<Line>, n: nat)
    requires n <= |lines|
    ensures var c := AdvanceTimes(Open(lines), n + 1);
      c.Valid() && (n < |lines| ==> c.pos == n + 1 && c.current == Some(lines[n]) && !c.eof)
      && (n == |lines| ==> c.eof && c.current == None)
  {
    if n > 0 {
      ReadsDrainTheFile(lines, n - 1);
    }
  }

  /** The reader after `n` calls of `read()`. */
  function AdvanceTimes(c: Cursor, n: nat): (d: Cursor)
    requires c.Valid()
    ensures d.Valid() && d.lines == c.lines
  {
    if n == 0 then c else Advance(AdvanceTimes(c, n - 1))
  }

  class FileReader {
    const lines: seq<Line>
    var pos: nat
    var eof: bool
    var currentLine: Option<Line>

    function View(): Cursor
      reads this
    {
      Cursor(lines, pos, eof, currentLine)
    }

    ghost predicate Valid()
      reads this
    {
      View().Valid()
    }

    /** A new reader: EOF false and no current line. */
    constructor (lines: seq<Line>)
      ensures View() == Open(lines)
    {
      this.lines := lines;
      pos := 0;
      eof := false;
      currentLine := None;
    }

    method Read() returns (line: Option<Line>)
      requires Valid()
      modifies this
      ensures View() == Advance(old(View()))
      ensures line == currentLine
    {
      if pos < |lines| {
        currentLine := Some(lines[pos]);
        pos := pos + 1;
      } else {
        currentLine := None;
        eof := true;
      }
      line := currentLine;
    }

    /** EOF once flagged means every line was read and there is no current line. */
    function GetEOF(): (r: bool)
      reads this
      ensures Valid() && r ==> pos == |lines| && GetCurrentLine() == None
    {
      eof
    }

    /** Once EOF is reached the current line is null; otherwise it is the line read last. */
    function GetCurrentLine(): (r: Option<Line>)
      reads this
      requires Valid()
      ensures eof ==> r == None
      ensures r.Some? ==> 0 < pos && r.value == lines[pos - 1]
    {
      currentLine
    }
  }
}
