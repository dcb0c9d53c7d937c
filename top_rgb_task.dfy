/**
 * `TopRgbTask` as an object: its pixel count map, its write-error circuit
 * breaker and its `halt` flag are fields the methods update, the top list is
 * the `ArrayList` it is handed, and the CSV writer is the shared output. Each
 * method is proved against the value model of the tracker.
 */
module TopRgbTasks {
  import opened Strings
  import opened Optional
  import opened CountPairs
  import opened TopRgb

  /** `WRITE_CIRCUIT_BREAKER`: the number of write errors tolerated before halting. */
  const WriteCircuitBreaker: int := 5

  /** The output CSV file as the text written to it so far. */
  class CsvWriter {
    var text: string

    constructor ()
      ensures text == ""
    {
      text := "";
    }
  }

  /** The `ArrayList<CountPair>` holding the top list. */
  class CountList {
    var items: seq<CountPair>

    constructor ()
      ensures items == []
    {
      items := [];
    }
  }

  /** A row writer and a scan state with the circuit breaker and, outside the
      scan loops, nothing else changing. */
  class TopRgbTask {
    const imageFileURLString: string
    const writer: CsvWriter
    var halt: bool
    var writeErrors: int
    var pixelColorCountMap: map<string, int>

    /** The breaker has tripped exactly when more than five writes failed. */
    predicate Valid()
      reads this
    {
      writeErrors >= 0 && (halt <==> writeErrors > WriteCircuitBreaker)
    }

    constructor (imageFileURLString: string, writer: CsvWriter)
      ensures this.imageFileURLString == imageFileURLString && this.writer == writer
      ensures !halt && writeErrors == 0 && pixelColorCountMap == map[]
      ensures Valid()
    {
      this.imageFileURLString := imageFileURLString;
      this.writer := writer;
      halt := false;
      writeErrors := 0;
      pixelColorCountMap := map[];
    }

    /** `writeToCSVFile`: the text is appended, or, when the write fails, one
        more error is counted and the breaker trips after the sixth. */
    method WriteToCSVFile(outputString: string, ioError: bool)
      requires Valid()
      modifies this, writer
      ensures Valid()
      ensures pixelColorCountMap == old(pixelColorCountMap)
      ensures !ioError ==>
        writer.text == old(writer.text) + outputString && writeErrors == old(writeErrors) && halt == old(halt)
      ensures ioError ==> writer.text == old(writer.text) && writeErrors == old(writeErrors) + 1
    {
      if !ioError {
        writer.text := writer.text + outputString;
      } else {
        writeErrors := writeErrors + 1;
        if writeErrors > WriteCircuitBreaker {
          halt := true;
        }
      }
    }

    /** `checkChangeTopRgb`: the list becomes `Update` of the old one, and an
        exception is thrown exactly where `Update` has none. */
    method CheckChangeTopRgb(topCounts: CountList, currentPosition: nat, countPair: CountPair) returns (thrown: bool)
      modifies topCounts
      ensures thrown <==> Update(old(topCounts.items), currentPosition, countPair).None?
      ensures !thrown ==> topCounts.items == Update(old(topCounts.items), currentPosition, countPair).value
      decreases if currentPosition < TopCount then TopCount - currentPosition else 0
    {
      thrown := false;
      var items := topCounts.items;
      if |items| == 0 || |items| - 1 < currentPosition {
        if currentPosition < TopCount {
          if currentPosition <= |items| {
            topCounts.items := items[..currentPosition] + [countPair] + items[currentPosition..];
            assert items[..currentPosition] == items && items[currentPosition..] == [];
          } else {
            thrown := true;
          }
        }
      } else if items[currentPosition].hexColor == countPair.hexColor {
        topCounts.items := items[currentPosition := countPair];
      } else if countPair.count > items[currentPosition].count {
        if currentPosition < TopCount {
          var tempPair := items[currentPosition];
          topCounts.items := items[currentPosition := countPair];
          var foundPosition := FindStale(topCounts.items, countPair);
          if foundPosition != -1 {
            var placed := topCounts.items;
            topCounts.items := placed[..foundPosition] + placed[foundPosition + 1..];
          }
          assert topCounts.items == Displaced(items, currentPosition, countPair);
          thrown := CheckChangeTopRgb(topCounts, currentPosition + 1, tempPair);
        }
      } else if currentPosition + 1 < TopCount {
        thrown := CheckChangeTopRgb(topCounts, currentPosition + 1, countPair);
      }
    }

    /** The search loop before `remove`: the first index holding the colour of
        `countPair` with a lower count, or -1. */
    static method FindStale(items: seq<CountPair>, countPair: CountPair) returns (foundPosition: int)
      ensures foundPosition == -1 <==> FirstStale(items, countPair.hexColor, countPair.count, 0).None?
      ensures foundPosition != -1 ==> foundPosition == FirstStale(items, countPair.hexColor, countPair.count, 0).value
    {
      foundPosition := -1;
      var ii := 0;
      while ii < |items|
        invariant 0 <= ii <= |items|
        invariant FirstStale(items, countPair.hexColor, countPair.count, 0)
          == FirstStale(items, countPair.hexColor, countPair.count, ii)
      {
        if items[ii].hexColor == countPair.hexColor && items[ii].count < countPair.count {
          foundPosition := ii;
          return;
        }
        ii := ii + 1;
      }
    }

    /** The scan state the fields hold: counts, list, and whether it threw. */
    predicate Holds(s: Scan, topCounts: CountList, thrown: bool)
      reads this, topCounts
    {
      pixelColorCountMap == s.counts && thrown == s.thrown && (!thrown ==> topCounts.items == s.top)
    }

    /** One pixel of the inner loop of `findTopRgb`. */
    method ScanPixel(topCounts: CountList, pixel: Argb) returns (thrown: bool)
      modifies this`pixelColorCountMap, topCounts
      ensures Holds(Absorb(Scan(old(pixelColorCountMap), old(topCounts.items), false), pixel), topCounts, thrown)
    {
      thrown := false;
      var buf := ToHexString(pixel);
      if |buf| < 6 {
        thrown := true;
        return;
      }
      var hex := "#" + buf[|buf| - 6..];
      var currentCount: int;
      if hex in pixelColorCountMap {
        currentCount := pixelColorCountMap[hex] + 1;
        pixelColorCountMap := pixelColorCountMap[hex := currentCount];
      } else {
        currentCount := 1;
        pixelColorCountMap := pixelColorCountMap[hex := currentCount];
      }
      thrown := CheckChangeTopRgb(topCounts, 0, CountPair(hex, currentCount));
    }

    /** `findTopRgb`: column by column, row by row, until a pixel throws or
        `halt` is set; the fields end as the scan of the pixels from the state
        they started in, and a halted task scans nothing. */
    method FindTopRgb(topCounts: CountList, urlImage: Image) returns (thrown: bool)
      requires urlImage.WellFormed()
      modifies this`pixelColorCountMap, topCounts
      ensures Holds(FeedFrom(Scan(old(pixelColorCountMap), old(topCounts.items), false),
                             if halt then [] else ColumnMajor(urlImage.columns)), topCounts, thrown)
    {
      thrown := false;
      ghost var start := Scan(pixelColorCountMap, topCounts.items, false);
      ghost var scanned: seq<Argb> := [];
      var column := 0;
      while column < urlImage.width
        invariant 0 <= column <= urlImage.width
        invariant !halt || column == 0
        invariant scanned == ColumnMajor(urlImage.columns[..column])
        invariant Holds(FeedFrom(start, scanned), topCounts, thrown) && !thrown
      {
        if halt {
          break;
        }
        var pixels := urlImage.columns[column];
        var row: nat;
        thrown, row := ScanColumn(topCounts, pixels, start, scanned);
        TakeAll(pixels, row, |pixels|);
        scanned := scanned + pixels[..row];
        if thrown {
          ScanRest(start, urlImage, column, row, scanned);
          return;
        }
        assert urlImage.columns[..column + 1][..column] == urlImage.columns[..column];
        column := column + 1;
      }
      if !halt {
        assert urlImage.columns[..column] == urlImage.columns;
      }
    }

    /** The inner loop of `findTopRgb` over the pixels of one column, from the
        scan of the pixels `before` it: it stops after a pixel that throws, and
        runs to the end of the column unless `halt` is set. */
    method ScanColumn(topCounts: CountList, pixels: seq<Argb>, ghost start: Scan, ghost before: seq<Argb>)
      returns (thrown: bool, row: nat)
      requires Holds(FeedFrom(start, before), topCounts, false)
      modifies this`pixelColorCountMap, topCounts
      ensures row <= |pixels| && (!thrown && !halt ==> row == |pixels|)
      ensures Holds(FeedFrom(start, before + pixels[..row]), topCounts, thrown)
    {
      thrown := false;
      row := 0;
      assert before + pixels[..0] == before;
      while row < |pixels|
        invariant row <= |pixels|
        invariant Holds(FeedFrom(start, before + pixels[..row]), topCounts, false)
      {
        if halt {
          break;
        }
        var pixel := pixels[row];
        ghost var done := before + pixels[..row];
        thrown := ScanPixel(topCounts, pixel);
        SnocPixel(before, pixels, row);
        FeedFromSnoc(start, done, pixel);
        row := row + 1;
        if thrown {
          return;
        }
      }
    }

    /** After a throw at `(column, row - 1)`, the scan of the whole image is
        the scan so far. */
    static lemma ScanRest(start: Scan, urlImage: Image, column: nat, row: nat, scanned: seq<Argb>)
      requires urlImage.WellFormed() && column < urlImage.width && row <= urlImage.height
      requires scanned == ColumnMajor(urlImage.columns[..column]) + urlImage.columns[column][..row]
      requires FeedFrom(start, scanned).thrown
      ensures FeedFrom(start, ColumnMajor(urlImage.columns)) == FeedFrom(start, scanned)
    {
      var cols := urlImage.columns;
      PrefixOfColumnMajor(cols, column, row);
      var rest := ColumnMajor(cols)[|scanned|..];
      assert ColumnMajor(cols) == scanned + rest;
      FeedFromAppend(start, scanned, rest);
      FeedFromThrown(FeedFrom(start, scanned), rest);
    }

    /** `writeTopRgb`: the row of the URL and the listed colours, written
        through `writeToCSVFile`. */
    method WriteTopRgb(topCounts: CountList, ioError: bool)
      requires Valid()
      modifies this, writer
      ensures Valid()
      ensures pixelColorCountMap == old(pixelColorCountMap)
      ensures !ioError ==>
        && writer.text == old(writer.text) + Row(imageFileURLString, topCounts.items)
        && writeErrors == old(writeErrors) && halt == old(halt)
      ensures ioError ==> writer.text == old(writer.text) && writeErrors == old(writeErrors) + 1
    {
      var topString := BuildRow(imageFileURLString, topCounts.items);
      WriteToCSVFile(topString, ioError);
    }

    /** The `StringBuffer` loop of `writeTopRgb`: the URL, a comma, and each
        colour followed by a comma unless it is the last; then the newline. */
    static method BuildRow(url: string, items: seq<CountPair>) returns (row: string)
      ensures row == Row(url, items)
    {
      var topString := url + ",";
      for ii := 0 to |items|
        invariant topString == RowPrefix(url, items, ii)
      {
        RowPrefixStep(url, items, ii);
        topString := topString + items[ii].hexColor;
        if ii + 1 < |items| {
          topString := topString + ",";
        }
      }
      assert items[..|items|] == items;
      row := topString + "\n";
    }

    /** What `run` does once the image is read: nothing for an image the reader
        could not decode; otherwise the scan into a fresh list and, unless it
        threw, the row of that list. */
    method Process(urlImage: Option<Image>, ioError: bool) returns (thrown: bool)
      requires Valid()
      requires urlImage.Some? ==> urlImage.value.WellFormed()
      modifies this, writer
      ensures Valid()
      ensures urlImage.None? ==>
        && !thrown && writer.text == old(writer.text)
        && pixelColorCountMap == old(pixelColorCountMap) && writeErrors == old(writeErrors)
      ensures urlImage.Some? ==>
        var s := FeedFrom(Scan(old(pixelColorCountMap), [], false),
                          if old(halt) then [] else ColumnMajor(urlImage.value.columns));
        && thrown == s.thrown && pixelColorCountMap == s.counts
        && (thrown ==> writer.text == old(writer.text) && writeErrors == old(writeErrors))
        && (!thrown && !ioError ==>
              && writer.text == old(writer.text) + Row(imageFileURLString, s.top)
              && writeErrors == old(writeErrors) && halt == old(halt))
        && (!thrown && ioError ==> writer.text == old(writer.text) && writeErrors == old(writeErrors) + 1)
    {
      thrown := false;
      if urlImage.None? {
        return;
      }
      var topCounts := new CountList();
      thrown := FindTopRgb(topCounts, urlImage.value);
      if !thrown {
        WriteTopRgb(topCounts, ioError);
      }
    }
  }

  /** The text of the `StringBuffer` once the first `n` entries are appended. */
  ghost function RowPrefix(url: string, items: seq<CountPair>, n: nat): string
    requires n <= |items|
  {
    url + "," + Join(Colors(items[..n]), ',') + (if 0 < n < |items| then "," else "")
  }

  /** Appending entry `n`, and a comma unless it is the last, extends the prefix. */
  lemma RowPrefixStep(url: string, items: seq<CountPair>, n: nat)
    requires n < |items|
    ensures RowPrefix(url, items, n + 1)
      == RowPrefix(url, items, n) + items[n].hexColor + (if n + 1 < |items| then "," else "")
  {
    var cs, x := Colors(items[..n]), items[n].hexColor;
    var comma := if n + 1 < |items| then "," else "";
    ColorsSnoc(items, n);
    JoinSnoc(cs, x, ',');
    var head := url + ",";
    if n == 0 {
      EmptyJoined(head);
    } else {
      Regroup(head, Join(cs, ','), ",", x, comma);
    }
  }

  /** The colours of one more entry. */
  lemma ColorsSnoc(items: seq<CountPair>, n: nat)
    requires n < |items|
    ensures Colors(items[..n + 1]) == Colors(items[..n]) + [items[n].hexColor]
  {
  }

  lemma EmptyJoined(head: string)
    ensures head + Join([], ',') + "" == head
  {
  }

  /** Concatenation regrouped. */
  lemma Regroup(a: string, b: string, c: string, d: string, e: string)
    ensures a + (b + c + d) + e == a + b + c + d + e
  {
  }

  /** Taking all of a sequence is the sequence. */
  lemma TakeAll<T>(s: seq<T>, i: nat, n: nat)
    requires i <= n == |s|
    ensures i == n ==> s[..i] == s
  {
  }

  /** The scanned prefix of a column grows by the pixel just scanned. */
  lemma SnocPixel(before: seq<Argb>, pixels: seq<Argb>, row: nat)
    requires row < |pixels|
    ensures before + pixels[..row + 1] == (before + pixels[..row]) + [pixels[row]]
  {
    assert pixels[..row + 1] == pixels[..row] + [pixels[row]];
  }

  /** Joining one more field appends a separator and the field. */
  lemma {:induction false} JoinSnoc(fields: seq<string>, x: string, sep: char)
    ensures Join(fields + [x], sep) == if fields == [] then x else Join(fields, sep) + [sep] + x
  {
    if |fields| >= 2 {
      JoinSnoc(fields[1..], x, sep);
      assert (fields + [x])[1..] == fields[1..] + [x];
    } else if |fields| == 1 {
      assert (fields + [x])[1..] == [x];
    }
  }

  /** The pixels scanned before `(column, row)` start the column-major order. */
  lemma {:induction false} PrefixOfColumnMajor(cols: seq<seq<Argb>>, column: nat, row: nat)
    requires column < |cols| && row <= |cols[column]|
    ensures var p := ColumnMajor(cols[..column]) + cols[column][..row];
      |p| <= |ColumnMajor(cols)| && ColumnMajor(cols)[..|p|] == p
    decreases |cols|
  {
    var n := |cols| - 1;
    var p := ColumnMajor(cols[..column]) + cols[column][..row];
    assert ColumnMajor(cols) == ColumnMajor(cols[..n]) + cols[n];
    if column == n {
      assert cols[..n][..column] == cols[..column];
    } else {
      assert cols[..n][..column] == cols[..column] && cols[..n][column] == cols[column];
      PrefixOfColumnMajor(cols[..n], column, row);
    }
  }
}
