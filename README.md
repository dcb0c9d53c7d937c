# toprgb in Dafny

A model of the core of **toprgb**, a batch service that reads a file of image
URLs and writes, for each distinct URL, one CSV row naming the three most
frequent pixel colours of the image:

- **External sort** (`ExternalSorter`, `ExternalSorterTask`, `FileReader`). The
  URL file is cut into chunks by a size estimate of two bytes per character.
  Each chunk is sorted with `Collections.sort` into its own chunk file. The
  chunk files are then merged into one sorted file, or copied when there is
  only one.
- **Dispatch** (`TopRgbService.start`). The service walks the sorted file and
  submits one `TopRgbTask` per URL. It skips a line equal to the one submitted
  last, and counts the lines processed and skipped. The output CSV file is
  opened with `CREATE_NEW`. When a file of the configured name exists, a
  timestamp is appended to the new file's name.
- **Top-3 scan** (`TopRgbTask`). The task counts every pixel's `#rrggbb` key
  in a map. After each pixel it offers the key's new count to a list of at
  most three `CountPair`s, highest count first (`checkChangeTopRgb`). It then
  writes `url,colour,colour,colour` to the CSV file. Write failures are
  counted, and more than five halt the task.

Modules, one per file:

| file | module | source |
|---|---|---|
| `optional.dfy` | `Optional` | `Option` for null results and exceptions |
| `strings.dfy` | `Strings` | `String.compareTo`, `Collections.sort`, `Integer.toHexString`, CSV joining |
| `file_reader.dfy` | `Readers` | `FileReader` |
| `sorter_task.dfy` | `SorterTask` | `ExternalSorterTask` |
| `split_phase.dfy` | `SplitPhase` | `ExternalSorter.breakDownFile`, `createChunk` |
| `merge_phase.dfy` | `MergePhase` | `ExternalSorter.externalSort` |
| `external_sorter.dfy` | `ExternalSorters` | `ExternalSorter` constructor and `sort` |
| `count_pair.dfy` | `CountPairs` | `CountPair` |
| `top_rgb.dfy` | `TopRgb` | the colour key, `checkChangeTopRgb` and the scan as functions, with their invariants |
| `top_rgb_task.dfy` | `TopRgbTasks` | `TopRgbTask` as a class: `findTopRgb`, `checkChangeTopRgb`, `writeTopRgb`, `writeToCSVFile`, `run` after the image is read |
| `service.dfy` | `TopRgbServices` | `TopRgbService.start`, `createBufferedWriter`, `createSortedFile` |
| `sorter_tests.dfy` | `SorterTests` | the cases of `ExternalSorterTest`, and merges that show its behaviour |
| `top_rgb_tests.dfy` | `TopRgbTests` | the cases of `TopRgbServiceTest`, and single steps of the top-3 update |

Files are sequences of lines. An image is a sequence of pixel columns. The
CSV file is its text so far. Exceptions that the source catches or lets
escape are `None` results or `thrown` flags.

### What the merge does

`externalSort` is not a k-way merge. Each round first takes as `lowest` the
current line of the first reader not at end of file. It then visits every
reader. A reader whose current line is at most `lowest` makes the merge
write `lowest`, take that line as the new `lowest`, and advance. A reader
found at end of file sets `allRead`, and the loop stops after the round in
which the last reader visited is at end of file. So a line can be written
twice or never:

- chunk files `[5]` and `[3]` give `5, 5` (`SorterTests.MergeDuplicatesAndLoses`);
- `[1, 2, 3]` and `[1]` give `1, 1, 2` (`SorterTests.MergeStopsEarly`).

The model states this behaviour as written, and proves what does hold:

- every line written comes from a chunk file;
- at most one line is written per chunk line;
- the loop ends whenever there is at least one chunk file;
- with a single chunk file, the result is that chunk sorted. It is the whole
  input sorted when the input's estimate is below the chunk size
  (`ExternalSorters.SmallInputSorted`); otherwise a final buffer that reaches
  the chunk size is dropped, so one chunk file can hold less than the input.

On the inputs of the repository's two merge tests, the model's merge gives the
ascending output those tests expect (`SorterTests.ExternalSortOneFile`,
`SorterTests.ExternalSortManyFiles`).

### Where the description and the code differ

- **Colour key.** The design text says a short hex string is zero-padded to
  six digits. In the code, `buf.substring(buf.length() - 6)` throws when
  `Integer.toHexString` yields fewer than six digits, which happens for a
  pixel with alpha 0 and red below `0x10`. The exception ends `run` before a
  row is written. The model follows the code: `TopRgb.ColorKey` is `None`
  there, and the scan reports the exception.
- **White.** The class comment says white is not counted as a colour.
  Nothing filters it, and the tests expect `#ffffff` in the list. The model
  counts white like any other colour.
- **Circuit breaker.** The breaker counts write errors per task, and each
  task writes one row. So more than five failures never accumulate in
  practice. The model keeps the counter as written: `TopRgbTasks.TopRgbTask.Valid`
  says `halt` holds exactly when more than five writes failed.

## Model

| member | source | states |
|---|---|---|
| Strings.CompareTo | src/main/java/com/seekfirst/toprgb/sorter/ExternalSorter.java:203 | `compareTo` is zero exactly on equal strings |
| Strings.CompareToAntisymmetric | src/main/java/com/seekfirst/toprgb/sorter/ExternalSorter.java:203 | swapping the arguments of `compareTo` negates the result |
| Strings.LessEqTotal | src/main/java/com/seekfirst/toprgb/sorter/ExternalSorterTask.java:35 | the natural order of strings is total and antisymmetric |
| Strings.LessEqTransitive | src/main/java/com/seekfirst/toprgb/sorter/ExternalSorterTask.java:35 | the natural order of strings is transitive |
| Strings.InsertKeepsOrder | src/main/java/com/seekfirst/toprgb/sorter/ExternalSorterTask.java:35 | inserting into a sorted list keeps it sorted and adds exactly that element |
| Strings.SortedCopyIsSortedPermutation | src/main/java/com/seekfirst/toprgb/sorter/ExternalSorterTask.java:35 | `Collections.sort` leaves the list ascending and a permutation of what it was |
| Strings.SortedPermutationUnique | src/main/java/com/seekfirst/toprgb/sorter/ExternalSorterTask.java:35 | two ascending permutations of one list are equal, so the sorted chunk is determined |
| Strings.HeadIsLeast | src/main/java/com/seekfirst/toprgb/sorter/ExternalSorterTask.java:35 | the first line of a sorted list is at most every line in it |
| Strings.SortedTail | src/main/java/com/seekfirst/toprgb/sorter/ExternalSorterTask.java:35 | a sorted list without its first line is still sorted |
| Strings.SortedCopy | src/main/java/com/seekfirst/toprgb/sorter/ExternalSorterTask.java:35 | `Collections.sort` keeps the number of lines |
| Strings.HexLength | src/main/java/com/seekfirst/toprgb/TopRgbTask.java:168 | `toHexString(n)` has more than `k` digits exactly when `n >= 16^k` |
| Strings.ToHexString | src/main/java/com/seekfirst/toprgb/TopRgbTask.java:168 | `Integer.toHexString` yields at least one digit, and no leading zero for a non-zero value |
| Strings.HexSuffix | src/main/java/com/seekfirst/toprgb/TopRgbTask.java:168-169 | the last `w` digits of `toHexString(n)` are the `w` lowest hex digits of `n` |
| Strings.FixedHexMod | src/main/java/com/seekfirst/toprgb/TopRgbTask.java:169 | the `w` lowest digits depend only on `n` modulo `16^w` |
| Strings.FixedHexValue | src/main/java/com/seekfirst/toprgb/TopRgbTask.java:169 | reading the `w` lowest digits back gives `n` modulo `16^w` |
| Strings.DecimalString | src/main/java/com/seekfirst/toprgb/TopRgbService.java:156 | the printed timestamp is a non-empty string of decimal digits |
| Strings.Split | src/main/java/com/seekfirst/toprgb/TopRgbTask.java:242-250 | reading a row back at commas always yields at least one field, empty fields kept |
| Strings.Join | src/main/java/com/seekfirst/toprgb/TopRgbTask.java:244-249 | the first field starts the joined text, followed by the separator when more fields follow |
| Strings.SplitJoin | src/main/java/com/seekfirst/toprgb/TopRgbTask.java:244-249 | splitting the comma-joined fields gives the fields back when none holds a comma |
| Readers.Advance | src/main/java/com/seekfirst/toprgb/sorter/FileReader.java:46-52 | `read()` consumes the next line and makes it current, or sets EOF and a null line at the end; it stays at EOF once there |
| Readers.ReadsDrainTheFile | src/main/java/com/seekfirst/toprgb/sorter/FileReader.java:46-52 | the (n+1)-th `read()` yields line n, and the one after the last line sets EOF |
| Readers.AdvanceTimes | src/main/java/com/seekfirst/toprgb/sorter/FileReader.java:46-52 | repeated `read()` keeps the reader's file and state consistent |
| Readers.FileReader.constructor | src/main/java/com/seekfirst/toprgb/sorter/FileReader.java:18-22 | a new reader is not at EOF and holds no current line |
| Readers.FileReader.Read | src/main/java/com/seekfirst/toprgb/sorter/FileReader.java:46-52 | `read()` advances the reader as `Advance` says and returns the new current line |
| Readers.FileReader.GetCurrentLine | src/main/java/com/seekfirst/toprgb/sorter/FileReader.java:54-56 | the current line is null at EOF and otherwise the line read last |
| Readers.FileReader.GetEOF | src/main/java/com/seekfirst/toprgb/sorter/FileReader.java:32-34 | once EOF is flagged every line has been read and there is no current line |
| SorterTask.ExternalSorterTask.constructor | src/main/java/com/seekfirst/toprgb/sorter/ExternalSorterTask.java:26-29 | the task holds the chunk and an empty temporary file |
| SorterTask.ExternalSorterTask.Run | src/main/java/com/seekfirst/toprgb/sorter/ExternalSorterTask.java:32-47 | the chunk is sorted in place, ascending and a permutation, and the file holds exactly its lines in order |
| SplitPhase.Estimate | src/main/java/com/seekfirst/toprgb/sorter/ExternalSorter.java:75-78 | the size estimate counts two bytes per character, at least the first line's share |
| SplitPhase.EstimateAppend | src/main/java/com/seekfirst/toprgb/sorter/ExternalSorter.java:78 | adding a line adds twice its length to the estimate |
| SplitPhase.CutFrom | src/main/java/com/seekfirst/toprgb/sorter/ExternalSorter.java:72-95 | the loop makes at most one cut per line read, and its open chunk is empty only when no line was read at all |
| SplitPhase.Chunks | src/main/java/com/seekfirst/toprgb/sorter/ExternalSorter.java:72-102 | at most one chunk per line, plus one |
| SplitPhase.Dropped | src/main/java/com/seekfirst/toprgb/sorter/ExternalSorter.java:100-102 | a final buffer is left unwritten only when some line was read and the buffer's estimate reaches the chunk size |
| SplitPhase.SplitKeepsOrder | src/main/java/com/seekfirst/toprgb/sorter/ExternalSorter.java:72-102 | the chunks concatenated, followed by the dropped tail, are the input in order; a tail is dropped only when its estimate reaches the chunk size |
| SplitPhase.CutBounded | src/main/java/com/seekfirst/toprgb/sorter/ExternalSorter.java:79-95 | every chunk is below the chunk size or a single oversized line, and a chunk plus the next line would reach the chunk size |
| SplitPhase.SplitChunksBounded | src/main/java/com/seekfirst/toprgb/sorter/ExternalSorter.java:72-102 | every chunk is bounded, only the first can be empty, and every cut falls where the next line would reach the chunk size |
| SplitPhase.CutFirstChunkStart | src/main/java/com/seekfirst/toprgb/sorter/ExternalSorter.java:89-94 | a new chunk starts with the line that did not fit |
| SplitPhase.EmptyFirstChunk | src/main/java/com/seekfirst/toprgb/sorter/ExternalSorter.java:79-85 | the first chunk is empty exactly when the first line alone reaches the chunk size; an empty input gives one empty chunk, or none for a non-positive chunk size |
| SplitPhase.CreateChunk | src/main/java/com/seekfirst/toprgb/sorter/ExternalSorter.java:129-137 | the chunk's sorted file is appended to the list of chunk files |
| SplitPhase.SortAll | src/main/java/com/seekfirst/toprgb/sorter/ExternalSorter.java:129-137 | each chunk file is its chunk sorted, in creation order |
| SplitPhase.BreakDownFile | src/main/java/com/seekfirst/toprgb/sorter/ExternalSorter.java:60-127 | the loop returns the sorted chunk files of the cut the chunk rules define |
| MergePhase.StepPaired | src/main/java/com/seekfirst/toprgb/sorter/ExternalSorter.java:199-211 | a visit writes a line exactly when its `read()` changes the reader |
| MergePhase.FirstLive | src/main/java/com/seekfirst/toprgb/sorter/ExternalSorter.java:190-195 | the first reader not at EOF, every reader before it being at EOF, or none when every reader is at EOF |
| MergePhase.Pass1 | src/main/java/com/seekfirst/toprgb/sorter/ExternalSorter.java:190-195 | the first pass changes only `lowest`: to the first live reader's current line, or not at all |
| MergePhase.Step | src/main/java/com/seekfirst/toprgb/sorter/ExternalSorter.java:199-211 | a visit writes at most one line, and sets `allRead` exactly when the reader is at EOF |
| MergePhase.Sweep | src/main/java/com/seekfirst/toprgb/sorter/ExternalSorter.java:199-213 | the second pass keeps every reader's file, and each line written uses up one unread line |
| MergePhase.Round | src/main/java/com/seekfirst/toprgb/sorter/ExternalSorter.java:185-214 | a round keeps every reader's file, and each line written uses up one unread line |
| MergePhase.SweepAllAtEof | src/main/java/com/seekfirst/toprgb/sorter/ExternalSorter.java:209-211 | over readers all at EOF the pass only sets `allRead` |
| MergePhase.RoundProgress | src/main/java/com/seekfirst/toprgb/sorter/ExternalSorter.java:185-214 | with at least one reader, every round ends the merge or reads a line |
| MergePhase.NoReadersNeverFinish | src/main/java/com/seekfirst/toprgb/sorter/ExternalSorter.java:185-214 | with no reader a round changes nothing, so `while (!allRead)` never ends |
| MergePhase.Rounds | src/main/java/com/seekfirst/toprgb/sorter/ExternalSorter.java:185-214 | the rounds end with `allRead` set, readers on their files, and no more lines written than read |
| MergePhase.Prime | src/main/java/com/seekfirst/toprgb/sorter/ExternalSorter.java:166-182 | one reader per chunk file, in order, each read once |
| MergePhase.PrimedPending | src/main/java/com/seekfirst/toprgb/sorter/ExternalSorter.java:180-182 | after the first reads, the lines still to read are all chunk lines |
| MergePhase.MergeSpec | src/main/java/com/seekfirst/toprgb/sorter/ExternalSorter.java:157-214 | the merge of two or more chunk files writes at most as many lines as they hold |
| MergePhase.MergeOutputFromChunks | src/main/java/com/seekfirst/toprgb/sorter/ExternalSorter.java:184-208 | every line the merge writes is a line of some chunk file |
| MergePhase.ReadOne | src/main/java/com/seekfirst/toprgb/sorter/ExternalSorter.java:207 | `read()` on one reader leaves the others unchanged |
| MergePhase.OpenReaders | src/main/java/com/seekfirst/toprgb/sorter/ExternalSorter.java:166-182 | opens distinct fresh readers over the chunk files, in order, and reads each once |
| MergePhase.FirstPass | src/main/java/com/seekfirst/toprgb/sorter/ExternalSorter.java:190-195 | `lowest` becomes the current line of the first reader not at EOF, or stays as it was |
| MergePhase.Visit | src/main/java/com/seekfirst/toprgb/sorter/ExternalSorter.java:200-211 | one visit changes the readers, `lowest`, `allRead` and the output as the spec step does |
| MergePhase.SecondPass | src/main/java/com/seekfirst/toprgb/sorter/ExternalSorter.java:199-213 | the pass over all readers matches the spec pass |
| MergePhase.ExternalSort | src/main/java/com/seekfirst/toprgb/sorter/ExternalSorter.java:139-226 | one chunk file is copied, no chunk file loops forever (`None`), and otherwise the output is what the merge rounds write |
| MergePhase.ExternalSortSpec | src/main/java/com/seekfirst/toprgb/sorter/ExternalSorter.java:139-226 | the sort has no result (the loop never ends) exactly when there is no chunk file, and one chunk file is copied as it is |
| ExternalSorters.ExternalSorter.Sort | src/main/java/com/seekfirst/toprgb/sorter/ExternalSorter.java:47-58 | `sort` breaks the file down and merges the sorted chunk files |
| ExternalSorters.NewExternalSorter | src/main/java/com/seekfirst/toprgb/sorter/ExternalSorter.java:34-39 | a chunk size of 0 is refused, and any other is kept |
| ExternalSorters.SortSpec | src/main/java/com/seekfirst/toprgb/sorter/ExternalSorter.java:47-58 | the sort has no result exactly when the split makes no chunk |
| ExternalSorters.SortHangs | src/main/java/com/seekfirst/toprgb/sorter/ExternalSorter.java:100-102 | the sort never finishes exactly for an empty input and a negative chunk size |
| ExternalSorters.SingleChunkSorted | src/main/java/com/seekfirst/toprgb/sorter/ExternalSorter.java:141-155 | with one chunk the sorted file is that chunk, ascending and a permutation |
| ExternalSorters.SmallInputSorted | src/main/java/com/seekfirst/toprgb/sorter/ExternalSorter.java:60-155 | an input whose estimate is below the chunk size comes out sorted |
| ExternalSorters.FitsOneChunk | src/main/java/com/seekfirst/toprgb/sorter/ExternalSorter.java:79-102 | an input whose estimate is below the chunk size forms a single chunk |
| SorterTests.BreakDownLessThanChunkSize | src/test/java/com/seekfirst/toprgb/sorter/ExternalSorterTest.java:21-44 | four short lines at chunk size 10000 make one chunk file |
| SorterTests.FiveLineChunks | src/test/java/com/seekfirst/toprgb/sorter/ExternalSorterTest.java:47-97 | five nine-character lines at chunk size 50 are cut into chunks of 2, 2 and 1 lines |
| SorterTests.BreakDownGreaterThanChunkSize | src/test/java/com/seekfirst/toprgb/sorter/ExternalSorterTest.java:47-97 | the test file at chunk size 50 gives three chunk files of 2, 2 and 1 lines |
| SorterTests.SortFiveLines | src/test/java/com/seekfirst/toprgb/sorter/ExternalSorterTest.java:134-139 | the five test lines sort to the expected order |
| SorterTests.ExternalSortOneFile | src/test/java/com/seekfirst/toprgb/sorter/ExternalSorterTest.java:100-141 | at chunk size 1000 the sorted file is the five lines in ascending order |
| SorterTests.FiveLineSortedChunks | src/test/java/com/seekfirst/toprgb/sorter/ExternalSorterTest.java:163 | the three chunk files of the test hold their lines sorted |
| SorterTests.MergeThreeChunks | src/main/java/com/seekfirst/toprgb/sorter/ExternalSorter.java:184-214 | merging `[l, m]`, `[l, m]` and `[h]` writes `l, l, m, m, h` |
| SorterTests.ExternalSortManyFiles | src/test/java/com/seekfirst/toprgb/sorter/ExternalSorterTest.java:144-185 | at chunk size 50 the sorted file is the five lines in ascending order |
| SorterTests.TwoSingleChunks | src/main/java/com/seekfirst/toprgb/sorter/ExternalSorter.java:79-95 | lines `5` and `3` at chunk size 3 give two one-line chunk files |
| SorterTests.MergeDuplicatesAndLoses | src/main/java/com/seekfirst/toprgb/sorter/ExternalSorter.java:199-211 | sorting `5`, `3` at chunk size 3 writes `5` twice and never writes `3` |
| SorterTests.MergeStopsEarly | src/main/java/com/seekfirst/toprgb/sorter/ExternalSorter.java:209-211 | the merge of `[1, 2, 3]` and `[1]` stops once the last reader is at EOF, writing `1, 1, 2` |
| CountPairs.CountPair.SetHexColor | src/main/java/com/seekfirst/toprgb/CountPair.java:25-27 | the colour changes and the count does not |
| CountPairs.CountPair.SetCount | src/main/java/com/seekfirst/toprgb/CountPair.java:33-35 | the count changes and the colour does not |
| CountPairs.CountPair.Equals | src/main/java/com/seekfirst/toprgb/CountPair.java:46-64 | null and other classes are unequal; a pair equals exactly the pair with the same colour and count |
| CountPairs.CountPair.HashCode | src/main/java/com/seekfirst/toprgb/CountPair.java:38-43 | the hash is a 32-bit `int` |
| CountPairs.WrapInt | src/main/java/com/seekfirst/toprgb/CountPair.java:38-43 | the `int` that agrees with a number modulo 2^32 |
| CountPairs.StringHash | src/main/java/com/seekfirst/toprgb/CountPair.java:40 | `String.hashCode` stays in `int` range |
| CountPairs.LongHash | src/main/java/com/seekfirst/toprgb/CountPair.java:41 | `Long.hashCode` stays in `int` range |
| CountPairs.StringHashIsWrappedPolynomial | src/main/java/com/seekfirst/toprgb/CountPair.java:40 | wrapping after every step of `String.hashCode` equals wrapping the exact polynomial once |
| CountPairs.EqualPairsHashAlike | src/main/java/com/seekfirst/toprgb/CountPair.java:38-64 | equal pairs have equal hash codes |
| CountPairs.EqualsIsEquivalence | src/main/java/com/seekfirst/toprgb/CountPair.java:46-64 | `equals` is reflexive and symmetric |
| CountPairs.GettersReturnFields | src/main/java/com/seekfirst/toprgb/CountPair.java:16-31 | the getters return what the constructor stored |
| TopRgb.ColorKeyShape | src/main/java/com/seekfirst/toprgb/TopRgbTask.java:163-169 | the key is missing (the substring throws) exactly below `0x100000`; otherwise it is `#` and six hex digits with the pixel's RGB value |
| TopRgb.ColorKeyIsRgb | src/main/java/com/seekfirst/toprgb/TopRgbTask.java:163-169 | two pixels share a key exactly when their red, green and blue bytes agree |
| TopRgb.ColorKey | src/main/java/com/seekfirst/toprgb/TopRgbTask.java:168-169 | a key, when the substring does not throw, is `#` and six characters |
| TopRgb.FirstStale | src/main/java/com/seekfirst/toprgb/TopRgbTask.java:223-229 | the search finds the first entry with the colour and a lower count, or reports that there is none |
| TopRgb.RemoveAt | src/main/java/com/seekfirst/toprgb/TopRgbTask.java:231 | `remove(i)` drops entry `i` and shifts the later ones down |
| TopRgb.Displaced | src/main/java/com/seekfirst/toprgb/TopRgbTask.java:216-232 | `set` and the removal of at most one stale copy shorten the list by at most one entry |
| TopRgb.Update | src/main/java/com/seekfirst/toprgb/TopRgbTask.java:190-238 | a list of at most three entries stays within three when no exception is thrown |
| TopRgb.TopFirstIsMost | src/main/java/com/seekfirst/toprgb/TopRgbTask.java:190-238 | the first entry of a top-3 list has a count at least that of every colour counted |
| TopRgb.PendingAppend | src/main/java/com/seekfirst/toprgb/TopRgbTask.java:198-204 | adding at the free position `pos` gives a top-3 list of the new counts |
| TopRgb.PendingPastEnd | src/main/java/com/seekfirst/toprgb/TopRgbTask.java:198-204 | past the third position the list is already a top-3 list |
| TopRgb.PendingSame | src/main/java/com/seekfirst/toprgb/TopRgbTask.java:205-209 | overwriting the entry of the same colour gives a top-3 list |
| TopRgb.PendingLast | src/main/java/com/seekfirst/toprgb/TopRgbTask.java:235-237 | a count no higher than the last entry's is dropped, and the list is a top-3 list |
| TopRgb.PendingPass | src/main/java/com/seekfirst/toprgb/TopRgbTask.java:235-236 | a count no higher than entry `pos` goes on to `pos + 1` in the same pending state |
| TopRgb.DisplacedEntries | src/main/java/com/seekfirst/toprgb/TopRgbTask.java:216-232 | after `set` and the removal, where each entry came from |
| TopRgb.DisplacedOrdered | src/main/java/com/seekfirst/toprgb/TopRgbTask.java:216-232 | after the displacement the colours are distinct and the counts non-increasing |
| TopRgb.DisplacedKeeps | src/main/java/com/seekfirst/toprgb/TopRgbTask.java:216-232 | every other entry survives the displacement |
| TopRgb.DisplacedOutside | src/main/java/com/seekfirst/toprgb/TopRgbTask.java:216-232 | a colour outside the list after the displacement was outside it before or is the displaced one |
| TopRgb.PendingDisplace | src/main/java/com/seekfirst/toprgb/TopRgbTask.java:210-233 | a higher count takes slot `pos`, and the displaced entry continues at `pos + 1` in a pending state |
| TopRgb.UpdateRestores | src/main/java/com/seekfirst/toprgb/TopRgbTask.java:190-238 | from any pending state the walk ends without an exception, in a top-3 list of the new counts |
| TopRgb.UpdateKeepsTop | src/main/java/com/seekfirst/toprgb/TopRgbTask.java:171-184 | counting one more pixel and offering its count from position 0 turns a top-3 list of the old counts into one of the new |
| TopRgb.Absorb | src/main/java/com/seekfirst/toprgb/TopRgbTask.java:163-184 | an exception ends the scan for good, a pixel without a key throws, and the list stays within three entries |
| TopRgb.FeedFrom | src/main/java/com/seekfirst/toprgb/TopRgbTask.java:154-186 | a scan that has thrown stays thrown, and the list stays within three entries |
| TopRgb.Feed | src/main/java/com/seekfirst/toprgb/TopRgbTask.java:147-188 | the list of a whole scan has at most three entries |
| TopRgb.FeedFromThrown | src/main/java/com/seekfirst/toprgb/TopRgbTask.java:118-123 | once the scan has thrown, the rest of the pixels change nothing |
| TopRgb.FeedFromAppend | src/main/java/com/seekfirst/toprgb/TopRgbTask.java:154-186 | scanning one run of pixels and then another is scanning both |
| TopRgb.ColumnMajorAt | src/main/java/com/seekfirst/toprgb/TopRgbTask.java:154-163 | pixel `(x, y)` is visited at position `x * height + y` |
| TopRgb.ColumnMajorLength | src/main/java/com/seekfirst/toprgb/TopRgbTask.java:154-158 | the nested loops visit width times height pixels |
| TopRgb.FeedThrows | src/main/java/com/seekfirst/toprgb/TopRgbTask.java:163-169 | the scan throws exactly when some pixel has no key |
| TopRgb.FeedTop | src/main/java/com/seekfirst/toprgb/TopRgbTask.java:171-184 | until the scan throws, the list is a top-3 list of the counts |
| TopRgb.FeedCounts | src/main/java/com/seekfirst/toprgb/TopRgbTask.java:171-179 | until the scan throws, every key's count is the number of pixels with that key |
| TopRgb.FeedRanks | src/main/java/com/seekfirst/toprgb/TopRgbTask.java:190-197 | the list holds at most three distinct colours with their pixel counts, highest first, and no colour left out occurs more often than the third |
| TopRgb.AllListedWhenShort | src/main/java/com/seekfirst/toprgb/TopRgbTask.java:198-204 | with fewer than three entries, every colour that occurs is listed |
| TopRgb.Colors | src/main/java/com/seekfirst/toprgb/TopRgbTask.java:244-245 | the colours of the list, entry by entry |
| TopRgb.StrictTopDetermined | src/main/java/com/seekfirst/toprgb/TopRgbTask.java:147-238 | when three colours occur in strictly decreasing numbers above every other colour, the list names exactly those three in that order |
| TopRgb.StrictTopOf | src/main/java/com/seekfirst/toprgb/TopRgbTask.java:196 | a top-3 list of counts with three colours strictly above the rest holds them in order |
| TopRgb.ListedIfFrequent | src/main/java/com/seekfirst/toprgb/TopRgbTask.java:193-194 | each of three colours strictly above all others is listed |
| TopRgb.Row | src/main/java/com/seekfirst/toprgb/TopRgbTask.java:240-250 | the row starts with the URL and a comma and ends with a newline |
| TopRgb.RowFields | src/main/java/com/seekfirst/toprgb/TopRgbTask.java:240-250 | the row reads back, split at commas, as the URL followed by the listed colours |
| TopRgbTasks.CsvWriter.constructor | src/main/java/com/seekfirst/toprgb/TopRgbService.java:162 | the new output file is empty |
| TopRgbTasks.CountList.constructor | src/main/java/com/seekfirst/toprgb/TopRgbTask.java:104 | the new top list is empty |
| TopRgbTasks.TopRgbTask.constructor | src/main/java/com/seekfirst/toprgb/TopRgbTask.java:32-44 | a task holds its URL and writer, no halt, no write errors and an empty count map |
| TopRgbTasks.TopRgbTask.WriteToCSVFile | src/main/java/com/seekfirst/toprgb/TopRgbTask.java:129-145 | the text is appended, or a failed write adds one error and halts past five |
| TopRgbTasks.TopRgbTask.CheckChangeTopRgb | src/main/java/com/seekfirst/toprgb/TopRgbTask.java:190-238 | the recursive method throws exactly where `Update` is `None`, and otherwise leaves the list `Update` gives |
| TopRgbTasks.TopRgbTask.FindStale | src/main/java/com/seekfirst/toprgb/TopRgbTask.java:223-229 | the loop returns -1 or the first stale index, as `FirstStale` says |
| TopRgbTasks.TopRgbTask.ScanPixel | src/main/java/com/seekfirst/toprgb/TopRgbTask.java:163-184 | one pixel updates the map and the list as one scan step does |
| TopRgbTasks.TopRgbTask.FindTopRgb | src/main/java/com/seekfirst/toprgb/TopRgbTask.java:147-188 | the nested loops leave the state of the column-major scan of the whole image, or change nothing when halted |
| TopRgbTasks.TopRgbTask.ScanColumn | src/main/java/com/seekfirst/toprgb/TopRgbTask.java:158-184 | the inner loop over one column leaves the state of the scan extended by the rows it visited, all of them unless it halted or threw |
| TopRgbTasks.TopRgbTask.ScanRest | src/main/java/com/seekfirst/toprgb/TopRgbTask.java:118-123 | after a throw mid-image, the scan of the whole image is the scan so far |
| TopRgbTasks.TopRgbTask.WriteTopRgb | src/main/java/com/seekfirst/toprgb/TopRgbTask.java:240-252 | one row, the URL and the listed colours, is written or counted as a write error |
| TopRgbTasks.TopRgbTask.BuildRow | src/main/java/com/seekfirst/toprgb/TopRgbTask.java:241-249 | the `StringBuffer` loop builds the row: the URL, a comma, the colours comma-separated |
| TopRgbTasks.TopRgbTask.Process | src/main/java/com/seekfirst/toprgb/TopRgbTask.java:95-107 | an unreadable image writes nothing; otherwise the image is scanned and, unless the scan threw, its row is written with the write-error counter and `halt` unchanged, or the failed write is counted |
| TopRgbTasks.RowPrefixStep | src/main/java/com/seekfirst/toprgb/TopRgbTask.java:244-249 | each loop iteration extends the row by one colour and a comma before the next |
| TopRgbTasks.JoinSnoc | src/main/java/com/seekfirst/toprgb/TopRgbTask.java:246-248 | joining one more field appends a comma and the field |
| TopRgbTasks.PrefixOfColumnMajor | src/main/java/com/seekfirst/toprgb/TopRgbTask.java:154-163 | the pixels visited before `(column, row)` start the column-major order |
| TopRgbTests.WhiteKey | src/test/java/com/seekfirst/toprgb/TopRgbServiceTest.java:31 | an opaque white pixel has key `#ffffff` |
| TopRgbTests.WhiteOccurrences | src/test/java/com/seekfirst/toprgb/TopRgbServiceTest.java:17-34 | in an all-white image every pixel is `#ffffff` and no other colour occurs |
| TopRgbTests.OneColorImage | src/test/java/com/seekfirst/toprgb/TopRgbServiceTest.java:17-34 | an all-white image lists only `#ffffff`, with the pixel count |
| TopRgbTests.SingleColorTop | src/test/java/com/seekfirst/toprgb/TopRgbServiceTest.java:29-32 | with one colour counted, the list is that colour alone |
| TopRgbTests.ProminentFirst2Image | src/test/java/com/seekfirst/toprgb/TopRgbServiceTest.java:36-52 | white, black and `#fefefe` strictly above all others are listed in that order |
| TopRgbTests.FourColorImage | src/test/java/com/seekfirst/toprgb/TopRgbServiceTest.java:54-88 | `#69a84f`, `#ffff00`, `#fe0000` strictly above all others are listed in that order, whatever the layout |
| TopRgbTests.StaleCopyRemoved | src/main/java/com/seekfirst/toprgb/TopRgbTask.java:216-233 | a higher count for the last colour moves it to the front, removes its old entry and shifts the others |
| TopRgbTests.LowCountDropped | src/main/java/com/seekfirst/toprgb/TopRgbTask.java:235-237 | a count no higher than the third entry's leaves a full list unchanged |
| TopRgbTests.InsertPastEndThrows | src/main/java/com/seekfirst/toprgb/TopRgbTask.java:202-203 | `add` past the end of the list throws |
| TopRgbServices.CreateBufferedWriter | src/main/java/com/seekfirst/toprgb/TopRgbService.java:146-168 | the writer opens a file that did not exist, whose name starts with the configured name, and the configured name itself when it is free |
| TopRgbServices.PreviousOutputKept | src/main/java/com/seekfirst/toprgb/TopRgbService.java:151-162 | an existing output file is kept: the new name is the timestamped one, and opening fails only when that is taken too |
| TopRgbServices.OutputFilename | src/main/java/com/seekfirst/toprgb/TopRgbService.java:150-158 | the name starts with the configured name, and is that name exactly when no file of that name exists |
| TopRgbServices.Dispatch | src/main/java/com/seekfirst/toprgb/TopRgbService.java:91-112 | the loop submits the de-duplicated lines, and every line read is counted once as processed or skipped |
| TopRgbServices.Dedup | src/main/java/com/seekfirst/toprgb/TopRgbService.java:100-111 | no more URLs are submitted than lines are read |
| TopRgbServices.Start | src/main/java/com/seekfirst/toprgb/TopRgbService.java:72-112 | a thread count below one makes the pool constructor throw before anything else, a zero chunk size stops `start`, a sort that never ends never dispatches, no writer means no URL is read, and otherwise the sorted file is dispatched |
| TopRgbServices.DedupNoRepeats | src/main/java/com/seekfirst/toprgb/TopRgbService.java:100-108 | no URL is submitted twice in a row, and the first differs from the initial `""` |
| TopRgbServices.DedupCovers | src/main/java/com/seekfirst/toprgb/TopRgbService.java:101-111 | only lines of the file are submitted, and every line other than the initial one is submitted at least once |
| TopRgbServices.DedupOfSorted | src/main/java/com/seekfirst/toprgb/TopRgbService.java:101-111 | on a sorted file the submissions are strictly ascending, and the initial line is never submitted |
| TopRgbServices.SortedDispatch | src/main/java/com/seekfirst/toprgb/TopRgbService.java:99-111 | on a sorted file each distinct non-empty line is submitted exactly once, in order, and empty lines never |
| TopRgbServices.SmallInputDispatch | src/main/java/com/seekfirst/toprgb/TopRgbService.java:82-112 | when the input fits one chunk, `start` submits each distinct non-empty URL exactly once, in ascending order |

## Left out

- Network access, redirects, the download retry loop and `ImageIO.read` are outside the model. `run` begins, in the model, with the image already read, or with none when the reader returned null.
- Thread pools, `submit`, `shutdown` and `awaitTermination` are not modelled. Each chunk sort is complete before the merge, and a submitted task is its URL appended to the dispatch list. The tasks' concurrent writes to the shared CSV writer are not modelled.
- I/O failures are not modelled: opening, reading and writing temporary files, `createTempFile` failing (which ends `createSortedFile` with a null pointer), and closing the readers. The exception is the CSV write, whose failure is a parameter.
- Logging and timing are not modelled. The timestamp of the output name is a parameter.
- Command-line parsing is not modelled. `Configuration` is a record of the four values `start` reads: the thread count, the input file, the chunk size and the output name. The thread count may be 0, which `-t 0` leaves in place of the field's initial value, or negative; `start` rejects both (`TopRgbServices.Start`).
- The model has no notion of a file name, only of the set of existing names; the name of the temporary sorted file is not modelled.
- `SplitPhase.BreakDownFile`, `ExternalSorters.ExternalSorter.Sort`, `TopRgbServices.Start`: these require every line to be shorter than 2^30 characters. Otherwise `length() * 2` overflows a Java `int`, which is not modelled.
- Lines are compared character by character, and a Dafny character is a Unicode scalar value, not a UTF-16 code unit. The model's order agrees with `String.compareTo` only on text without supplementary characters, which Java stores as surrogate pairs.
- `FileReader` getters and setters other than `getEOF` and `getCurrentLine`, and its file name, are not modelled: nothing in the sort reads them.
- `CountPairs.CountPair`: a pair is a value with non-null fields, and its count is an unbounded integer, not a `Long`. The setters are pure functions; `checkChangeTopRgb` only ever replaces list entries with `set`, so nothing sees a pair mutated in place.
- `TopRgbTasks.TopRgbTask.CheckChangeTopRgb`: after an exception, the contents of the list are left unspecified. The exception ends `run` before the list is read.
- `TopRgbTasks.TopRgbTask.FindTopRgb`: after an exception, the list and map contents are left unspecified beyond what the scan so far defines.
- The list passed to `findTopRgb` is a separate object from the task. Aliasing between the list and the task is not modelled.
- `TopRgbTasks.TopRgbTask.WriteTopRgb`: a null entry in the list is written as an empty field by the source. The list never holds null, so the model has no null entries.
- `TopRgbTasks.TopRgbTask.WriteToCSVFile`: a failed write appends nothing; a partial write before the failure is not modelled.
- `TopRgbTasks.TopRgbTask.Process`: the output file is taken to be the task's own writer text. Rows of other tasks, written to the same file, are not modelled.
- `MergePhase.ExternalSort`: the merge loop that never ends (no chunk file) is the result `None`, not a method that does not return.
- `TopRgbServices.Start`: the executor's shutdown and the final `flush` and `close` are not modelled, so the rows written by the tasks are not part of its result.
