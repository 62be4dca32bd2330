# Natural-merge external sort, modelled in Dafny

This project models a two-way natural-merge external sort of a file of
integers, one per line (`Program.cs`). The sort has four phases.

- **Run generation** (`ModSeriesSort`, `AppendBufferToFile`). Records are
  read into a buffer. Each record costs 4 bytes of the series budget.
  When the budget is reached, the buffer is sorted, appended to the
  sorted-series file `TempInput.txt` and cleared.
- **Natural split** (`SplitFileNaturally`). The records of a file are dealt
  to two part files run by run, where a run is a maximal ascending stretch.
  At each descent a `---` marker closes the run and writing switches to the
  other part. One final marker always closes the last run.
- **Run merge** (`MergeFiles`, `ReadNextEntry`, `AppendRemainingEntries`).
  The i-th runs of the two part files are merged into one run, with ties
  taken from part 1. When one run ends, the rest of the other is copied.
  Runs without a partner are copied as they are. The merged file holds
  records only.
- **Driver** (`PerformExternalMergeSort`, `IsEmptyFile`). It splits the
  series file. While both parts hold lines, it merges them and splits the
  merged file again. Finally it copies the non-empty part to the output.

Files are values:
- the raw input is a `seq<RawLine>`, where a line is a decimal integer or
  not a number;
- the series file and the merged file are `seq<int>`, because only the
  sort writes them;
- a part file is a `seq<Entry>`, where an entry is `Num(v)` or `Marker`
  (the `---` line).

A file that may not exist is an `Option`. Each routine is a method with
the source's loop, proved against a specification function:
- `Series` for run generation;
- `Split` (built from `Runs` and `Deal`) for the split;
- `Flatten(PairMerge(..))` for the merge;
- `Nums(SortSeq(..)) + [Marker]` for the whole sort.

Lemmas then prove what those functions promise: sorted runs, records kept
exactly once, one marker per run, alternation, a halving run count, and
the uniqueness of the sorted result.

Modules:
- `Stages` (`stages.dfy`): lines, entries and the framing of runs;
- `Sorting` (`sorting.dfy`): the sort a buffer gets;
- `RunGeneration` (`run_generation.dfy`);
- `NaturalSplit` (`natural_split.dfy`);
- `RunMerge` (`run_merge.dfy`);
- `MergeDriver` (`merge_driver.dfy`).

## Behaviour of the program

- **Trailing marker in the output.** The output is the last part file, so
  it ends with a `---` line after the sorted records (Program.cs:147,
  Program.cs:57).
- **Empty input.** Empty input with no earlier series file never creates
  `TempInput.txt` (Program.cs:93). The first split then fails on a missing
  file, and the model returns `Err(MissingFile)`.
- **Series file in append mode.** The series file is opened for appending
  (Program.cs:105). Earlier contents are sorted together with the new
  input; the model takes them as the `stage` parameter.

## Model

| member | source | states |
|---|---|---|
| Sorting.SortSeqSorted | Program.cs:85 | The buffer after `Sort` is in ascending order and a permutation of the buffer before it. |
| Sorting.SortedUnique | Program.cs:95 | Two ascending sequences with the same records are equal, so any correct sort of a buffer gives the same series. |
| RunGeneration.FlushPoint | Program.cs:79-83 | Charging 4 per record, the counter reaches the budget exactly when the buffer holds `ChunkSize(maxSeriesSize)` records (the budget divided by 4 and rounded up, at least 1). |
| RunGeneration.SortedChunksShape | Program.cs:79-97 | Each series written is sorted and non-empty. All series but the last hold exactly the chunk size, and the last holds at most that. Together they hold exactly the input records. No input means no series. |
| RunGeneration.AppendBufferToFile | Program.cs:103-112 | The file afterwards is its old contents (none if it did not exist) followed by the buffer's records in order. |
| RunGeneration.ModSeriesSort | Program.cs:67-100 | Fails exactly when some line is not a 32-bit integer, and then reports the first such line. Otherwise the series file is its old contents followed by the sorted chunks in input order. |
| RunGeneration.SeriesRecords | Program.cs:76-97 | The series file exists afterwards exactly when it existed before or there was input. It holds its old records and every input record, each exactly once. |
| NaturalSplit.RunsFlatten | Program.cs:128-145 | The runs written back to back give the file's records, each once and in file order. |
| NaturalSplit.RunsSorted | Program.cs:132-134 | Every run is non-decreasing, and no run of a non-empty file is empty. |
| NaturalSplit.RunsMaximal | Program.cs:136-141 | A new run starts only at a record below its predecessor, so every run after the first starts below the end of the run before it. |
| NaturalSplit.RunsCount | Program.cs:136-147 | There is one run more than there are descents. |
| NaturalSplit.DescentsSorted | Program.cs:132 | A file has no descent exactly when it is sorted. |
| NaturalSplit.DealShape | Program.cs:136-140 | Runs alternate, starting with part 1: part 1 gets runs 0, 2, 4, … and part 2 gets runs 1, 3, 5, …. So part 1 has as many runs as part 2 or one more. |
| NaturalSplit.DealRecords | Program.cs:134-140 | Dealing the runs to the two parts neither loses nor duplicates a record. |
| NaturalSplit.SplitShape | Program.cs:128-147 | In each part the records between markers are non-decreasing, and non-empty for a non-empty file. The parts together carry exactly the file's records. Markers total descents plus one, and part 1 has as many as part 2 or one more. |
| NaturalSplit.SplitFirstNonEmpty | Program.cs:124-147 | Part 1 is never empty: it receives at least the final marker, even for an empty file. |
| NaturalSplit.SplitSorted | Program.cs:124-147 | Part 2 stays empty exactly when the file is sorted, and then part 1 is the file followed by one marker. |
| NaturalSplit.SplitFileNaturally | Program.cs:117-149 | The two part files written are exactly `Split(input)`: the runs dealt alternately, each closed by a marker. |
| RunMerge.ReadNextEntry | Program.cs:198-204 | End of file and a `---` line both give no record, but only end of file sets the end flag. A record line gives its value. The reader advances unless already at the end. |
| RunMerge.ReadAtRunStart | Program.cs:198-204 | A reader at the start of the remaining runs of a part file either gets the first record of the next run or reaches end of file when no run is left. |
| RunMerge.ReadInsideRun | Program.cs:198-204 | After a record, the next read gives the run's next record, or no record (not end of file) at the run's marker. |
| RunMerge.AppendRemainingEntries | Program.cs:207-230 | Copies the records up to the first marker, which is consumed and not written, or up to the end of a file without one. |
| RunMerge.RestOfRun | Program.cs:213-215 | Copying after a run's current record copies exactly the rest of that run, and the reader is left at the start of the next run. |
| RunMerge.MergePermutes | Program.cs:179-188 | Merging two runs neither loses nor duplicates a record. |
| RunMerge.MergeSorted | Program.cs:179-188 | Merging two sorted runs gives a sorted run. |
| RunMerge.MergeIsSort | Program.cs:179-188 | Merging two sorted runs is the same as sorting their records together. |
| RunMerge.PairMergeShape | Program.cs:161-190 | The merged file has one sorted run per run of the part with more runs, and together they hold all records of both parts. |
| RunMerge.TakeFirst | Program.cs:179-183 | When part 1's current record is not above part 2's, it is the next record of the merge. |
| RunMerge.TakeSecond | Program.cs:184-188 | When part 2's current record is below part 1's, it is the next record of the merge. |
| RunMerge.FirstRunDone | Program.cs:163-169 | When part 1's current run is over (or the part is exhausted), the next output is the whole current run of part 2. |
| RunMerge.SecondRunDone | Program.cs:170-176 | When part 2's current run is over (or the part is exhausted), the next output is the whole current run of part 1. |
| RunMerge.FirstIsBetweenRuns | Program.cs:163-169 | The branch keeps the loop invariant and strictly reduces the lines still to be read. |
| RunMerge.SecondIsBetweenRuns | Program.cs:170-176 | The branch keeps the loop invariant and strictly reduces the lines still to be read. |
| RunMerge.FirstIsSmaller | Program.cs:179-183 | The branch keeps the loop invariant and strictly reduces the lines still to be read. |
| RunMerge.SecondIsSmaller | Program.cs:184-188 | The branch keeps the loop invariant and strictly reduces the lines still to be read. |
| RunMerge.MergeFiles | Program.cs:152-195 | For part files as the split writes them, the merged file is the pairwise merge of their runs, with leftover runs appended and no markers. Both readers being between runs at once while neither is at end of file cannot happen. |
| MergeDriver.PartsEmptiness | Program.cs:232-235 | `IsEmptyFile(f)` holds exactly when `f` has no line. Applied to the parts, as the loop guard (Program.cs:50) and the final copy (Program.cs:57) do: part 1 is never empty, and part 2 is empty exactly when the file just split is sorted. |
| MergeDriver.PassKeepsRecords | Program.cs:53-54 | A merge pass keeps every record exactly once. |
| MergeDriver.PassShrinks | Program.cs:50-55 | A merge pass at least halves the number of descents, so the loop ends. |
| MergeDriver.PerformExternalMergeSort | Program.cs:42-62 | A missing series file is an error. Otherwise the output is the series file's records in ascending order followed by one marker. |
| MergeDriver.SortFile | Program.cs:17-20 | The program fails on the first malformed line, and fails on a missing file exactly when there is no input and no earlier series file. Otherwise it outputs the earlier and the new records in ascending order, plus the final marker, whatever the series budget. |

## Left out

- `CreateTestFile`, the stopwatch and console output of `Main`: test-data generation and timing, with no effect on the sort.
- The deletion of `TempInput.txt`, the part files and the merged file (Program.cs:22, Program.cs:59-61). Temporary files are values in the model and are simply dropped.
- I/O failures other than the missing series file (permissions, full disk, a missing raw input file). The model has no file system.
- `IsEmptyFile` counts bytes. The model counts lines, which is the same here because every line written ends with a newline.
- `int.Parse` is abstracted to `RawLine`: a line either spells an integer or does not. Whitespace and sign rules of the parser are not modelled.
- The split's own `int.Parse` (Program.cs:130) never fails in the model. The series file is a `seq<int>`, so records left in it by an earlier run are taken to be integers.
- RunGeneration.ModSeriesSort: on a malformed line it returns only the error. The series already appended to the file before that line are not part of the result.
- The 8192-character `StringBuilder` batching in `AppendRemainingEntries` (Program.cs:209-229). It only groups writes; the lines written are the same.
- `List<int>.Sort` is modelled by an insertion sort (`SortSeq`). `SortedUnique` shows that every correct sort of integers gives the same sequence.
- RunMerge.MergeFiles: requires part files of the shape the split writes, with each run non-empty and closed by a marker. On other files the source can write empty lines (a `null` written when neither reader holds a record and at least one is not at end of file), and that behaviour is not modelled.
- The calls to `AppendRemainingEntries` after the merge loop (Program.cs:192-193) are not modelled. The loop exits only when both files are at end of file, so they never copy anything.
- The `long` counter of `ModSeriesSort` cannot overflow. It is reset once it reaches the `int` budget, so plain integers model it exactly.
