/** The external merge sort proper (PerformExternalMergeSort): split the
    sorted-series file into two part files, and while both parts hold
    records, merge them and split the merged file again; the non-empty part
    is the sorted output. Also the whole program's pipeline: series
    generation followed by the merge sort. */
module MergeDriver {
  import opened Stages
  import opened Sorting
  import opened NaturalSplit
  import opened RunMerge
  import opened RunGeneration

  /** A file of no bytes holds no line. */
  function IsEmptyFile(f: seq<Entry>): bool {
    |f| == 0
  }

  /** The loop guard: part 1 is never empty, and part 2 is empty exactly
      when the split file was already sorted. */
  lemma PartsEmptiness(m: seq<int>)
    ensures !IsEmptyFile(Split(m).0)
    ensures IsEmptyFile(Split(m).1) <==> Sorted(m)
  {
    SplitFirstNonEmpty(m);
    SplitSorted(m);
  }

  /** The merged file one pass of the loop makes of the file `m`. */
  ghost function Pass(m: seq<int>): seq<int> {
    var (a, b) := Deal(Runs(m));
    Flatten(PairMerge(a, b))
  }

  /** A pass neither loses nor duplicates a record. */
  lemma PassKeepsRecords(m: seq<int>)
    ensures multiset(Pass(m)) == multiset(m)
  {
    var (a, b) := Deal(Runs(m));
    SplitShape(m);
    RunsFlatten(m);
    DealRecords(Runs(m));
    PairMergeShape(a, b);
  }

  /** A pass at least halves the number of descents, so the loop ends after
      about log2 of the initial number of runs passes. */
  lemma PassShrinks(m: seq<int>)
    requires !Sorted(m)
    ensures Descents(Pass(m)) <= Descents(m) / 2 < Descents(m)
  {
    var rs := Runs(m);
    var (a, b) := Deal(rs);
    RunsCount(m);
    DescentsSorted(m);
    DealShape(rs);
    SplitShape(m);
    PairMergeShape(a, b);
    DescentsFlatten(PairMerge(a, b));
  }

  /** The records `m` in ascending order are the sort of any file holding
      the same records. */
  lemma SortedIsSort(m: seq<int>, s: seq<int>)
    requires Sorted(m) && multiset(m) == multiset(s)
    ensures m == SortSeq(s)
  {
    SortSeqSorted(s);
    SortedUnique(m, SortSeq(s));
  }

  /** Sorts the sorted-series file `stage` (`None` when it does not exist)
      into the output file: its records in ascending order, followed by the
      marker that closes the single run. */
  method PerformExternalMergeSort(stage: Option<seq<int>>) returns (r: Result<seq<Entry>>)
    ensures stage.None? ==> r == Err(MissingFile)
    ensures stage.Some? ==> r == Ok(Nums(SortSeq(stage.value)) + [Marker])
  {
    if stage.None? {
      return Err(MissingFile);
    }
    var part1, part2 := SplitFileNaturally(stage.value);
    ghost var m := stage.value;   // the file the parts were split from
    while !IsEmptyFile(part1) && !IsEmptyFile(part2)
      invariant (part1, part2) == Split(m)
      invariant multiset(m) == multiset(stage.value)
      decreases Descents(m)
    {
      PartsEmptiness(m);
      SplitShape(m);
      ghost var a, b := Deal(Runs(m)).0, Deal(Runs(m)).1;
      var merged := MergeFiles(part1, part2, a, b);
      PassKeepsRecords(m);
      PassShrinks(m);
      m := merged;
      part1, part2 := SplitFileNaturally(merged);
    }
    PartsEmptiness(m);
    SplitSorted(m);
    SortedIsSort(m, stage.value);
    var output := if IsEmptyFile(part1) then part2 else part1;
    return Ok(output);
  }

  /** The program: sorted series are generated from the raw input into the
      sorted-series file `stage` (`None` when it does not exist yet), which is
      then merge-sorted into the output file. A malformed line stops it
      before the merge sort; without input and without an existing series
      file there is no file to sort. Otherwise the output is every record of
      the series file and of the input in ascending order, whatever the
      series size limit. */
  method SortFile(input: seq<RawLine>, maxSeriesSize: int, stage: Option<seq<int>>) returns (r: Result<seq<Entry>>)
    ensures (r.Err? && r.error.MalformedRecord?) <==> exists k :: 0 <= k < |input| && !Parses(input[k])
    ensures r.Err? && r.error.MalformedRecord? ==> FirstMalformed(input, r.error.line)
    ensures r == Err(MissingFile) <==> input == [] && stage.None?
    ensures r.Ok? ==> && (forall k :: 0 <= k < |input| ==> Parses(input[k]))
                      && r.value == Nums(SortSeq(Contents(stage) + Values(input))) + [Marker]
  {
    var series := ModSeriesSort(input, maxSeriesSize, stage);
    if series.Err? {
      return Err(series.error);
    }
    SeriesRecords(input, stage, maxSeriesSize);
    r := PerformExternalMergeSort(series.value);
    if r.Ok? {
      var s := Contents(series.value);
      SortSeqSorted(s);
      SortedIsSort(SortSeq(s), Contents(stage) + Values(input));
    }
  }
}
