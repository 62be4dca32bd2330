/** Run generation (ModSeriesSort and AppendBufferToFile): the raw input is
    read into a bounded buffer, every full buffer is sorted and appended to
    the sorted-series file `TempInput.txt`, and a last partial buffer is
    flushed the same way at end of input. */
module RunGeneration {
  import opened Stages
  import opened Sorting

  /** The budget charged per buffered record: sizeof(int). */
  const RECORD_SIZE: nat := 4

  /** The number of records a buffer holds when it is flushed: the least
      positive count whose charge reaches the budget. */
  function ChunkSize(maxSeriesSize: int): (n: nat)
    ensures n >= 1
  {
    if maxSeriesSize <= RECORD_SIZE then 1
    else (maxSeriesSize + RECORD_SIZE - 1) / RECORD_SIZE
  }

  /** A buffer of `b` records has reached the budget exactly when it holds at
      least ChunkSize(maxSeriesSize) records. */
  lemma FlushPoint(maxSeriesSize: int, b: nat)
    requires b >= 1
    ensures RECORD_SIZE * b >= maxSeriesSize <==> b >= ChunkSize(maxSeriesSize)
  {
    var n := ChunkSize(maxSeriesSize);
    if maxSeriesSize > RECORD_SIZE {
      assert RECORD_SIZE * n >= maxSeriesSize;
      assert RECORD_SIZE * (n - 1) < maxSeriesSize;
      if b >= n {
        assert RECORD_SIZE * b >= RECORD_SIZE * n;
      } else {
        assert RECORD_SIZE * b <= RECORD_SIZE * (n - 1);
      }
    }
  }

  /** The integers of input lines that all parse. */
  function Values(lines: seq<RawLine>): (xs: seq<int>)
    requires forall k :: 0 <= k < |lines| ==> Parses(lines[k])
  {
    seq(|lines|, k requires 0 <= k < |lines| => if lines[k].Decimal? then lines[k].value else 0)
  }

  /** `k` is the first line of `input` that int.Parse rejects. */
  predicate FirstMalformed(input: seq<RawLine>, k: nat) {
    k < |input| && !Parses(input[k]) && forall j :: 0 <= j < k ==> Parses(input[j])
  }

  /** `xs` cut into consecutive chunks of `n` records; the last chunk may be
      shorter. */
  function Chunks(xs: seq<int>, n: nat): seq<seq<int>>
    requires n >= 1
    decreases |xs|
  {
    if xs == [] then []
    else if |xs| <= n then [xs]
    else [xs[..n]] + Chunks(xs[n..], n)
  }

  /** Each chunk sorted, as the buffer is sorted before it is flushed. */
  function SortEach(cs: seq<seq<int>>): (rs: seq<seq<int>>)
    ensures |rs| == |cs|
  {
    seq(|cs|, i requires 0 <= i < |cs| => SortSeq(cs[i]))
  }

  /** The runs written for records `xs` with buffers of `n` records. */
  function SortedChunks(xs: seq<int>, n: nat): seq<seq<int>>
    requires n >= 1
  {
    SortEach(Chunks(xs, n))
  }

  /** What the sorted-series file holds after `runs` were appended to it; a
      file that did not exist is created by the first append only. */
  function StageAfter(stage: Option<seq<int>>, runs: seq<seq<int>>): Option<seq<int>> {
    if runs == [] then stage else Some(Contents(stage) + Flatten(runs))
  }

  /** What reading a possibly missing file appends to (nothing, if missing). */
  function Contents(file: Option<seq<int>>): seq<int> {
    if file.Some? then file.value else []
  }

  /** All chunks but the last hold exactly `n` records and the last at most
      `n`, none is empty, and together they are `xs`. */
  lemma {:induction false} ChunksShape(xs: seq<int>, n: nat)
    requires n >= 1
    ensures var cs := Chunks(xs, n);
      && (cs == [] <==> xs == [])
      && (forall i :: 0 <= i < |cs| ==> 0 < |cs[i]| <= n)
      && (forall i :: 0 <= i < |cs| - 1 ==> |cs[i]| == n)
      && Flatten(cs) == xs
    decreases |xs|
  {
    var cs := Chunks(xs, n);
    if xs == [] {
    } else if |xs| <= n {
      assert cs == [xs];
      assert Flatten(cs) == xs + Flatten([]);
    } else {
      ChunksShape(xs[n..], n);
      var tail := Chunks(xs[n..], n);
      assert cs == [xs[..n]] + tail;
      assert cs[1..] == tail;
      forall i | 0 <= i < |cs| ensures 0 < |cs[i]| <= n {
        if i > 0 { assert cs[i] == tail[i - 1]; }
      }
      assert xs == xs[..n] + xs[n..];
    }
  }

  lemma {:induction false} SortEachFlatten(cs: seq<seq<int>>)
    ensures multiset(Flatten(SortEach(cs))) == multiset(Flatten(cs))
  {
    if cs != [] {
      assert SortEach(cs) == [SortSeq(cs[0])] + SortEach(cs[1..]);
      SortSeqSorted(cs[0]);
      SortEachFlatten(cs[1..]);
    }
  }

  /** The series written: every run is sorted and non-empty; all runs but the
      last hold exactly `n` records and the last at most `n`; together the
      runs hold exactly the records of `xs`; no input, no runs. */
  lemma SortedChunksShape(xs: seq<int>, n: nat)
    requires n >= 1
    ensures var rs := SortedChunks(xs, n);
      && (rs == [] <==> xs == [])
      && (forall i :: 0 <= i < |rs| ==> Sorted(rs[i]) && 0 < |rs[i]| <= n)
      && (forall i :: 0 <= i < |rs| - 1 ==> |rs[i]| == n)
      && multiset(Flatten(rs)) == multiset(xs)
  {
    var cs := Chunks(xs, n);
    ChunksShape(xs, n);
    SortEachFlatten(cs);
    forall i | 0 <= i < |cs| ensures Sorted(SortSeq(cs[i])) && |SortSeq(cs[i])| == |cs[i]| {
      SortSeqSorted(cs[i]);
      assert |multiset(SortSeq(cs[i]))| == |multiset(cs[i])|;
    }
  }

  /** `x` records fill whole buffers of `n` records. */
  predicate WholeChunks(x: nat, n: nat)
    requires n >= 1
    decreases x
  {
    x == 0 || (x >= n && WholeChunks(x - n, n))
  }

  /** Cutting off a prefix of whole chunks cuts the same chunks. */
  lemma {:induction false} ChunksAppend(a: seq<int>, b: seq<int>, n: nat)
    requires n >= 1 && WholeChunks(|a|, n)
    ensures Chunks(a + b, n) == Chunks(a, n) + Chunks(b, n)
    decreases |a|
  {
    if |a| == 0 {
      assert a == [] && a + b == b;
    } else {
      if |a| == n {
        assert Chunks(a, n) == [a];
        if b != [] {
          assert (a + b)[..n] == a && (a + b)[n..] == b;
        } else {
          assert a + b == a;
        }
      } else {
        assert |a| > n;
        assert (a + b)[..n] == a[..n];
        assert (a + b)[n..] == a[n..] + b;
        ChunksAppend(a[n..], b, n);
      }
    }
  }

  /** Flushing one more buffer of `|b|` records (`0 < |b| <= n`) after `k` full
      ones appends its sorted records as one more run. */
  lemma SortedChunksSnoc(a: seq<int>, b: seq<int>, n: nat)
    requires n >= 1 && WholeChunks(|a|, n) && 0 < |b| <= n
    ensures SortedChunks(a + b, n) == SortedChunks(a, n) + [SortSeq(b)]
  {
    ChunksAppend(a, b, n);
    assert Chunks(b, n) == [b];
    SortEachAppend(Chunks(a, n), [b]);
    assert SortEach([b]) == [SortSeq(b)];
    assert SortedChunks(a + b, n) == SortEach(Chunks(a, n) + [b]);
  }

  lemma SortEachAppend(x: seq<seq<int>>, y: seq<seq<int>>)
    ensures SortEach(x + y) == SortEach(x) + SortEach(y)
  {
    var l, r := SortEach(x + y), SortEach(x) + SortEach(y);
    forall i | 0 <= i < |l| ensures l[i] == r[i] {
      if i < |x| { assert (x + y)[i] == x[i]; } else { assert (x + y)[i] == y[i - |x|]; }
    }
  }

  lemma StageAfterSnoc(stage: Option<seq<int>>, runs: seq<seq<int>>, run: seq<int>)
    ensures StageAfter(stage, runs + [run]) == Some(Contents(StageAfter(stage, runs)) + run)
  {
    FlattenAppend(runs, [run]);
    assert Flatten([run]) == run + Flatten([]);
    assert Flatten([run]) == run;
    var c, f := Contents(stage), Flatten(runs);
    assert Flatten(runs + [run]) == f + run;
    if runs == [] {
      assert runs + [run] == [run];
    } else {
      assert runs + [run] != [];
      assert Contents(StageAfter(stage, runs)) == c + f;
      assert c + (f + run) == (c + f) + run;
    }
  }

  /** Flushing the buffer `chunk` after the records `done` (k full buffers)
      appends its records, sorted, to the sorted-series file. */
  lemma Flushed(stage: Option<seq<int>>, file: Option<seq<int>>, done: seq<int>, chunk: seq<int>, n: nat)
    requires n >= 1 && WholeChunks(|done|, n) && 0 < |chunk| <= n
    requires file == StageAfter(stage, SortedChunks(done, n))
    ensures StageAfter(stage, SortedChunks(done + chunk, n)) == Some(Contents(file) + SortSeq(chunk))
    ensures |chunk| == n ==> WholeChunks(|done + chunk|, n)
  {
    SortedChunksSnoc(done, chunk, n);
    StageAfterSnoc(stage, SortedChunks(done, n), SortSeq(chunk));
  }

  /** Appends the records of `buffer` to a file opened in append mode; the
      file is created if it did not exist. */
  method AppendBufferToFile(buffer: seq<int>, file: Option<seq<int>>) returns (written: seq<int>)
    ensures written == Contents(file) + buffer
  {
    written := Contents(file);
    for i := 0 to |buffer|
      invariant written == Contents(file) + buffer[..i]
    {
      written := written + [buffer[i]];
    }
  }

  /** One more line that parses adds its integer at the end. */
  lemma ValuesSnoc(input: seq<RawLine>, i: nat)
    requires i < |input| && forall k :: 0 <= k <= i ==> Parses(input[k])
    ensures Values(input[..i + 1]) == Values(input[..i]) + [input[i].value]
  {
    assert input[..i + 1][..i] == input[..i];
  }

  /** The generator's state after reading `i` lines: the records flushed so
      far (`done`, whole buffers) followed by the buffered ones are the
      integers of those lines, and the sorted-series file holds the runs of
      `done`. */
  ghost predicate Reading(input: seq<RawLine>, i: nat, stage: Option<seq<int>>, n: nat,
                          done: seq<int>, buffer: seq<int>, file: Option<seq<int>>)
  {
    && n >= 1 && i <= |input|
    && (forall k :: 0 <= k < i ==> Parses(input[k]))
    && |buffer| < n && WholeChunks(|done|, n)
    && Values(input[..i]) == done + buffer
    && file == StageAfter(stage, SortedChunks(done, n))
  }

  /** Reading one more line that parses, with the buffer still below the
      budget, keeps the state. */
  lemma Buffered(input: seq<RawLine>, i: nat, stage: Option<seq<int>>, maxSeriesSize: int,
                 done: seq<int>, buffer: seq<int>, file: Option<seq<int>>)
    requires Reading(input, i, stage, ChunkSize(maxSeriesSize), done, buffer, file)
    requires i < |input| && Parses(input[i])
    requires RECORD_SIZE * (|buffer| + 1) < maxSeriesSize
    ensures Reading(input, i + 1, stage, ChunkSize(maxSeriesSize), done, buffer + [input[i].value], file)
  {
    FlushPoint(maxSeriesSize, |buffer| + 1);
    ValuesSnoc(input, i);
  }

  /** Reading one more line that parses and brings the buffer to the budget,
      then appending the sorted buffer to the file, keeps the state with an
      empty buffer. */
  lemma Flushes(input: seq<RawLine>, i: nat, stage: Option<seq<int>>, maxSeriesSize: int,
                done: seq<int>, buffer: seq<int>, file: Option<seq<int>>, written: seq<int>)
    requires Reading(input, i, stage, ChunkSize(maxSeriesSize), done, buffer, file)
    requires i < |input| && Parses(input[i])
    requires RECORD_SIZE * (|buffer| + 1) >= maxSeriesSize
    requires written == Contents(file) + SortSeq(buffer + [input[i].value])
    ensures Reading(input, i + 1, stage, ChunkSize(maxSeriesSize), done + (buffer + [input[i].value]), [], Some(written))
  {
    var b, n := buffer + [input[i].value], ChunkSize(maxSeriesSize);
    FlushPoint(maxSeriesSize, |b|);
    ValuesSnoc(input, i);
    Flushed(stage, file, done, b, n);
    assert done + b + [] == done + b;
  }

  /** What the sorted-series file holds once all of `input` is read: what it
      held before, followed by the records in buffers of
      ChunkSize(maxSeriesSize), each buffer sorted. */
  ghost function Series(input: seq<RawLine>, stage: Option<seq<int>>, maxSeriesSize: int): Option<seq<int>>
    requires forall k :: 0 <= k < |input| ==> Parses(input[k])
  {
    StageAfter(stage, SortedChunks(Values(input), ChunkSize(maxSeriesSize)))
  }

  /** The sorted-series file exists afterwards exactly when it existed before
      or there was input, and it holds what it held before together with
      every input record, each exactly once. */
  lemma SeriesRecords(input: seq<RawLine>, stage: Option<seq<int>>, maxSeriesSize: int)
    requires forall k :: 0 <= k < |input| ==> Parses(input[k])
    ensures Series(input, stage, maxSeriesSize).None? <==> stage.None? && input == []
    ensures multiset(Contents(Series(input, stage, maxSeriesSize))) == multiset(Contents(stage) + Values(input))
  {
    SortedChunksShape(Values(input), ChunkSize(maxSeriesSize));
  }

  /** At end of input, appending the last, partial buffer (if any) completes
      the series. */
  lemma Finished(input: seq<RawLine>, stage: Option<seq<int>>, maxSeriesSize: int,
                 done: seq<int>, buffer: seq<int>, file: Option<seq<int>>, result: Option<seq<int>>)
    requires Reading(input, |input|, stage, ChunkSize(maxSeriesSize), done, buffer, file)
    requires result == if |buffer| > 0 then Some(Contents(file) + SortSeq(buffer)) else file
    ensures forall k :: 0 <= k < |input| ==> Parses(input[k])
    ensures result == Series(input, stage, maxSeriesSize)
  {
    assert input[..|input|] == input;
    if |buffer| > 0 {
      Flushed(stage, file, done, buffer, ChunkSize(maxSeriesSize));
    } else {
      assert done + buffer == done;
    }
  }

  /** Reads the raw input, writing sorted series of ChunkSize(maxSeriesSize)
      records to the sorted-series file `stage` (opened in append mode, so
      anything already in it stays in front). Fails on the first line that
      is not a 32-bit integer. */
  method ModSeriesSort(input: seq<RawLine>, maxSeriesSize: int, stage: Option<seq<int>>)
    returns (r: Result<Option<seq<int>>>)
    ensures r.Err? <==> exists k :: 0 <= k < |input| && !Parses(input[k])
    ensures r.Err? ==> r.error.MalformedRecord? && FirstMalformed(input, r.error.line)
    ensures r.Ok? ==> r.value == Series(input, stage, maxSeriesSize)
  {
    ghost var n := ChunkSize(maxSeriesSize);
    var tempFile := stage;
    var buffer: seq<int> := [];
    var currentBufferSize := 0;
    var i := 0;
    ghost var done: seq<int> := [];          // the records already flushed
    while i < |input|
      invariant Reading(input, i, stage, n, done, buffer, tempFile)
      invariant currentBufferSize == RECORD_SIZE * |buffer|
    {
      if !Parses(input[i]) {
        return Err(MalformedRecord(i));
      }
      var number := input[i].value;
      ghost var before := buffer;
      buffer := buffer + [number];
      currentBufferSize := currentBufferSize + RECORD_SIZE;
      if currentBufferSize >= maxSeriesSize {
        buffer := SortSeq(buffer);
        var written := AppendBufferToFile(buffer, tempFile);
        Flushes(input, i, stage, maxSeriesSize, done, before, tempFile, written);
        done := done + (before + [number]);
        tempFile := Some(written);
        buffer := [];
        currentBufferSize := 0;
      } else {
        Buffered(input, i, stage, maxSeriesSize, done, before, tempFile);
      }
      i := i + 1;
    }
    ghost var last, before := buffer, tempFile;
    if |buffer| > 0 {
      buffer := SortSeq(buffer);
      var written := AppendBufferToFile(buffer, tempFile);
      tempFile := Some(written);
    }
    Finished(input, stage, maxSeriesSize, done, last, before, tempFile);
    return Ok(tempFile);
  }
}
