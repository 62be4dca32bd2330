/** The run merge (MergeFiles with ReadNextEntry and AppendRemainingEntries):
    the i-th run of part file 1 is merged with the i-th run of part file 2,
    ties going to file 1; when one run ends the rest of the other is copied;
    runs without a partner are copied as they are. The merged file holds
    records only. */
module RunMerge {
  import opened Stages
  import opened Sorting

  /** Two runs merged into one, ties taken from the first. */
  function Merge(a: seq<int>, b: seq<int>): seq<int>
    decreases |a| + |b|
  {
    if a == [] then b
    else if b == [] then a
    else if a[0] <= b[0] then [a[0]] + Merge(a[1..], b)
    else [b[0]] + Merge(a, b[1..])
  }

  /** The i-th runs of `A` and `B` merged pairwise; runs of the longer list
      that have no partner are kept as they are. */
  function PairMerge(A: seq<seq<int>>, B: seq<seq<int>>): seq<seq<int>> {
    if A == [] then B
    else if B == [] then A
    else [Merge(A[0], B[0])] + PairMerge(A[1..], B[1..])
  }

  function Tail(R: seq<seq<int>>): seq<seq<int>> {
    if R == [] then [] else R[1..]
  }

  // ---------------------------------------------------------------------
  // Properties of the merge.

  /** Merging neither loses nor duplicates a record. */
  lemma {:induction false} MergePermutes(a: seq<int>, b: seq<int>)
    ensures multiset(Merge(a, b)) == multiset(a) + multiset(b)
    decreases |a| + |b|
  {
    if a != [] && b != [] {
      if a[0] <= b[0] {
        var rest := Merge(a[1..], b);
        MergePermutes(a[1..], b);
        assert Merge(a, b) == [a[0]] + rest;
        assert a == [a[0]] + a[1..];
        assert multiset(a) == multiset{a[0]} + multiset(a[1..]);
        assert multiset([a[0]] + rest) == multiset{a[0]} + multiset(rest);
      } else {
        var rest := Merge(a, b[1..]);
        MergePermutes(a, b[1..]);
        assert Merge(a, b) == [b[0]] + rest;
        assert b == [b[0]] + b[1..];
        assert multiset(b) == multiset{b[0]} + multiset(b[1..]);
        assert multiset([b[0]] + rest) == multiset{b[0]} + multiset(rest);
      }
    }
  }

  /** Merging two sorted runs gives a sorted run. */
  lemma {:induction false} MergeSorted(a: seq<int>, b: seq<int>)
    requires Sorted(a) && Sorted(b)
    ensures Sorted(Merge(a, b))
    decreases |a| + |b|
  {
    if a != [] && b != [] {
      assert a == [a[0]] + a[1..] && b == [b[0]] + b[1..];
      if a[0] <= b[0] {
        SortedTail(a);
        MergeSorted(a[1..], b);
        MergePermutes(a[1..], b);
        var rest := Merge(a[1..], b);
        forall k | 0 <= k < |rest| ensures a[0] <= rest[k] {
          assert rest[k] in multiset(rest);
          if rest[k] in multiset(b) { SortedHeadIsLeast(b, rest[k]); }
          else { assert rest[k] in multiset(a); SortedHeadIsLeast(a, rest[k]); }
        }
        SortedCons(a[0], rest);
      } else {
        SortedTail(b);
        MergeSorted(a, b[1..]);
        MergePermutes(a, b[1..]);
        var rest := Merge(a, b[1..]);
        forall k | 0 <= k < |rest| ensures b[0] <= rest[k] {
          assert rest[k] in multiset(rest);
          if rest[k] in multiset(a) { SortedHeadIsLeast(a, rest[k]); }
          else { assert rest[k] in multiset(b); SortedHeadIsLeast(b, rest[k]); }
        }
        SortedCons(b[0], rest);
      }
    }
  }

  /** Merging two sorted runs is sorting their records together. */
  lemma MergeIsSort(a: seq<int>, b: seq<int>)
    requires Sorted(a) && Sorted(b)
    ensures Merge(a, b) == SortSeq(a + b)
  {
    MergeSorted(a, b);
    MergePermutes(a, b);
    SortSeqSorted(a + b);
    SortedUnique(Merge(a, b), SortSeq(a + b));
  }

  /** The merged runs: one per run of the longer list; each sorted when the
      inputs' runs are; together all records of both lists. */
  lemma {:induction false} PairMergeShape(A: seq<seq<int>>, B: seq<seq<int>>)
    requires forall k :: 0 <= k < |A| ==> Sorted(A[k])
    requires forall k :: 0 <= k < |B| ==> Sorted(B[k])
    ensures |PairMerge(A, B)| == if |A| >= |B| then |A| else |B|
    ensures forall k :: 0 <= k < |PairMerge(A, B)| ==> Sorted(PairMerge(A, B)[k])
    ensures multiset(Flatten(PairMerge(A, B))) == multiset(Flatten(A)) + multiset(Flatten(B))
  {
    if A != [] && B != [] {
      PairMergeShape(A[1..], B[1..]);
      MergeSorted(A[0], B[0]);
      MergePermutes(A[0], B[0]);
      var P := PairMerge(A, B);
      assert P == [Merge(A[0], B[0])] + PairMerge(A[1..], B[1..]);
      forall k | 0 <= k < |P| ensures Sorted(P[k]) {
        if k > 0 { assert P[k] == PairMerge(A[1..], B[1..])[k - 1]; }
      }
    }
  }

  // ---------------------------------------------------------------------
  // Reading part files.

  /** What one ReadLine gives: the record on the line, or no record for a
      `---` line and at end of file; only the latter sets the end-of-file
      flag. `next` is the reader's position afterwards. */
  datatype Read = Read(line: Option<int>, isEndOfFile: bool, next: nat)

  function ReadNextEntry(f: seq<Entry>, c: nat): (r: Read)
    requires c <= |f|
    ensures r.isEndOfFile <==> c == |f|
    ensures r.line.Some? <==> c < |f| && f[c].Num?
    ensures r.line.Some? ==> f[c] == Num(r.line.value)
    ensures r.next == if c == |f| then c else c + 1
  {
    if c == |f| then Read(None, true, c)
    else if f[c].Marker? then Read(None, false, c + 1)
    else Read(Some(f[c].value), false, c + 1)
  }

  /** `copied` are the records from position `c` up to the first marker,
      which `next` is just past, or up to the end of a file without one. */
  predicate RunCopied(f: seq<Entry>, c: nat, copied: seq<int>, next: nat) {
    && c <= next <= |f|
    && (|| (next == |f| && f[c..] == Nums(copied))
        || (c < next && f[c..next] == Nums(copied) + [Marker]))
  }

  /** Copies the records from position `c` up to the next marker, which is
      consumed but not written, or up to the end of the file. */
  method AppendRemainingEntries(f: seq<Entry>, c: nat) returns (copied: seq<int>, next: nat)
    requires c <= |f|
    ensures RunCopied(f, c, copied, next)
  {
    copied, next := [], c;
    while next < |f|
      invariant c <= next <= |f|
      invariant f[c..next] == Nums(copied)
    {
      var entry := f[next];
      next := next + 1;
      if entry.Marker? {
        assert f[c..next] == f[c..next - 1] + [Marker];
        return;
      }
      assert f[c..next] == f[c..next - 1] + [entry];
      NumsAppend(copied, [entry.value]);
      copied := copied + [entry.value];
    }
  }

  /** The state of a reader of the part file `f` at position `c` that last
      read `line` and `eof`, in terms of `R`: the runs still to be merged,
      the first one being the remainder of the current run (its first record
      is `line`, or it is finished when a marker was read). */
  ghost predicate Cursor(f: seq<Entry>, c: nat, line: Option<int>, eof: bool, R: seq<seq<int>>) {
    && c <= |f|
    && (eof ==> R == [] && c == |f| && line.None?)
    && (!eof ==>
          && R != [] && NonEmptyRuns(R[1..])
          && (if line.Some? then R[0] != [] && R[0][0] == line.value && f[c..] == Frame([R[0][1..]] + R[1..])
              else R[0] == [] && f[c..] == Frame(R[1..])))
  }

  lemma FrameCons(r: seq<int>, R: seq<seq<int>>)
    ensures Frame([r] + R) == Nums(r) + [Marker] + Frame(R)
  {
    assert ([r] + R)[1..] == R;
  }

  /** Reading at the start of a run gives its first record, or end of file
      when no run is left. */
  lemma ReadAtRunStart(f: seq<Entry>, c: nat, R: seq<seq<int>>)
    requires c <= |f| && f[c..] == Frame(R) && NonEmptyRuns(R)
    ensures var r := ReadNextEntry(f, c); Cursor(f, r.next, r.line, r.isEndOfFile, R)
    ensures var r := ReadNextEntry(f, c); r.line.Some? || r.isEndOfFile
  {
    if R == [] {
      assert |f[c..]| == 0;
    } else {
      var t := R[0][1..];
      assert R[0] == [R[0][0]] + t;
      FrameCons(R[0], R[1..]);
      FrameCons(t, R[1..]);
      assert f[c..] == [Num(R[0][0])] + (Nums(t) + [Marker] + Frame(R[1..]));
      assert f[c] == Num(R[0][0]);
      assert f[c + 1..] == f[c..][1..];
      assert ([t] + R[1..])[1..] == R[1..];
    }
  }

  /** Reading after a record gives the next record of the run, or no record
      when the run's marker comes. */
  lemma ReadInsideRun(f: seq<Entry>, c: nat, v: int, R: seq<seq<int>>)
    requires Cursor(f, c, Some(v), false, R)
    ensures var r := ReadNextEntry(f, c); Cursor(f, r.next, r.line, r.isEndOfFile, [R[0][1..]] + R[1..])
  {
    var t := R[0][1..];
    var R' := [t] + R[1..];
    assert R'[1..] == R[1..];
    FrameCons(t, R[1..]);
    assert f[c + 1..] == f[c..][1..];
    if t == [] {
      assert f[c..] == [Marker] + Frame(R[1..]);
    } else {
      assert t == [t[0]] + t[1..];
      FrameCons(t[1..], R[1..]);
      assert f[c..] == [Num(t[0])] + (Nums(t[1..]) + [Marker] + Frame(R[1..]));
      assert ([t[1..]] + R'[1..])[1..] == R[1..];
    }
  }

  /** A reader that has just read a marker, or is at end of file, stands at
      the start of the next run. */
  lemma AtRunEnd(f: seq<Entry>, c: nat, eof: bool, R: seq<seq<int>>)
    requires Cursor(f, c, None, eof, R)
    ensures f[c..] == Frame(Tail(R)) && NonEmptyRuns(Tail(R))
    ensures R == [] || R[0] == []
  {
    if eof {
      assert f[c..] == [];
    }
  }

  /** The line at position `i` of `Nums(x) + [Marker] + X`, when it falls
      within the records or on the marker. */
  lemma LineAt(x: seq<int>, X: seq<Entry>, i: nat)
    ensures i < |x| ==> (Nums(x) + [Marker] + X)[i] == Num(x[i])
    ensures i == |x| ==> (Nums(x) + [Marker] + X)[i] == Marker
  {
  }

  /** A marker-terminated prefix `Nums(x) + [Marker]` determines `x`. */
  lemma FirstMarker(x: seq<int>, y: seq<int>, X: seq<Entry>, Y: seq<Entry>)
    requires Nums(x) + [Marker] + X == Nums(y) + [Marker] + Y
    ensures x == y && X == Y
  {
    var l := Nums(x) + [Marker] + X;
    LineAt(x, X, |x|);
    LineAt(y, Y, |x|);
    LineAt(x, X, |y|);
    LineAt(y, Y, |y|);
    assert |x| == |y|;
    forall i | 0 <= i < |x| ensures x[i] == y[i] {
      LineAt(x, X, i);
      LineAt(y, Y, i);
    }
    assert X == l[|x| + 1..] && Y == l[|y| + 1..];
  }

  /** Copying the rest of the current run after its record `v` copies exactly
      that run and stops at the start of the next one. */
  lemma RestOfRun(f: seq<Entry>, c: nat, v: int, R: seq<seq<int>>, copied: seq<int>, next: nat)
    requires Cursor(f, c, Some(v), false, R)
    requires RunCopied(f, c, copied, next)
    ensures [v] + copied == R[0]
    ensures f[next..] == Frame(R[1..]) && NonEmptyRuns(R[1..])
  {
    var t := R[0][1..];
    FrameCons(t, R[1..]);
    assert f[c..] == Nums(t) + [Marker] + Frame(R[1..]);
    assert f[c..][|t|] == Marker;
    assert c < next && f[c..next] == Nums(copied) + [Marker];
    assert f[c..] == f[c..next] + f[next..];
    FirstMarker(copied, t, f[next..], Frame(R[1..]));
    assert R[0] == [v] + t;
  }

  // ---------------------------------------------------------------------
  // How the pairwise merge advances.

  lemma FlattenCons(r: seq<int>, R: seq<seq<int>>)
    ensures Flatten([r] + R) == r + Flatten(R)
  {
    assert ([r] + R)[1..] == R;
  }

  /** Taking one record off the front of the first merged run takes it off
      the front of the merged runs written back to back. */
  lemma FlattenStep(x: int, m: seq<int>, m': seq<int>, T: seq<seq<int>>)
    requires m == [x] + m'
    ensures Flatten([m] + T) == [x] + Flatten([m'] + T)
  {
    FlattenCons(m, T);
    FlattenCons(m', T);
    assert m + Flatten(T) == [x] + (m' + Flatten(T));
  }

  lemma PairMergeCons(A: seq<seq<int>>, B: seq<seq<int>>)
    requires A != [] && B != []
    ensures PairMerge(A, B) == [Merge(A[0], B[0])] + PairMerge(A[1..], B[1..])
  {
  }

  /** The next record of the merge is the head of the first run's remainder
      when it is not above the second's. */
  lemma TakeFirst(R1: seq<seq<int>>, R2: seq<seq<int>>)
    requires R1 != [] && R2 != [] && R1[0] != [] && R2[0] != [] && R1[0][0] <= R2[0][0]
    ensures Flatten(PairMerge(R1, R2)) == [R1[0][0]] + Flatten(PairMerge([R1[0][1..]] + R1[1..], R2))
  {
    var a, b := R1[0], R2[0];
    var R1' := [a[1..]] + R1[1..];
    assert R1'[0] == a[1..] && R1'[1..] == R1[1..];
    PairMergeCons(R1, R2);
    PairMergeCons(R1', R2);
    FlattenStep(a[0], Merge(a, b), Merge(a[1..], b), PairMerge(R1[1..], R2[1..]));
  }

  /** The next record of the merge is the head of the second run's remainder
      when it is below the first's. */
  lemma TakeSecond(R1: seq<seq<int>>, R2: seq<seq<int>>)
    requires R1 != [] && R2 != [] && R1[0] != [] && R2[0] != [] && R1[0][0] > R2[0][0]
    ensures Flatten(PairMerge(R1, R2)) == [R2[0][0]] + Flatten(PairMerge(R1, [R2[0][1..]] + R2[1..]))
  {
    var a, b := R1[0], R2[0];
    var R2' := [b[1..]] + R2[1..];
    assert R2'[0] == b[1..] && R2'[1..] == R2[1..];
    PairMergeCons(R1, R2);
    PairMergeCons(R1, R2');
    FlattenStep(b[0], Merge(a, b), Merge(a, b[1..]), PairMerge(R1[1..], R2[1..]));
  }

  lemma FirstRunDone(R1: seq<seq<int>>, R2: seq<seq<int>>)
    requires R1 == [] || R1[0] == []
    requires R2 != []
    ensures Flatten(PairMerge(R1, R2)) == R2[0] + Flatten(PairMerge(Tail(R1), R2[1..]))
  {
    if R1 != [] {
      assert Merge(R1[0], R2[0]) == R2[0];
    }
  }

  lemma SecondRunDone(R1: seq<seq<int>>, R2: seq<seq<int>>)
    requires R2 == [] || R2[0] == []
    requires R1 != []
    ensures Flatten(PairMerge(R1, R2)) == R1[0] + Flatten(PairMerge(R1[1..], Tail(R2)))
  {
    if R2 != [] {
      assert Merge(R1[0], R2[0]) == R1[0];
    }
  }

  // ---------------------------------------------------------------------
  // The merge as the source performs it.

  /** The lines of `f` a reader at `c` that holds `line` has yet to hand
      over. */
  function Pending(f: seq<Entry>, c: nat, line: Option<int>): nat
    requires c <= |f|
  {
    |f| - c + (if line.Some? then 1 else 0)
  }

  /** The state of the merge loop: each reader stands in its file as
      `Cursor` says, the two cannot both be between runs unless both files
      are finished, and what has been written followed by the merge of the
      runs still to come is the whole merge `whole`. */
  ghost predicate Merging(
    f1: seq<Entry>, c1: nat, line1: Option<int>, eof1: bool, R1: seq<seq<int>>,
    f2: seq<Entry>, c2: nat, line2: Option<int>, eof2: bool, R2: seq<seq<int>>,
    out: seq<int>, whole: seq<int>)
  {
    && Cursor(f1, c1, line1, eof1, R1)
    && Cursor(f2, c2, line2, eof2, R2)
    && (line1.None? && line2.None? ==> eof1 && eof2)
    && out + Flatten(PairMerge(R1, R2)) == whole
  }

  /** The loop starts at the start of both files with nothing written. */
  lemma MergeStarts(f1: seq<Entry>, rs1: seq<seq<int>>, f2: seq<Entry>, rs2: seq<seq<int>>)
    requires f1 == Frame(rs1) && NonEmptyRuns(rs1)
    requires f2 == Frame(rs2) && NonEmptyRuns(rs2)
    ensures var r1, r2 := ReadNextEntry(f1, 0), ReadNextEntry(f2, 0);
            Merging(f1, r1.next, r1.line, r1.isEndOfFile, rs1, f2, r2.next, r2.line, r2.isEndOfFile, rs2,
                    [], Flatten(PairMerge(rs1, rs2)))
  {
    assert f1[0..] == f1 && f2[0..] == f2;
    ReadAtRunStart(f1, 0, rs1);
    ReadAtRunStart(f2, 0, rs2);
  }

  lemma AppendAssoc(a: seq<int>, b: seq<int>, c: seq<int>)
    ensures (a + b) + c == a + (b + c)
  {
  }

  /** Writing `[v] + copied` and then `T` is writing them in one go. */
  lemma WrittenThen(out: seq<int>, v: int, copied: seq<int>, T: seq<int>)
    ensures out + [v] + copied + T == out + ([v] + copied + T)
  {
    AppendAssoc(out + [v], copied, T);
    AppendAssoc(out, [v], copied + T);
    AppendAssoc([v], copied, T);
  }

  /** A reader between runs (or at end of file) moves to the next run,
      handing over no more lines than it had pending. */
  lemma SkipBoundary(f: seq<Entry>, c: nat, eof: bool, R: seq<seq<int>>)
    requires Cursor(f, c, None, eof, R)
    ensures R == [] || R[0] == []
    ensures var r := ReadNextEntry(f, c);
            && Cursor(f, r.next, r.line, r.isEndOfFile, Tail(R))
            && (r.line.Some? || r.isEndOfFile)
            && Pending(f, r.next, r.line) <= Pending(f, c, None)
  {
    AtRunEnd(f, c, eof, R);
    ReadAtRunStart(f, c, Tail(R));
  }

  /** A reader holding record `v` that copies the rest of its run has copied
      the whole run and moves to the next one, with fewer lines pending. */
  lemma CopyRest(f: seq<Entry>, c: nat, v: int, R: seq<seq<int>>, copied: seq<int>, next: nat)
    requires Cursor(f, c, Some(v), false, R)
    requires RunCopied(f, c, copied, next)
    ensures [v] + copied == R[0]
    ensures var r := ReadNextEntry(f, next);
            && Cursor(f, r.next, r.line, r.isEndOfFile, R[1..])
            && (r.line.Some? || r.isEndOfFile)
            && Pending(f, r.next, r.line) < Pending(f, c, Some(v))
  {
    RestOfRun(f, c, v, R, copied, next);
    ReadAtRunStart(f, next, R[1..]);
  }

  /** File 1 is between runs (or finished): the record held from file 2 and
      the rest of its run are written, and both readers move to their next
      runs. */
  lemma FirstIsBetweenRuns(
    f1: seq<Entry>, c1: nat, line1: Option<int>, eof1: bool, R1: seq<seq<int>>,
    f2: seq<Entry>, c2: nat, line2: Option<int>, eof2: bool, R2: seq<seq<int>>,
    out: seq<int>, whole: seq<int>, copied: seq<int>, next: nat, out': seq<int>)
    requires Merging(f1, c1, line1, eof1, R1, f2, c2, line2, eof2, R2, out, whole)
    requires line1.None? && (!eof1 || !eof2)
    requires line2.Some? && RunCopied(f2, c2, copied, next) && out' == out + [line2.value] + copied
    ensures var r1, r2 := ReadNextEntry(f1, c1), ReadNextEntry(f2, next);
            && Merging(f1, r1.next, r1.line, r1.isEndOfFile, Tail(R1), f2, r2.next, r2.line, r2.isEndOfFile, R2[1..],
                       out', whole)
            && Pending(f1, r1.next, r1.line) + Pending(f2, r2.next, r2.line)
               < Pending(f1, c1, line1) + Pending(f2, c2, line2)
  {
    SkipBoundary(f1, c1, eof1, R1);
    CopyRest(f2, c2, line2.value, R2, copied, next);
    var T := Flatten(PairMerge(Tail(R1), R2[1..]));
    assert out' + T == whole by {
      FirstRunDone(R1, R2);
      WrittenThen(out, line2.value, copied, T);
    }
  }

  /** File 2 is between runs (or finished): the record held from file 1 and
      the rest of its run are written, and both readers move to their next
      runs. */
  lemma SecondIsBetweenRuns(
    f1: seq<Entry>, c1: nat, line1: Option<int>, eof1: bool, R1: seq<seq<int>>,
    f2: seq<Entry>, c2: nat, line2: Option<int>, eof2: bool, R2: seq<seq<int>>,
    out: seq<int>, whole: seq<int>, copied: seq<int>, next: nat, out': seq<int>)
    requires Merging(f1, c1, line1, eof1, R1, f2, c2, line2, eof2, R2, out, whole)
    requires line1.Some? && line2.None?
    requires RunCopied(f1, c1, copied, next) && out' == out + [line1.value] + copied
    ensures var r1, r2 := ReadNextEntry(f1, next), ReadNextEntry(f2, c2);
            && Merging(f1, r1.next, r1.line, r1.isEndOfFile, R1[1..], f2, r2.next, r2.line, r2.isEndOfFile, Tail(R2),
                       out', whole)
            && Pending(f1, r1.next, r1.line) + Pending(f2, r2.next, r2.line)
               < Pending(f1, c1, line1) + Pending(f2, c2, line2)
  {
    CopyRest(f1, c1, line1.value, R1, copied, next);
    SkipBoundary(f2, c2, eof2, R2);
    var T := Flatten(PairMerge(R1[1..], Tail(R2)));
    assert out' + T == whole by {
      SecondRunDone(R1, R2);
      WrittenThen(out, line1.value, copied, T);
    }
  }

  /** Both readers hold a record and file 1's is not above file 2's: it is
      written and file 1's reader moves on. */
  lemma FirstIsSmaller(
    f1: seq<Entry>, c1: nat, line1: Option<int>, R1: seq<seq<int>>,
    f2: seq<Entry>, c2: nat, line2: Option<int>, R2: seq<seq<int>>,
    out: seq<int>, whole: seq<int>, out': seq<int>)
    requires Merging(f1, c1, line1, false, R1, f2, c2, line2, false, R2, out, whole)
    requires line1.Some? && line2.Some? && line1.value <= line2.value
    requires out' == out + [line1.value]
    ensures var r1 := ReadNextEntry(f1, c1);
            && Merging(f1, r1.next, r1.line, r1.isEndOfFile, [R1[0][1..]] + R1[1..], f2, c2, line2, false, R2,
                       out', whole)
            && Pending(f1, r1.next, r1.line) + Pending(f2, c2, line2)
               < Pending(f1, c1, line1) + Pending(f2, c2, line2)
  {
    ReadInsideRun(f1, c1, line1.value, R1);
    var R1' := [R1[0][1..]] + R1[1..];
    assert out' + Flatten(PairMerge(R1', R2)) == whole by {
      TakeFirst(R1, R2);
      AppendAssoc(out, [line1.value], Flatten(PairMerge(R1', R2)));
    }
  }

  /** Both readers hold a record and file 2's is below file 1's: it is
      written and file 2's reader moves on. */
  lemma SecondIsSmaller(
    f1: seq<Entry>, c1: nat, line1: Option<int>, R1: seq<seq<int>>,
    f2: seq<Entry>, c2: nat, line2: Option<int>, R2: seq<seq<int>>,
    out: seq<int>, whole: seq<int>, out': seq<int>)
    requires Merging(f1, c1, line1, false, R1, f2, c2, line2, false, R2, out, whole)
    requires line1.Some? && line2.Some? && line1.value > line2.value
    requires out' == out + [line2.value]
    ensures var r2 := ReadNextEntry(f2, c2);
            && Merging(f1, c1, line1, false, R1, f2, r2.next, r2.line, r2.isEndOfFile, [R2[0][1..]] + R2[1..],
                       out', whole)
            && Pending(f1, c1, line1) + Pending(f2, r2.next, r2.line)
               < Pending(f1, c1, line1) + Pending(f2, c2, line2)
  {
    ReadInsideRun(f2, c2, line2.value, R2);
    var R2' := [R2[0][1..]] + R2[1..];
    assert out' + Flatten(PairMerge(R1, R2')) == whole by {
      TakeSecond(R1, R2);
      AppendAssoc(out, [line2.value], Flatten(PairMerge(R1, R2')));
    }
  }

  /** Merges the part files `f1` and `f2`, which hold the runs `rs1` and
      `rs2` (as a split writes them: each run non-empty and terminated by a
      marker), into a fresh merged file. */
  method MergeFiles(f1: seq<Entry>, f2: seq<Entry>, ghost rs1: seq<seq<int>>, ghost rs2: seq<seq<int>>)
    returns (out: seq<int>)
    requires f1 == Frame(rs1) && NonEmptyRuns(rs1)
    requires f2 == Frame(rs2) && NonEmptyRuns(rs2)
    ensures out == Flatten(PairMerge(rs1, rs2))
  {
    ghost var whole := Flatten(PairMerge(rs1, rs2));
    out := [];
    MergeStarts(f1, rs1, f2, rs2);
    var r1, r2 := ReadNextEntry(f1, 0), ReadNextEntry(f2, 0);
    var line1, isFileEnd1, c1 := r1.line, r1.isEndOfFile, r1.next;
    var line2, isFileEnd2, c2 := r2.line, r2.isEndOfFile, r2.next;
    ghost var R1, R2 := rs1, rs2;
    while !isFileEnd1 || !isFileEnd2
      invariant Merging(f1, c1, line1, isFileEnd1, R1, f2, c2, line2, isFileEnd2, R2, out, whole)
      decreases Pending(f1, c1, line1) + Pending(f2, c2, line2)
    {
      ghost var before := out;
      if line1.None? {
        out := out + [line2.value];
        var copied, next := AppendRemainingEntries(f2, c2);
        out := out + copied;
        FirstIsBetweenRuns(f1, c1, line1, isFileEnd1, R1, f2, c2, line2, isFileEnd2, R2, before, whole, copied, next, out);
        r1, r2 := ReadNextEntry(f1, c1), ReadNextEntry(f2, next);
        R1, R2 := Tail(R1), R2[1..];
      } else if line2.None? {
        out := out + [line1.value];
        var copied, next := AppendRemainingEntries(f1, c1);
        out := out + copied;
        SecondIsBetweenRuns(f1, c1, line1, isFileEnd1, R1, f2, c2, line2, isFileEnd2, R2, before, whole, copied, next, out);
        r1, r2 := ReadNextEntry(f1, next), ReadNextEntry(f2, c2);
        R1, R2 := R1[1..], Tail(R2);
      } else if line1.value <= line2.value {
        out := out + [line1.value];
        FirstIsSmaller(f1, c1, line1, R1, f2, c2, line2, R2, before, whole, out);
        r1, r2 := ReadNextEntry(f1, c1), Read(line2, isFileEnd2, c2);
        R1 := [R1[0][1..]] + R1[1..];
      } else {
        out := out + [line2.value];
        SecondIsSmaller(f1, c1, line1, R1, f2, c2, line2, R2, before, whole, out);
        r1, r2 := Read(line1, isFileEnd1, c1), ReadNextEntry(f2, c2);
        R2 := [R2[0][1..]] + R2[1..];
      }
      line1, isFileEnd1, c1 := r1.line, r1.isEndOfFile, r1.next;
      line2, isFileEnd2, c2 := r2.line, r2.isEndOfFile, r2.next;
    }
    assert R1 == [] && R2 == [];
  }
}
