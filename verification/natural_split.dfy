/** The natural split (SplitFileNaturally): the records of a stage file are
    cut into maximal ascending runs, and the runs are dealt alternately to two
    part files, each run terminated by a `---` marker. */
module NaturalSplit {
  import opened Stages

  function Last(s: seq<int>): int
    requires s != []
  {
    s[|s| - 1]
  }

  /** The maximal ascending runs of `m`, in order: a new run starts at every
      descent. An empty file is one empty run, because the split still writes
      one marker for it. */
  function Runs(m: seq<int>): (rs: seq<seq<int>>)
    ensures |rs| >= 1
  {
    if |m| <= 1 then [m]
    else
      var rs := Runs(m[..|m| - 1]);
      if m[|m| - 2] <= m[|m| - 1] then rs[..|rs| - 1] + [rs[|rs| - 1] + [m[|m| - 1]]]
      else rs + [[m[|m| - 1]]]
  }

  /** The number of positions where a record is less than the one before it. */
  function Descents(m: seq<int>): nat {
    if |m| <= 1 then 0
    else Descents(m[..|m| - 1]) + (if m[|m| - 1] < m[|m| - 2] then 1 else 0)
  }

  /** Runs dealt alternately to the two outputs, the first run to output 1. */
  function Deal(rs: seq<seq<int>>): (seq<seq<int>>, seq<seq<int>>) {
    if rs == [] then ([], [])
    else
      var (a, b) := Deal(rs[..|rs| - 1]);
      if |a| == |b| then (a + [rs[|rs| - 1]], b) else (a, b + [rs[|rs| - 1]])
  }

  /** The two part files the split writes for the records `m`. */
  function Split(m: seq<int>): (seq<Entry>, seq<Entry>) {
    var (a, b) := Deal(Runs(m));
    (Frame(a), Frame(b))
  }

  // ---------------------------------------------------------------------
  // How Runs grows by one record.

  /** A record not below its predecessor (or the very first one) extends the
      last run. */
  lemma RunsExtend(m: seq<int>, i: nat)
    requires i < |m| && (i == 0 || m[i - 1] <= m[i])
    ensures var rs := Runs(m[..i]);
      Runs(m[..i + 1]) == rs[..|rs| - 1] + [rs[|rs| - 1] + [m[i]]]
  {
    if i > 0 {
      assert m[..i + 1][..i] == m[..i];
    } else {
      assert m[..0] == [] && m[..1] == [m[0]];
      var rs := Runs(m[..0]);
      assert rs == [[]];
      assert rs[..0] == [] && rs[0] + [m[0]] == [m[0]];
    }
  }

  /** A record below its predecessor starts a new run. */
  lemma RunsBreak(m: seq<int>, i: nat)
    requires 0 < i < |m| && m[i] < m[i - 1]
    ensures Runs(m[..i + 1]) == Runs(m[..i]) + [[m[i]]]
  {
    assert m[..i + 1][..i] == m[..i];
  }

  // ---------------------------------------------------------------------
  // Properties of the runs.

  lemma FlattenSnoc(rs: seq<seq<int>>, r: seq<int>)
    ensures Flatten(rs + [r]) == Flatten(rs) + r
  {
    FlattenAppend(rs, [r]);
    assert Flatten([r]) == r + Flatten([]);
  }

  /** The runs written back to back give the records back: each record is in
      exactly one run, in input order. */
  lemma {:induction false} RunsFlatten(m: seq<int>)
    ensures Flatten(Runs(m)) == m
    decreases |m|
  {
    if |m| <= 1 {
      assert Flatten([m]) == m + Flatten([]);
    } else {
      var p, x := m[..|m| - 1], m[|m| - 1];
      var rs := Runs(p);
      var k := |rs| - 1;
      var front, last := rs[..k], rs[k];
      RunsFlatten(p);
      assert m == p + [x];
      if m[|m| - 2] <= x {
        assert rs == front + [last];
        FlattenSnoc(front, last);
        assert Runs(m) == front + [last + [x]];
        FlattenSnoc(front, last + [x]);
        assert Flatten(front) + (last + [x]) == (Flatten(front) + last) + [x];
      } else {
        assert Runs(m) == rs + [[x]];
        FlattenSnoc(rs, [x]);
      }
    }
  }

  /** The last run of a non-empty file is non-empty and ends with its last
      record. */
  lemma {:induction false} RunsLast(m: seq<int>)
    requires m != []
    ensures var rs := Runs(m); rs[|rs| - 1] != [] && Last(rs[|rs| - 1]) == Last(m)
  {
  }

  /** Every run is non-decreasing, and no run of a non-empty file is empty. */
  lemma {:induction false} RunsSorted(m: seq<int>)
    ensures forall k :: 0 <= k < |Runs(m)| ==> Sorted(Runs(m)[k])
    ensures m != [] ==> NonEmptyRuns(Runs(m))
    decreases |m|
  {
    if |m| >= 2 {
      var p := m[..|m| - 1];
      var rs, x := Runs(p), m[|m| - 1];
      var k := |rs| - 1;
      RunsSorted(p);
      if m[|m| - 2] <= x {
        RunsLast(p);
        assert Last(p) == m[|m| - 2];
        var r := rs[k] + [x];
        assert Sorted(r) by {
          forall i, j | 0 <= i <= j < |r| ensures r[i] <= r[j] {
            if j == |r| - 1 && i < j {
              assert rs[k][i] <= Last(rs[k]);
            }
          }
        }
        var rs' := Runs(m);
        assert rs' == rs[..k] + [r];
        forall j | 0 <= j < |rs'| ensures Sorted(rs'[j]) && rs'[j] != [] {
          if j < k { assert rs'[j] == rs[j]; }
        }
      } else {
        var rs' := Runs(m);
        assert rs' == rs + [[x]];
        forall j | 0 <= j < |rs'| ensures Sorted(rs'[j]) && rs'[j] != [] {
          if j < |rs| { assert rs'[j] == rs[j]; }
        }
      }
    }
  }

  /** Every run after the first is non-empty and starts below the last
      record of the run before it. */
  predicate Maximal(rs: seq<seq<int>>) {
    forall k {:trigger rs[k]} :: 1 <= k < |rs| ==> rs[k] != [] && rs[k - 1] != [] && rs[k][0] < Last(rs[k - 1])
  }

  lemma MaximalExtend(rs: seq<seq<int>>, x: int)
    requires Maximal(rs) && rs != [] && rs[|rs| - 1] != []
    ensures Maximal(rs[..|rs| - 1] + [rs[|rs| - 1] + [x]])
  {
    var k := |rs| - 1;
    var rs' := rs[..k] + [rs[k] + [x]];
    forall j {:trigger rs'[j]} | 1 <= j < |rs'| ensures rs'[j] != [] && rs'[j - 1] != [] && rs'[j][0] < Last(rs'[j - 1]) {
      assert rs[j] != [] && rs[j - 1] != [] && rs[j][0] < Last(rs[j - 1]);
      assert rs'[j - 1] == rs[j - 1];
      if j < k {
        assert rs'[j] == rs[j];
      } else {
        assert rs'[j] == rs[j] + [x];
      }
    }
  }

  lemma MaximalBreak(rs: seq<seq<int>>, x: int)
    requires Maximal(rs) && rs != [] && rs[|rs| - 1] != [] && x < Last(rs[|rs| - 1])
    ensures Maximal(rs + [[x]])
  {
    var rs' := rs + [[x]];
    forall j {:trigger rs'[j]} | 1 <= j < |rs'| ensures rs'[j] != [] && rs'[j - 1] != [] && rs'[j][0] < Last(rs'[j - 1]) {
      assert rs'[j - 1] == rs[j - 1];
      if j < |rs| {
        assert rs[j] != [] && rs[j - 1] != [] && rs[j][0] < Last(rs[j - 1]);
        assert rs'[j] == rs[j];
      }
    }
  }

  /** The runs are maximal: every run after the first starts below the last
      record of the run before it. */
  lemma {:induction false} RunsMaximal(m: seq<int>)
    ensures Maximal(Runs(m))
    decreases |m|
  {
    if |m| >= 2 {
      var p, x := m[..|m| - 1], m[|m| - 1];
      var rs := Runs(p);
      RunsMaximal(p);
      RunsLast(p);
      if m[|m| - 2] <= x {
        assert Runs(m) == rs[..|rs| - 1] + [rs[|rs| - 1] + [x]];
        MaximalExtend(rs, x);
      } else {
        assert Runs(m) == rs + [[x]];
        assert Last(p) == m[|m| - 2];
        MaximalBreak(rs, x);
      }
    }
  }

  /** There is one run more than there are descents. */
  lemma {:induction false} RunsCount(m: seq<int>)
    ensures |Runs(m)| == Descents(m) + 1
    decreases |m|
  {
    if |m| >= 2 {
      RunsCount(m[..|m| - 1]);
    }
  }

  /** Joining two files adds at most one descent, at the seam. */
  lemma {:induction false} DescentsAppend(x: seq<int>, y: seq<int>)
    ensures Descents(x + y) <= Descents(x) + Descents(y) + 1
    decreases |y|
  {
    if x == [] {
      assert x + y == y;
    } else if y != [] {
      var y' := y[..|y| - 1];
      var xy := x + y;
      assert xy[..|xy| - 1] == x + y';
      assert Descents(xy) == Descents(x + y') + (if xy[|xy| - 1] < xy[|xy| - 2] then 1 else 0);
      if y' != [] {
        DescentsAppend(x, y');
        assert xy[|xy| - 2] == y[|y| - 2];
        assert Descents(y) == Descents(y') + (if y[|y| - 1] < y[|y| - 2] then 1 else 0);
      } else {
        assert x + y' == x;
      }
    } else {
      assert x + y == x;
    }
  }

  /** Sorted segments written back to back have fewer descents than there
      are segments. */
  lemma {:induction false} DescentsFlatten(S: seq<seq<int>>)
    requires S != [] && forall k :: 0 <= k < |S| ==> Sorted(S[k])
    ensures Descents(Flatten(S)) < |S|
  {
    DescentsSorted(S[0]);
    if |S| == 1 {
      assert Flatten(S) == S[0] + Flatten(S[1..]) && S[1..] == [];
      assert Flatten(S) == S[0];
    } else {
      DescentsFlatten(S[1..]);
      DescentsAppend(S[0], Flatten(S[1..]));
    }
  }

  /** A file has no descent exactly when it is sorted. */
  lemma {:induction false} DescentsSorted(m: seq<int>)
    ensures Descents(m) == 0 <==> Sorted(m)
    decreases |m|
  {
    if |m| >= 2 {
      var p := m[..|m| - 1];
      DescentsSorted(p);
      if Sorted(m) {
        assert Sorted(p) by {
          forall i, j | 0 <= i <= j < |p| ensures p[i] <= p[j] { assert p[i] == m[i] && p[j] == m[j]; }
        }
        assert m[|m| - 2] <= m[|m| - 1];
      } else if Descents(m) == 0 {
        assert Sorted(p) && m[|m| - 2] <= m[|m| - 1];
        forall i, j | 0 <= i <= j < |m| ensures m[i] <= m[j] {
          if j == |m| - 1 && i < j {
            assert m[i] == p[i] && Last(p) == p[|p| - 1];
            assert p[i] <= p[|p| - 1];
          } else if j < |m| - 1 {
            assert m[i] == p[i] && m[j] == p[j];
          }
        }
      }
    }
  }

  // ---------------------------------------------------------------------
  // Properties of the deal.

  /** Output 1 gets runs 0, 2, 4, ... and output 2 runs 1, 3, 5, ...; so
      output 1 holds as many runs as output 2 or one more. */
  lemma {:induction false} DealShape(rs: seq<seq<int>>)
    ensures var (a, b) := Deal(rs);
      && |a| + |b| == |rs|
      && (|a| == |b| || |a| == |b| + 1)
      && (forall i :: 0 <= i < |a| ==> a[i] == rs[2 * i])
      && (forall i :: 0 <= i < |b| ==> b[i] == rs[2 * i + 1])
  {
    if rs != [] {
      var p := rs[..|rs| - 1];
      DealShape(p);
      var (a, b) := Deal(p);
      var (a', b') := Deal(rs);
      forall i | 0 <= i < |a'| ensures a'[i] == rs[2 * i] {
        if i < |a| { assert a'[i] == a[i] && p[2 * i] == rs[2 * i]; }
      }
      forall i | 0 <= i < |b'| ensures b'[i] == rs[2 * i + 1] {
        if i < |b| { assert b'[i] == b[i] && p[2 * i + 1] == rs[2 * i + 1]; }
      }
    }
  }

  /** Dealing neither loses nor duplicates a record. */
  lemma {:induction false} DealRecords(rs: seq<seq<int>>)
    ensures var (a, b) := Deal(rs);
      multiset(Flatten(a)) + multiset(Flatten(b)) == multiset(Flatten(rs))
  {
    if rs != [] {
      var p, r := rs[..|rs| - 1], rs[|rs| - 1];
      DealRecords(p);
      var (a, b) := Deal(p);
      assert rs == p + [r];
      FlattenSnoc(p, r);
      if |a| == |b| { FlattenSnoc(a, r); } else { FlattenSnoc(b, r); }
    }
  }

  /** Dealing sorted runs gives sorted runs; dealing non-empty runs gives
      non-empty runs. */
  lemma DealKeeps(rs: seq<seq<int>>, nonEmpty: bool)
    requires forall k :: 0 <= k < |rs| ==> Sorted(rs[k])
    requires nonEmpty ==> NonEmptyRuns(rs)
    ensures var (a, b) := Deal(rs);
      && (forall k :: 0 <= k < |a| ==> Sorted(a[k]))
      && (forall k :: 0 <= k < |b| ==> Sorted(b[k]))
      && (nonEmpty ==> NonEmptyRuns(a) && NonEmptyRuns(b))
  {
    DealShape(rs);
  }

  // ---------------------------------------------------------------------
  // Properties of the split.

  /** The part files are framed runs: in each, the records between markers
      are non-decreasing and non-empty (for a non-empty file); together they
      carry every record exactly once and one marker per run, that is one
      more marker than there are descents; output 1 holds as many runs as
      output 2 or one more. */
  lemma SplitShape(m: seq<int>)
    ensures var (a, b) := Deal(Runs(m));
      && Split(m) == (Frame(a), Frame(b))
      && (forall k :: 0 <= k < |a| ==> Sorted(a[k]))
      && (forall k :: 0 <= k < |b| ==> Sorted(b[k]))
      && (m != [] ==> NonEmptyRuns(a) && NonEmptyRuns(b))
      && multiset(Numbers(Frame(a)) + Numbers(Frame(b))) == multiset(m)
      && MarkerCount(Frame(a)) + MarkerCount(Frame(b)) == Descents(m) + 1
      && (MarkerCount(Frame(a)) == MarkerCount(Frame(b)) || MarkerCount(Frame(a)) == MarkerCount(Frame(b)) + 1)
  {
    var rs := Runs(m);
    var (a, b) := Deal(rs);
    RunsSorted(m);
    RunsFlatten(m);
    RunsCount(m);
    DealShape(rs);
    DealRecords(rs);
    DealKeeps(rs, m != []);
    NumbersOfFrame(a);
    NumbersOfFrame(b);
  }

  /** Output 1 is never empty: it holds at least the trailing marker. */
  lemma SplitFirstNonEmpty(m: seq<int>)
    ensures Split(m).0 != []
  {
    DealShape(Runs(m));
    FrameEmpty(Deal(Runs(m)).0);
  }

  /** Output 2 stays empty exactly when the file is already sorted; then
      output 1 is the file followed by one marker. */
  lemma SplitSorted(m: seq<int>)
    ensures Split(m).1 == [] <==> Sorted(m)
    ensures Sorted(m) ==> Split(m).0 == Nums(m) + [Marker]
  {
    var rs := Runs(m);
    RunsCount(m);
    DescentsSorted(m);
    DealShape(rs);
    FrameEmpty(Deal(rs).1);
    if Sorted(m) {
      RunsFlatten(m);
      assert Flatten(rs) == rs[0] + Flatten(rs[1..]);
      assert rs[1..] == [] && Flatten(rs[1..]) == [];
      assert rs[0] + [] == rs[0] == m;
      assert rs == [m];
      assert rs[..0] == [] && Deal([]) == ([], []);
      assert [] + [m] == [m];
      assert Deal(rs) == ([m], []);
      assert Frame([m]) == Nums(m) + [Marker] + Frame([]);
    }
  }

  // ---------------------------------------------------------------------
  // The split as the source performs it.

  /** The split's state after reading the first `i` records: all runs but the
      open last one are dealt and terminated; the open run's records follow
      in the output being written. */
  ghost predicate Splitting(m: seq<int>, i: nat, toFirst: bool, part1: seq<Entry>, part2: seq<Entry>)
    requires i <= |m|
  {
    var rs := Runs(m[..i]);
    var (a, b) := Deal(rs[..|rs| - 1]);
    && (toFirst <==> |a| == |b|)
    && (if toFirst then part1 == Frame(a) + Nums(rs[|rs| - 1]) && part2 == Frame(b)
        else part1 == Frame(a) && part2 == Frame(b) + Nums(rs[|rs| - 1]))
  }

  /** Writing a record that continues the open run. */
  lemma Continues(m: seq<int>, i: nat, toFirst: bool, part1: seq<Entry>, part2: seq<Entry>)
    requires i < |m| && (i == 0 || m[i - 1] <= m[i])
    requires Splitting(m, i, toFirst, part1, part2)
    ensures toFirst ==> Splitting(m, i + 1, toFirst, part1 + [Num(m[i])], part2)
    ensures !toFirst ==> Splitting(m, i + 1, toFirst, part1, part2 + [Num(m[i])])
  {
    var rs := Runs(m[..i]);
    var k := |rs| - 1;
    RunsExtend(m, i);
    var rs' := Runs(m[..i + 1]);
    assert rs'[..|rs'| - 1] == rs[..k];
    NumsAppend(rs[k], [m[i]]);
  }

  /** Writing a record below its predecessor: a marker closes the open run in
      the current output, and the record opens a run in the other one. */
  lemma Switches(m: seq<int>, i: nat, toFirst: bool, part1: seq<Entry>, part2: seq<Entry>)
    requires 0 < i < |m| && m[i] < m[i - 1]
    requires Splitting(m, i, toFirst, part1, part2)
    ensures toFirst ==> Splitting(m, i + 1, !toFirst, part1 + [Marker], part2 + [Num(m[i])])
    ensures !toFirst ==> Splitting(m, i + 1, !toFirst, part1 + [Num(m[i])], part2 + [Marker])
  {
    var rs := Runs(m[..i]);
    var k := |rs| - 1;
    RunsBreak(m, i);
    var rs' := Runs(m[..i + 1]);
    assert rs'[..|rs'| - 1] == rs;
    assert rs == rs[..k] + [rs[k]];
    var (a, b) := Deal(rs[..k]);
    DealShape(rs[..k]);
    FrameSnoc(a, rs[k]);
    FrameSnoc(b, rs[k]);
    assert Nums([m[i]]) == [Num(m[i])];
  }

  /** The trailing marker closes the last run. */
  lemma Closes(m: seq<int>, toFirst: bool, part1: seq<Entry>, part2: seq<Entry>)
    requires Splitting(m, |m|, toFirst, part1, part2)
    ensures toFirst ==> Split(m) == (part1 + [Marker], part2)
    ensures !toFirst ==> Split(m) == (part1, part2 + [Marker])
  {
    assert m[..|m|] == m;
    var rs := Runs(m);
    var k := |rs| - 1;
    assert rs == rs[..k] + [rs[k]];
    var (a, b) := Deal(rs[..k]);
    FrameSnoc(a, rs[k]);
    FrameSnoc(b, rs[k]);
  }

  /** Reads the stage file record by record and writes the two part files
      (both created afresh). */
  method SplitFileNaturally(input: seq<int>) returns (part1: seq<Entry>, part2: seq<Entry>)
    ensures (part1, part2) == Split(input)
  {
    part1, part2 := [], [];
    var toFirst := true;                    // currentWriter == writer1
    var previousValue: Option<int> := None;
    var firstElement := true;
    assert input[..0] == [];
    for i := 0 to |input|
      invariant Splitting(input, i, toFirst, part1, part2)
      invariant firstElement <==> i == 0
      invariant previousValue == if i == 0 then None else Some(input[i - 1])
    {
      var currentValue := input[i];
      if firstElement || (previousValue.Some? && currentValue >= previousValue.value) {
        Continues(input, i, toFirst, part1, part2);
        if toFirst { part1 := part1 + [Num(currentValue)]; } else { part2 := part2 + [Num(currentValue)]; }
      } else {
        Switches(input, i, toFirst, part1, part2);
        if toFirst { part1 := part1 + [Marker]; } else { part2 := part2 + [Marker]; }
        toFirst := !toFirst;
        if toFirst { part1 := part1 + [Num(currentValue)]; } else { part2 := part2 + [Num(currentValue)]; }
      }
      previousValue := Some(currentValue);
      firstElement := false;
    }
    Closes(input, toFirst, part1, part2);
    if toFirst { part1 := part1 + [Marker]; } else { part2 := part2 + [Marker]; }
  }
}
