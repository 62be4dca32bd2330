/** The in-memory sort the run generator applies to each full buffer
    (List<int>.Sort in Program.cs), given as insertion sort together with
    the fact that a sorted permutation is unique, so any correct sort gives
    the same buffer. */
module Sorting {
  import opened Stages

  /** Inserts `x` in front of the first record of `s` that is not below it. */
  function Insert(x: int, s: seq<int>): seq<int> {
    if s == [] || x <= s[0] then [x] + s else [s[0]] + Insert(x, s[1..])
  }

  /** The records of `s` in ascending order. */
  function SortSeq(s: seq<int>): seq<int> {
    if s == [] then [] else Insert(s[0], SortSeq(s[1..]))
  }

  /** A record no greater than any record of a sorted sequence can go in front. */
  lemma SortedCons(h: int, t: seq<int>)
    requires Sorted(t)
    requires forall k :: 0 <= k < |t| ==> h <= t[k]
    ensures Sorted([h] + t)
  {
    var r := [h] + t;
    forall i, j | 0 <= i <= j < |r| ensures r[i] <= r[j] {
      if i > 0 { assert r[i] == t[i - 1] && r[j] == t[j - 1]; } else if j > 0 { assert r[j] == t[j - 1]; }
    }
  }

  /** Inserting adds exactly the record `x`. */
  lemma {:induction false} InsertPermutes(x: int, s: seq<int>)
    ensures multiset(Insert(x, s)) == multiset(s) + multiset{x}
  {
    if s != [] && x > s[0] {
      assert s == [s[0]] + s[1..];
      InsertPermutes(x, s[1..]);
    }
  }

  /** Inserting into a sorted sequence keeps it sorted. */
  lemma {:induction false} InsertSorted(x: int, s: seq<int>)
    requires Sorted(s)
    ensures Sorted(Insert(x, s))
  {
    if s == [] || x <= s[0] {
      SortedCons(x, s);
    } else {
      var t := s[1..];
      InsertSorted(x, t);
      InsertPermutes(x, t);
      var rest := Insert(x, t);
      forall k | 0 <= k < |rest| ensures s[0] <= rest[k] {
        assert rest[k] in multiset(rest);
        if rest[k] != x {
          assert rest[k] in multiset(t);
          var j :| 0 <= j < |t| && t[j] == rest[k];
          assert s[j + 1] == t[j];
        }
      }
      SortedCons(s[0], rest);
    }
  }

  /** Sorting yields an ascending permutation of its input. */
  lemma {:induction false} SortSeqSorted(s: seq<int>)
    ensures Sorted(SortSeq(s))
    ensures multiset(SortSeq(s)) == multiset(s)
  {
    if s != [] {
      assert s == [s[0]] + s[1..];
      SortSeqSorted(s[1..]);
      InsertSorted(s[0], SortSeq(s[1..]));
      InsertPermutes(s[0], SortSeq(s[1..]));
    }
  }

  /** The head of a sorted sequence is its least record. */
  lemma SortedHeadIsLeast(s: seq<int>, x: int)
    requires Sorted(s) && s != [] && x in multiset(s)
    ensures s[0] <= x
  {
    var i :| 0 <= i < |s| && s[i] == x;
  }

  lemma MultisetTail(x: int, ta: seq<int>, tb: seq<int>)
    requires multiset([x] + ta) == multiset([x] + tb)
    ensures multiset(ta) == multiset(tb)
  {
    var ma, mb := multiset(ta), multiset(tb);
    assert multiset([x] + ta) == multiset{x} + ma;
    assert multiset([x] + tb) == multiset{x} + mb;
    forall y ensures ma[y] == mb[y] {
      assert (multiset{x} + ma)[y] == multiset{x}[y] + ma[y];
      assert (multiset{x} + mb)[y] == multiset{x}[y] + mb[y];
    }
  }

  lemma SortedTail(s: seq<int>)
    requires Sorted(s) && s != []
    ensures Sorted(s[1..])
  {
  }

  /** Two sorted sequences with the same records are equal: sorting has
      exactly one possible outcome. */
  lemma {:induction false} SortedUnique(a: seq<int>, b: seq<int>)
    requires Sorted(a) && Sorted(b)
    requires multiset(a) == multiset(b)
    ensures a == b
  {
    assert |a| == |multiset(a)| == |multiset(b)| == |b|;
    if a != [] {
      assert a[0] in multiset(b) && b[0] in multiset(a);
      SortedHeadIsLeast(a, b[0]);
      SortedHeadIsLeast(b, a[0]);
      assert a == [a[0]] + a[1..] && b == [a[0]] + b[1..];
      MultisetTail(a[0], a[1..], b[1..]);
      SortedTail(a);
      SortedTail(b);
      SortedUnique(a[1..], b[1..]);
    }
  }

  /** Sorting an already sorted sequence leaves it unchanged. */
  lemma SortSeqOfSorted(s: seq<int>)
    requires Sorted(s)
    ensures SortSeq(s) == s
  {
    SortSeqSorted(s);
    SortedUnique(SortSeq(s), s);
  }
}
