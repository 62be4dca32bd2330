/** Lines and files of the external sort.

    Every file the sort touches is a sequence of lines read front to back.
    - The raw input holds one decimal integer per line; a line is either the
      decimal spelling of some integer or something else.
    - The sorted-series file and the merged file hold only integers, because
      only the sort itself writes them.
    - The two part files produced by the natural split hold integers and
      run-boundary markers (the literal line `---`).
 */
module Stages {

  datatype Option<T> = None | Some(value: T)

  /** The fatal conditions the sort can run into. */
  datatype Error =
    | MalformedRecord(line: nat)   // int.Parse rejected this (0-based) input line
    | MissingFile                  // a stage file that is read was never created

  datatype Result<T> = Ok(value: T) | Err(error: Error)

  /** A line of the raw input: the decimal spelling of `value`, or not a number at all. */
  datatype RawLine = Decimal(value: int) | NotANumber

  /** A line of a part file: a record, or the run-boundary marker `---`. */
  datatype Entry = Num(value: int) | Marker

  const INT_MIN: int := -0x8000_0000
  const INT_MAX: int := 0x7fff_ffff

  /** int.Parse accepts a line exactly when it spells a 32-bit signed integer. */
  predicate Parses(l: RawLine) {
    l.Decimal? && INT_MIN <= l.value <= INT_MAX
  }

  predicate Sorted(s: seq<int>) {
    forall i, j :: 0 <= i <= j < |s| ==> s[i] <= s[j]
  }

  /** The lines that write out the records of `s`, one per line. */
  function Nums(s: seq<int>): seq<Entry> {
    seq(|s|, i requires 0 <= i < |s| => Num(s[i]))
  }

  predicate NonEmptyRuns(rs: seq<seq<int>>) {
    forall i :: 0 <= i < |rs| ==> |rs[i]| > 0
  }

  /** A part file holding the runs `rs`, each one terminated by a marker. */
  function Frame(rs: seq<seq<int>>): seq<Entry> {
    if rs == [] then [] else Nums(rs[0]) + [Marker] + Frame(rs[1..])
  }

  /** The runs `rs` written back to back, without markers. */
  function Flatten(rs: seq<seq<int>>): seq<int> {
    if rs == [] then [] else rs[0] + Flatten(rs[1..])
  }

  /** The records of a part file, in file order, markers dropped. */
  function Numbers(f: seq<Entry>): seq<int> {
    if f == [] then []
    else (if f[0].Num? then [f[0].value] else []) + Numbers(f[1..])
  }

  /** The number of marker lines in a part file. */
  function MarkerCount(f: seq<Entry>): nat {
    if f == [] then 0 else (if f[0].Marker? then 1 else 0) + MarkerCount(f[1..])
  }

  lemma NumsAppend(a: seq<int>, b: seq<int>)
    ensures Nums(a + b) == Nums(a) + Nums(b)
  {
  }

  /** Terminating one more run appends its records and one marker. */
  lemma {:induction false} FrameSnoc(rs: seq<seq<int>>, r: seq<int>)
    ensures Frame(rs + [r]) == Frame(rs) + Nums(r) + [Marker]
  {
    if rs == [] {
      assert rs + [r] == [r];
    } else {
      assert (rs + [r])[1..] == rs[1..] + [r];
      FrameSnoc(rs[1..], r);
    }
  }

  lemma {:induction false} FlattenAppend(a: seq<seq<int>>, b: seq<seq<int>>)
    ensures Flatten(a + b) == Flatten(a) + Flatten(b)
  {
    if a == [] {
      assert a + b == b;
    } else {
      assert (a + b)[1..] == a[1..] + b;
      FlattenAppend(a[1..], b);
    }
  }

  lemma FrameEmpty(rs: seq<seq<int>>)
    ensures Frame(rs) == [] <==> rs == []
  {
    if rs != [] {
      assert Frame(rs)[|Nums(rs[0])|] == Marker;
    }
  }

  lemma {:induction false} NumbersAppend(a: seq<Entry>, b: seq<Entry>)
    ensures Numbers(a + b) == Numbers(a) + Numbers(b)
    ensures MarkerCount(a + b) == MarkerCount(a) + MarkerCount(b)
  {
    if a == [] {
      assert a + b == b;
    } else {
      assert (a + b)[0] == a[0];
      assert (a + b)[1..] == a[1..] + b;
      NumbersAppend(a[1..], b);
      assert Numbers(a + b) == (if a[0].Num? then [a[0].value] else []) + Numbers(a[1..] + b);
    }
  }

  lemma {:induction false} NumbersOfNums(s: seq<int>)
    ensures Numbers(Nums(s)) == s
    ensures MarkerCount(Nums(s)) == 0
  {
    if s != [] {
      assert Nums(s) == [Num(s[0])] + Nums(s[1..]);
      NumbersAppend([Num(s[0])], Nums(s[1..]));
      NumbersOfNums(s[1..]);
    }
  }

  /** A framed file carries exactly the records of its runs, in order, and one
      marker per run. */
  lemma {:induction false} NumbersOfFrame(rs: seq<seq<int>>)
    ensures Numbers(Frame(rs)) == Flatten(rs)
    ensures MarkerCount(Frame(rs)) == |rs|
  {
    if rs != [] {
      NumbersAppend(Nums(rs[0]) + [Marker], Frame(rs[1..]));
      NumbersAppend(Nums(rs[0]), [Marker]);
      NumbersOfNums(rs[0]);
      NumbersOfFrame(rs[1..]);
    }
  }
}
