/**
 * The part of pandas the pipeline relies on: a DataFrame with labelled columns,
 * `pd.concat(..., ignore_index=True, sort=False)` and
 * `drop_duplicates(subset=...)` with its default `keep="first"`.
 * The row index labels are not modelled; a frame is its columns and its rows in order.
 */
module Frames {
  import opened Wrappers
  import opened Values

  /** One row: column label to cell. */
  type Row = map<string, Value>

  datatype Frame = Frame(columns: seq<string>, rows: seq<Row>)

  predicate Distinct<T(==)>(s: seq<T>) {
    forall i, j :: 0 <= i < j < |s| ==> s[i] != s[j]
  }

  function ColumnSet(cols: seq<string>): set<string> {
    set c | c in cols
  }

  /** Column labels are unique and every row has a cell for exactly those columns. */
  predicate WellFormed(f: Frame) {
    && Distinct(f.columns)
    && forall i :: 0 <= i < |f.rows| ==> f.rows[i].Keys == ColumnSet(f.columns)
  }

  /** `pd.DataFrame()` */
  const EmptyFrame := Frame([], [])

  // ---------------------------------------------------------------------------
  // Concatenation

  /** `acc` followed by the labels of `cols` that are not yet in it, in order of appearance. */
  function AppendNew(acc: seq<string>, cols: seq<string>): (r: seq<string>)
    ensures |acc| <= |r| && r[..|acc|] == acc
    ensures forall c :: c in r <==> c in acc || c in cols
    ensures Distinct(acc) ==> Distinct(r)
    decreases |cols|
  {
    if cols == [] then acc
    else
      var next := if cols[0] in acc then acc else acc + [cols[0]];
      var r := AppendNew(next, cols[1..]);
      assert r[..|acc|] == next[..|acc|];
      r
  }

  /** The column labels of a concatenation: every label of every input, each once. */
  function UnionColumns(fs: seq<Frame>): (r: seq<string>)
    ensures Distinct(r)
    ensures forall c :: c in r <==> exists k :: 0 <= k < |fs| && c in fs[k].columns
  {
    if fs == [] then []
    else
      var prev := UnionColumns(fs[..|fs| - 1]);
      var r := AppendNew(prev, fs[|fs| - 1].columns);
      assert forall k :: 0 <= k < |fs| - 1 ==> fs[..|fs| - 1][k] == fs[k];
      r
  }

  /** A row laid out on the columns of the concatenation; a column it lacks is NaN. */
  function Pad(row: Row, cols: seq<string>): (r: Row)
    ensures r.Keys == ColumnSet(cols)
  {
    map c | c in cols :: if c in row then row[c] else Missing
  }

  function PadAll(rows: seq<Row>, cols: seq<string>): (r: seq<Row>)
    ensures |r| == |rows|
    ensures forall i :: 0 <= i < |rows| ==> r[i] == Pad(rows[i], cols)
  {
    seq(|rows|, i requires 0 <= i < |rows| => Pad(rows[i], cols))
  }

  /** The number of rows of all frames together. */
  function RowCount(fs: seq<Frame>): nat {
    if fs == [] then 0 else |fs[0].rows| + RowCount(fs[1..])
  }

  function ConcatRows(fs: seq<Frame>, cols: seq<string>): (r: seq<Row>)
    ensures |r| == RowCount(fs)
    ensures forall j :: 0 <= j < |r| ==> r[j].Keys == ColumnSet(cols)
  {
    if fs == [] then [] else PadAll(fs[0].rows, cols) + ConcatRows(fs[1..], cols)
  }

  /** `pd.concat(fs, ignore_index=True, sort=False)` */
  function Concat(fs: seq<Frame>): (r: Frame)
    ensures WellFormed(r)
    ensures forall c :: c in r.columns <==> exists k :: 0 <= k < |fs| && c in fs[k].columns
    ensures |r.rows| == RowCount(fs)
  {
    var cols := UnionColumns(fs);
    Frame(cols, ConcatRows(fs, cols))
  }

  /** Some frame has a row. */
  predicate AnyRows(fs: seq<Frame>) {
    exists k :: 0 <= k < |fs| && fs[k].rows != []
  }

  /** Some frame has a column. */
  predicate AnyColumns(fs: seq<Frame>) {
    exists k :: 0 <= k < |fs| && fs[k].columns != []
  }

  lemma {:induction false} RowCountZero(fs: seq<Frame>)
    ensures RowCount(fs) == 0 <==> !AnyRows(fs)
  {
    if fs != [] {
      RowCountZero(fs[1..]);
      assert AnyRows(fs) <==> fs[0].rows != [] || AnyRows(fs[1..]) by {
        if AnyRows(fs) && fs[0].rows == [] {
          var k :| 0 <= k < |fs| && fs[k].rows != [];
          assert fs[1..][k - 1] == fs[k];
        }
        if AnyRows(fs[1..]) {
          var k :| 0 <= k < |fs[1..]| && fs[1..][k].rows != [];
          assert fs[k + 1] == fs[1..][k];
        }
      }
    }
  }

  /** The concatenation is empty exactly when no input has a row or no input has a column. */
  lemma ConcatEmpty(fs: seq<Frame>)
    ensures Concat(fs).columns == [] <==> !AnyColumns(fs)
    ensures IsEmpty(Concat(fs)) <==> !AnyRows(fs) || !AnyColumns(fs)
  {
    RowCountZero(fs);
    var r := Concat(fs);
    if AnyColumns(fs) {
      var k :| 0 <= k < |fs| && fs[k].columns != [];
      assert fs[k].columns[0] in r.columns;
    }
    if r.columns != [] {
      assert r.columns[0] in r.columns;
    }
  }

  /** Where the rows of input `k` begin in the concatenation. */
  function Offset(fs: seq<Frame>, k: nat): nat
    requires k <= |fs|
  {
    RowCount(fs[..k])
  }

  lemma {:induction false} ConcatRowsAt(fs: seq<Frame>, cols: seq<string>, k: nat, i: nat)
    requires k < |fs| && i < |fs[k].rows|
    ensures Offset(fs, k) + i < RowCount(fs)
    ensures ConcatRows(fs, cols)[Offset(fs, k) + i] == Pad(fs[k].rows[i], cols)
  {
    if k == 0 {
      assert fs[..0] == [];
    } else {
      assert fs[..k][1..] == fs[1..][..k - 1];
      ConcatRowsAt(fs[1..], cols, k - 1, i);
    }
  }

  /** Row `i` of input `k` sits at `Offset(fs, k) + i` of the concatenation, padded with NaN. */
  lemma ConcatRowAt(fs: seq<Frame>, k: nat, i: nat)
    requires k < |fs| && i < |fs[k].rows|
    ensures Offset(fs, k) + i < |Concat(fs).rows|
    ensures Concat(fs).rows[Offset(fs, k) + i] == Pad(fs[k].rows[i], Concat(fs).columns)
  {
    ConcatRowsAt(fs, UnionColumns(fs), k, i);
  }

  // ---------------------------------------------------------------------------
  // Deduplication

  predicate HasColumns(rows: seq<Row>, subset: seq<string>) {
    forall i :: 0 <= i < |rows| ==> forall c :: c in subset ==> c in rows[i]
  }

  /** The cells of `row` in the columns of `subset`; NaN equals NaN here, as in pandas. */
  function Key(row: Row, subset: seq<string>): seq<Value>
    requires forall c :: c in subset ==> c in row
  {
    seq(|subset|, k requires 0 <= k < |subset| => row[subset[k]])
  }

  /** Row `i` repeats the key of some earlier row. */
  predicate IsDuplicateAt(rows: seq<Row>, subset: seq<string>, i: nat)
    requires HasColumns(rows, subset) && i < |rows|
  {
    exists j :: 0 <= j < i && Key(rows[j], subset) == Key(rows[i], subset)
  }

  function KeysBefore(rows: seq<Row>, subset: seq<string>, i: nat): set<seq<Value>>
    requires HasColumns(rows, subset) && i <= |rows|
  {
    set j | 0 <= j < i :: Key(rows[j], subset)
  }

  /** One pass over the rows remembering the keys seen so far. */
  function DuplicatedFrom(rows: seq<Row>, subset: seq<string>, i: nat, seen: set<seq<Value>>): (m: seq<bool>)
    requires HasColumns(rows, subset) && i <= |rows|
    requires seen == KeysBefore(rows, subset, i)
    ensures |m| == |rows| - i
    ensures forall k :: i <= k < |rows| ==> (m[k - i] <==> IsDuplicateAt(rows, subset, k))
    decreases |rows| - i
  {
    if i == |rows| then []
    else
      var key := Key(rows[i], subset);
      assert KeysBefore(rows, subset, i + 1) == seen + {key};
      [key in seen] + DuplicatedFrom(rows, subset, i + 1, seen + {key})
  }

  /** `duplicated(subset, keep="first")`: true exactly at rows whose key appeared before. */
  function Duplicated(rows: seq<Row>, subset: seq<string>): (m: seq<bool>)
    requires HasColumns(rows, subset)
    ensures |m| == |rows|
    ensures forall k :: 0 <= k < |rows| ==> (m[k] <==> IsDuplicateAt(rows, subset, k))
  {
    assert KeysBefore(rows, subset, 0) == {};
    DuplicatedFrom(rows, subset, 0, {})
  }

  /** The positions holding `false`, ascending (`np.flatnonzero(~mask)`). */
  function Unmarked(mask: seq<bool>): (idx: seq<nat>)
    ensures forall k :: 0 <= k < |idx| ==> idx[k] < |mask| && !mask[idx[k]]
    ensures forall k, l :: 0 <= k < l < |idx| ==> idx[k] < idx[l]
    ensures forall j :: 0 <= j < |mask| && !mask[j] ==> j in idx
  {
    if mask == [] then []
    else
      var n := |mask| - 1;
      var prev := Unmarked(mask[..n]);
      assert forall j :: 0 <= j < n ==> mask[..n][j] == mask[j];
      prev + (if mask[n] then [] else [n])
  }

  /** `rows.take(idx)` */
  function Take(rows: seq<Row>, idx: seq<nat>): (r: seq<Row>)
    requires forall k :: 0 <= k < |idx| ==> idx[k] < |rows|
    ensures |r| == |idx|
    ensures forall k :: 0 <= k < |idx| ==> r[k] == rows[idx[k]]
  {
    seq(|idx|, k requires 0 <= k < |idx| => rows[idx[k]])
  }

  /** The first label of `subset` that is not a column, if any. */
  function FirstAbsent(subset: seq<string>, cols: seq<string>): (r: Option<string>)
    ensures r.None? <==> forall c :: c in subset ==> c in cols
    ensures r.Some? ==> r.value in subset && r.value !in cols
  {
    if subset == [] then None
    else if subset[0] !in cols then Some(subset[0])
    else FirstAbsent(subset[1..], cols)
  }

  /** `DataFrame.empty`: no rows or no columns. */
  predicate IsEmpty(f: Frame) {
    f.rows == [] || f.columns == []
  }

  /**
   * `f.drop_duplicates(subset=subset)`: an empty frame is returned unchanged before
   * `subset` is looked at; otherwise a label of `subset` that is not a column raises
   * `KeyError`, and the rows that repeat an earlier row's key are dropped.
   */
  function DropDuplicates(f: Frame, subset: seq<string>): (r: Result<Frame, PyError>)
    requires WellFormed(f)
    ensures IsEmpty(f) ==> r == Success(f)
    ensures r.Failure? <==> !IsEmpty(f) && exists c :: c in subset && c !in f.columns
    ensures r.Failure? ==> r.error.KeyError? && r.error.key in subset && r.error.key !in f.columns
    ensures r.Success? ==> WellFormed(r.value) && r.value.columns == f.columns
    ensures r.Success? ==> |r.value.rows| <= |f.rows|
  {
    if IsEmpty(f) then Success(f)
    else match FirstAbsent(subset, f.columns)
    case Some(c) => Failure(KeyError(c))
    case None =>
      var rows := Take(f.rows, Unmarked(Duplicated(f.rows, subset)));
      assert forall k, l :: 0 <= k < l < |Unmarked(Duplicated(f.rows, subset))| ==>
        Unmarked(Duplicated(f.rows, subset))[k] < Unmarked(Duplicated(f.rows, subset))[l];
      AscendingBounded(Unmarked(Duplicated(f.rows, subset)), |f.rows|);
      Success(Frame(f.columns, rows))
  }

  lemma {:induction false} AscendingBounded(idx: seq<nat>, n: nat)
    requires forall k :: 0 <= k < |idx| ==> idx[k] < n
    requires forall k, l :: 0 <= k < l < |idx| ==> idx[k] < idx[l]
    ensures |idx| <= n
  {
    if idx != [] {
      var m := idx[|idx| - 1];
      AscendingBounded(idx[..|idx| - 1], m);
    }
  }

  /** Reference definition: filter the rows, in order, down to those that repeat no earlier key. */
  function FirstOccurrences(rows: seq<Row>, subset: seq<string>): seq<Row>
    requires HasColumns(rows, subset)
  {
    if rows == [] then []
    else
      var n := |rows| - 1;
      FirstOccurrences(rows[..n], subset) + (if IsDuplicateAt(rows, subset, n) then [] else [rows[n]])
  }

  lemma {:induction false} DuplicatedPrefix(rows: seq<Row>, subset: seq<string>, n: nat)
    requires HasColumns(rows, subset) && n <= |rows|
    ensures HasColumns(rows[..n], subset)
    ensures Duplicated(rows, subset)[..n] == Duplicated(rows[..n], subset)
  {
    var p := rows[..n];
    forall k | 0 <= k < n
      ensures IsDuplicateAt(rows, subset, k) == IsDuplicateAt(p, subset, k)
    {
      assert forall j :: 0 <= j <= k ==> p[j] == rows[j];
    }
  }

  lemma {:induction false} TakeUnmarkedIsFirstOccurrences(rows: seq<Row>, subset: seq<string>)
    requires HasColumns(rows, subset)
    ensures Take(rows, Unmarked(Duplicated(rows, subset))) == FirstOccurrences(rows, subset)
  {
    if rows != [] {
      var n := |rows| - 1;
      var p := rows[..n];
      var m := Duplicated(rows, subset);
      DuplicatedPrefix(rows, subset, n);
      TakeUnmarkedIsFirstOccurrences(p, subset);
      var prev := Unmarked(m[..n]);
      var last: seq<nat> := if m[n] then [] else [n];
      assert Unmarked(m) == prev + last;
      TakeAppend(rows, prev, last);
      TakeFromPrefix(rows, n, prev);
      assert Take(rows, last) == if IsDuplicateAt(rows, subset, n) then [] else [rows[n]];
    }
  }

  lemma TakeAppend(rows: seq<Row>, a: seq<nat>, b: seq<nat>)
    requires forall k :: 0 <= k < |a| ==> a[k] < |rows|
    requires forall k :: 0 <= k < |b| ==> b[k] < |rows|
    ensures forall k :: 0 <= k < |a + b| ==> (a + b)[k] < |rows|
    ensures Take(rows, a + b) == Take(rows, a) + Take(rows, b)
  {
    assert forall k :: 0 <= k < |a + b| ==> (a + b)[k] == if k < |a| then a[k] else b[k - |a|];
  }

  lemma TakeFromPrefix(rows: seq<Row>, n: nat, idx: seq<nat>)
    requires n <= |rows| && forall k :: 0 <= k < |idx| ==> idx[k] < n
    ensures Take(rows, idx) == Take(rows[..n], idx)
  {
  }

  /**
   * On a repeated key the FIRST row is kept (pandas' default `keep="first"`), and the kept
   * rows stay in their original order.
   */
  lemma DropDuplicatesKeepsFirst(f: Frame, subset: seq<string>)
    requires WellFormed(f) && f.columns != [] && forall c :: c in subset ==> c in f.columns
    ensures HasColumns(f.rows, subset)
    ensures DropDuplicates(f, subset) == Success(Frame(f.columns, FirstOccurrences(f.rows, subset)))
  {
    TakeUnmarkedIsFirstOccurrences(f.rows, subset);
  }

  /** After deduplication no two rows share a key. */
  lemma DropDuplicatesUniqueKeys(f: Frame, subset: seq<string>)
    requires WellFormed(f) && f.columns != [] && DropDuplicates(f, subset).Success?
    ensures HasColumns(DropDuplicates(f, subset).value.rows, subset)
    ensures var out := DropDuplicates(f, subset).value.rows;
      forall k, l :: 0 <= k < l < |out| ==> Key(out[k], subset) != Key(out[l], subset)
  {
    if f.rows == [] {
      return;
    }
    var idx := Unmarked(Duplicated(f.rows, subset));
    var out := DropDuplicates(f, subset).value.rows;
    forall k, l | 0 <= k < l < |out|
      ensures Key(out[k], subset) != Key(out[l], subset)
    {
      assert out[k] == f.rows[idx[k]] && out[l] == f.rows[idx[l]];
      assert !IsDuplicateAt(f.rows, subset, idx[l]);
    }
  }

  /** Returns the first row carrying the key of row `i`. */
  lemma {:induction false} FirstWithKey(rows: seq<Row>, subset: seq<string>, i: nat) returns (j: nat)
    requires HasColumns(rows, subset) && i < |rows|
    ensures j <= i && Key(rows[j], subset) == Key(rows[i], subset)
    ensures !IsDuplicateAt(rows, subset, j)
    decreases i
  {
    if IsDuplicateAt(rows, subset, i) {
      var j0 :| 0 <= j0 < i && Key(rows[j0], subset) == Key(rows[i], subset);
      j := FirstWithKey(rows, subset, j0);
    } else {
      j := i;
    }
  }

  /** Every key of the input is still present after deduplication. */
  lemma DropDuplicatesKeepsEveryKey(f: Frame, subset: seq<string>, i: nat)
    requires WellFormed(f) && f.columns != [] && DropDuplicates(f, subset).Success? && i < |f.rows|
    ensures HasColumns(f.rows, subset) && HasColumns(DropDuplicates(f, subset).value.rows, subset)
    ensures var out := DropDuplicates(f, subset).value.rows;
      exists k :: 0 <= k < |out| && Key(out[k], subset) == Key(f.rows[i], subset)
  {
    var idx := Unmarked(Duplicated(f.rows, subset));
    var out := DropDuplicates(f, subset).value.rows;
    var j := FirstWithKey(f.rows, subset, i);
    assert j in idx;
    var k :| 0 <= k < |idx| && idx[k] == j;
    assert out[k] == f.rows[j];
  }
}
