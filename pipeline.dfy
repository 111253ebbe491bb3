/**
 * The ingestion pipeline: normalise and merge raw tables, and derive the feature
 * columns. Persisting the result is module Persist.
 */
module Pipeline {
  import opened Wrappers
  import opened Values
  import opened Frames

  /** The identity triple that names one vehicle. */
  const IdentityColumns: seq<string> := ["make", "model", "year"]

  // ---------------------------------------------------------------------------
  // Column names

  /** `c.strip().lower()`: no longer than the label, stripped, and without upper case. */
  function NormalizeName(c: string): (r: string)
    ensures |r| <= |c| && IsStripped(r)
    ensures forall k :: 0 <= k < |r| ==> !IsUpper(r[k])
  {
    LowerKeepsStripped(Strip(c));
    LowerHasNoUpper(Strip(c));
    Lower(Strip(c))
  }

  /** The list comprehension `[c.strip().lower() for c in columns]`. */
  function NormalizeNames(cols: seq<string>): (r: seq<string>)
    ensures |r| == |cols| && forall i :: 0 <= i < |cols| ==> r[i] == NormalizeName(cols[i])
  {
    seq(|cols|, i requires 0 <= i < |cols| => NormalizeName(cols[i]))
  }

  /** The labels after `rename(columns={"manufacturer": "make"})`. */
  function RenameManufacturer(cols: seq<string>): (r: seq<string>)
    ensures |r| == |cols|
    ensures forall i :: 0 <= i < |cols| ==> r[i] == if cols[i] == "manufacturer" then "make" else cols[i]
  {
    seq(|cols|, i requires 0 <= i < |cols| => if cols[i] == "manufacturer" then "make" else cols[i])
  }

  /** The name a raw column label ends up with, one label at a time: only `manufacturer` is rewritten. */
  function CanonicalName(c: string): (r: string)
    ensures NormalizeName(c) != "manufacturer" ==> r == NormalizeName(c)
    ensures r == "make" <==> NormalizeName(c) in {"make", "manufacturer"}
  {
    var n := NormalizeName(c);
    if n == "manufacturer" then "make" else n
  }

  /** The canonical name is stripped and lower-cased. */
  lemma CanonicalNameIsNormal(c: string)
    ensures IsStripped(CanonicalName(c))
    ensures forall k :: 0 <= k < |CanonicalName(c)| ==> !IsUpper(CanonicalName(c)[k])
  {
    var n := NormalizeName(c);
    if n == "manufacturer" {
      MakeIsNormal();
    } else {
      LowerKeepsStripped(Strip(c));
      LowerHasNoUpper(Strip(c));
    }
  }

  lemma MakeIsNormal()
    ensures IsStripped("make") && forall k :: 0 <= k < |"make"| ==> !IsUpper("make"[k])
  {
    assert "make"[0] == 'm' && "make"[3] == 'e';
  }

  /** Normalising a label that is already canonical leaves it alone. */
  lemma CanonicalNameIdempotent(c: string)
    ensures CanonicalName(CanonicalName(c)) == CanonicalName(c)
  {
    var n := NormalizeName(c);
    if n == "manufacturer" {
      MakeIsCanonical();
    } else {
      LowerKeepsStripped(Strip(c));
      StripOfStripped(n);
      LowerIdempotent(Strip(c));
      assert NormalizeName(n) == n;
    }
  }

  lemma MakeIsCanonical()
    ensures CanonicalName("make") == "make"
  {
    MakeIsNormal();
    StripOfStripped("make");
    assert Lower("make") == "make";
  }

  /** The labels of a table after the loop body's two steps. */
  function CanonicalNames(cols: seq<string>): (r: seq<string>)
    ensures |r| == |cols| && forall i :: 0 <= i < |cols| ==> r[i] == CanonicalName(cols[i])
  {
    var lowered := NormalizeNames(cols);
    if "manufacturer" in lowered then RenameManufacturer(lowered) else lowered
  }

  /** Duplicate column labels after normalisation (pandas would then hold repeated labels) are excluded. */
  predicate Normalizable(f: Frame) {
    WellFormed(f) && Distinct(CanonicalNames(f.columns))
  }

  /** One row under new labels: the cell of column `cols[j]` is now under `names[j]`. */
  function RelabelRow(row: Row, cols: seq<string>, names: seq<string>): (r: Row)
    requires |names| == |cols| && Distinct(names)
    requires forall j :: 0 <= j < |cols| ==> cols[j] in row
    ensures r.Keys == ColumnSet(names)
    ensures forall j :: 0 <= j < |names| ==> r[names[j]] == row[cols[j]]
  {
    var r := map j | 0 <= j < |names| :: names[j] := row[cols[j]];
    assert r.Keys == ColumnSet(names) by {
      forall c | c in ColumnSet(names) ensures c in r {
        var j :| 0 <= j < |names| && names[j] == c;
      }
    }
    r
  }

  /** `tmp.columns = names`: the labels are replaced position by position, the cells stay. */
  function Relabel(f: Frame, names: seq<string>): (r: Frame)
    requires WellFormed(f) && |names| == |f.columns| && Distinct(names)
    ensures WellFormed(r) && r.columns == names && |r.rows| == |f.rows|
    ensures forall i :: 0 <= i < |f.rows| ==> r.rows[i] == RelabelRow(f.rows[i], f.columns, names)
  {
    Frame(names, seq(|f.rows|, i requires 0 <= i < |f.rows| => RelabelRow(f.rows[i], f.columns, names)))
  }

  /** One source table with its labels normalised, then `manufacturer` renamed if present. */
  function NormalizeFrame(f: Frame): (r: Frame)
    requires Normalizable(f)
    ensures WellFormed(r) && r.columns == CanonicalNames(f.columns) && |r.rows| == |f.rows|
  {
    DistinctNormalized(f.columns);
    var tmp := Relabel(f, NormalizeNames(f.columns));
    if "manufacturer" in tmp.columns then Relabel(tmp, RenameManufacturer(tmp.columns)) else tmp
  }

  lemma {:induction false} DistinctNormalized(cols: seq<string>)
    requires Distinct(CanonicalNames(cols))
    ensures Distinct(NormalizeNames(cols))
  {
    forall i, j | 0 <= i < j < |cols|
      ensures NormalizeNames(cols)[i] != NormalizeNames(cols)[j]
    {
      assert CanonicalNames(cols)[i] != CanonicalNames(cols)[j];
    }
  }

  /**
   * Every label of a normalised table is stripped and lower-cased, `manufacturer`
   * became `make`, and no other label is rewritten.
   */
  lemma NormalizeFrameColumns(f: Frame, j: nat)
    requires Normalizable(f) && j < |f.columns|
    ensures var n := NormalizeFrame(f).columns[j];
      && IsStripped(n) && (forall k :: 0 <= k < |n| ==> !IsUpper(n[k]))
      && (NormalizeName(f.columns[j]) == "manufacturer" ==> n == "make")
      && (NormalizeName(f.columns[j]) != "manufacturer" ==> n == NormalizeName(f.columns[j]))
  {
    CanonicalNameIsNormal(f.columns[j]);
  }

  /** Normalising moves no cell: the cell of column `j` is now under its new label. */
  lemma NormalizeFrameCells(f: Frame, i: nat, j: nat)
    requires Normalizable(f) && i < |f.rows| && j < |f.columns|
    ensures NormalizeFrame(f).rows[i][CanonicalName(f.columns[j])] == f.rows[i][f.columns[j]]
  {
    DistinctNormalized(f.columns);
    var tmp := Relabel(f, NormalizeNames(f.columns));
    assert tmp.rows[i][tmp.columns[j]] == f.rows[i][f.columns[j]];
    if "manufacturer" in tmp.columns {
      var g := Relabel(tmp, RenameManufacturer(tmp.columns));
      assert g.rows[i][g.columns[j]] == tmp.rows[i][tmp.columns[j]];
    }
  }

  // ---------------------------------------------------------------------------
  // clean_and_merge

  /** Each of `make`, `model` and `year` is a column of some table. */
  predicate HasIdentity(fs: seq<Frame>) {
    forall c :: c in IdentityColumns ==> exists k :: 0 <= k < |fs| && c in fs[k].columns
  }

  /**
   * The whole-table expressions after the loop: `concat` then `drop_duplicates`. A
   * concatenation without rows or without columns is empty and comes back unchanged.
   */
  function MergeNormalized(normed: seq<Frame>): (r: Result<Frame, PyError>)
    ensures normed == [] ==> r == Success(EmptyFrame)
    ensures r.Success? ==> WellFormed(r.value)
    ensures normed != [] && (!AnyRows(normed) || !AnyColumns(normed)) ==> r == Success(Concat(normed))
    ensures normed != [] ==> (r.Failure? <==> AnyRows(normed) && AnyColumns(normed) && !HasIdentity(normed))
    ensures r.Failure? ==> r.error.KeyError? && r.error.key in IdentityColumns
    ensures normed != [] && r.Success? ==> |r.value.rows| <= RowCount(normed)
  {
    if normed == [] then Success(EmptyFrame)
    else
      ConcatEmpty(normed);
      DropDuplicates(Concat(normed), IdentityColumns)
  }

  /**
   * `clean_and_merge(dfs)`: normalise each table in turn, then concatenate them and
   * drop rows that repeat an earlier identity triple.
   */
  method CleanAndMerge(dfs: seq<Frame>) returns (r: Result<Frame, PyError>)
    requires forall k :: 0 <= k < |dfs| ==> Normalizable(dfs[k])
    ensures |dfs| == |NormalizeAll(dfs)|
    ensures r == MergeNormalized(NormalizeAll(dfs))
  {
    var normed: seq<Frame> := [];
    for k := 0 to |dfs|
      invariant |normed| == k
      invariant forall j :: 0 <= j < k ==> normed[j] == NormalizeFrame(dfs[j])
    {
      var df := dfs[k];
      DistinctNormalized(df.columns);
      var lowered := NormalizeNames(df.columns);
      var tmp := Relabel(df, lowered);
      if "manufacturer" in tmp.columns {
        tmp := Relabel(tmp, RenameManufacturer(tmp.columns));
      }
      assert tmp == NormalizeFrame(df);
      normed := normed + [tmp];
    }
    assert normed == NormalizeAll(dfs);
    if normed == [] {
      return Success(EmptyFrame);
    }
    var merged := Concat(normed);
    r := DropDuplicates(merged, IdentityColumns);
  }

  /** The tables as the loop leaves them in `normed`. */
  function NormalizeAll(dfs: seq<Frame>): (r: seq<Frame>)
    requires forall k :: 0 <= k < |dfs| ==> Normalizable(dfs[k])
    ensures |r| == |dfs| && forall k :: 0 <= k < |dfs| ==> r[k] == NormalizeFrame(dfs[k])
  {
    seq(|dfs|, k requires 0 <= k < |dfs| => NormalizeFrame(dfs[k]))
  }

  /** No tables in, an empty table out, without an error. */
  lemma MergeOfNothing()
    ensures MergeNormalized(NormalizeAll([])) == Success(EmptyFrame)
  {
  }

  /** Normalising keeps each table's numbers of rows and of columns. */
  lemma NormalizeAllShape(dfs: seq<Frame>)
    requires forall k :: 0 <= k < |dfs| ==> Normalizable(dfs[k])
    ensures AnyRows(NormalizeAll(dfs)) <==> AnyRows(dfs)
    ensures AnyColumns(NormalizeAll(dfs)) <==> AnyColumns(dfs)
  {
    var normed := NormalizeAll(dfs);
    assert forall k :: 0 <= k < |dfs| ==>
      |normed[k].rows| == |dfs[k].rows| && |normed[k].columns| == |dfs[k].columns|;
  }

  /** Tables without a row or without a column merge, even without make, model and year. */
  lemma MergeOfEmptyTables(dfs: seq<Frame>)
    requires dfs != [] && forall k :: 0 <= k < |dfs| ==> Normalizable(dfs[k])
    requires !AnyRows(dfs) || !AnyColumns(dfs)
    ensures MergeNormalized(NormalizeAll(dfs)) == Success(Concat(NormalizeAll(dfs)))
  {
    NormalizeAllShape(dfs);
  }

  /** `clean_and_merge([pd.DataFrame()])`: the empty result merges again to an empty table. */
  lemma MergeOfEmptyFrame()
    ensures MergeNormalized(NormalizeAll([EmptyFrame])).Success?
    ensures var out := MergeNormalized(NormalizeAll([EmptyFrame])).value;
      out.rows == [] && out.columns == []
  {
    MergeOfEmptyTables([EmptyFrame]);
    var normed := NormalizeAll([EmptyFrame]);
    ConcatEmpty(normed);
  }

  /**
   * The merge succeeds exactly when the concatenation is empty (no table has a row, or
   * none has a column) or some table has each of `make`, `model` and `year`; otherwise
   * `drop_duplicates` raises `KeyError` for a missing one.
   */
  lemma MergeFailsOnlyWithoutIdentity(dfs: seq<Frame>)
    requires dfs != [] && forall k :: 0 <= k < |dfs| ==> Normalizable(dfs[k])
    ensures var r := MergeNormalized(NormalizeAll(dfs));
      r.Success? <==> !AnyRows(dfs) || !AnyColumns(dfs) || forall c :: c in IdentityColumns ==>
        exists k :: 0 <= k < |dfs| && c in NormalizeFrame(dfs[k]).columns
  {
    var normed := NormalizeAll(dfs);
    NormalizeAllShape(dfs);
    assert forall k :: 0 <= k < |dfs| ==> normed[k].columns == NormalizeFrame(dfs[k]).columns;
    assert HasIdentity(normed) <==> forall c :: c in IdentityColumns ==>
      exists k :: 0 <= k < |dfs| && c in NormalizeFrame(dfs[k]).columns;
  }

  /** After merging tables that have a column between them no two rows share an identity triple. */
  lemma MergedTriplesUnique(dfs: seq<Frame>)
    requires forall k :: 0 <= k < |dfs| ==> Normalizable(dfs[k])
    requires AnyColumns(dfs)
    requires MergeNormalized(NormalizeAll(dfs)).Success?
    ensures var out := MergeNormalized(NormalizeAll(dfs)).value.rows;
      && HasColumns(out, IdentityColumns)
      && forall k, l :: 0 <= k < l < |out| ==> Key(out[k], IdentityColumns) != Key(out[l], IdentityColumns)
  {
    var normed := NormalizeAll(dfs);
    NormalizeAllShape(dfs);
    ConcatEmpty(normed);
    DropDuplicatesUniqueKeys(Concat(normed), IdentityColumns);
  }

  /**
   * The merged rows are the first row of each identity triple in concatenation order
   * (later duplicates are dropped), and each triple of any input row is still present.
   */
  lemma MergedKeepsFirstOfEachTriple(dfs: seq<Frame>)
    requires forall k :: 0 <= k < |dfs| ==> Normalizable(dfs[k])
    requires AnyColumns(dfs)
    requires MergeNormalized(NormalizeAll(dfs)).Success?
    ensures var all := Concat(NormalizeAll(dfs));
      && HasColumns(all.rows, IdentityColumns)
      && MergeNormalized(NormalizeAll(dfs)).value.rows == FirstOccurrences(all.rows, IdentityColumns)
  {
    var normed := NormalizeAll(dfs);
    NormalizeAllShape(dfs);
    ConcatEmpty(normed);
    if AnyRows(normed) {
      DropDuplicatesKeepsFirst(Concat(normed), IdentityColumns);
    }
  }

  /** Row `i` of table `k` keeps its identity triple in the merged output. */
  lemma MergedKeepsEveryTriple(dfs: seq<Frame>, k: nat, i: nat)
    requires forall k :: 0 <= k < |dfs| ==> Normalizable(dfs[k])
    requires AnyColumns(dfs)
    requires MergeNormalized(NormalizeAll(dfs)).Success?
    requires k < |dfs| && i < |dfs[k].rows|
    ensures var normed := NormalizeAll(dfs);
      var row := Pad(normed[k].rows[i], Concat(normed).columns);
      var out := MergeNormalized(normed).value.rows;
      && (forall c :: c in IdentityColumns ==> c in row)
      && HasColumns(out, IdentityColumns)
      && exists m :: 0 <= m < |out| && Key(out[m], IdentityColumns) == Key(row, IdentityColumns)
  {
    var normed := NormalizeAll(dfs);
    var all := Concat(normed);
    assert |normed[k].rows| == |dfs[k].rows|;
    var k0 :| 0 <= k0 < |dfs| && dfs[k0].columns != [];
    assert normed[k0].columns[0] in all.columns;
    assert DropDuplicates(all, IdentityColumns).Success?;
    assert forall c :: c in IdentityColumns ==> c in all.columns;
    var row := Pad(normed[k].rows[i], all.columns);
    assert forall c :: c in IdentityColumns ==> c in row by {
      forall c | c in IdentityColumns ensures c in row {
        assert c in ColumnSet(all.columns);
      }
    }
    ConcatRowAt(normed, k, i);
    DropDuplicatesKeepsEveryKey(all, IdentityColumns, Offset(normed, k) + i);
    var out := MergeNormalized(normed).value.rows;
    assert out == DropDuplicates(all, IdentityColumns).value.rows;
    assert all.rows[Offset(normed, k) + i] == row;
  }

  // ---------------------------------------------------------------------------
  // fetch_nhtsa_dummy

  /** The placeholder API feed: no rows, with the columns make, model, year, complaints. */
  function FetchNhtsaDummy(): (f: Frame)
    ensures WellFormed(f) && f.rows == []
    ensures forall c :: c in IdentityColumns ==> c in f.columns
  {
    Frame(["make", "model", "year", "complaints"], [])
  }

  // ---------------------------------------------------------------------------
  // engineer_features

  /** The four columns `engineer_features` adds or overwrites. */
  const DerivedColumns: seq<string> := ["vehicle_age", "complaint_rate", "recall_count", "avg_service_cost"]

  /** `fillna(0)` on one cell. */
  function FillNa(v: Value): (r: Value)
    ensures r != Missing && (v != Missing ==> r == v)
  {
    if v == Missing then Int(0) else v
  }

  /** The number a cell becomes under `astype(int)` (after `fillna(0)` when `fill` holds). */
  function CellNumber(v: Value, fill: bool): Result<int, PyError> {
    IntOf(if fill then FillNa(v) else v)
  }

  /** `astype(int)` (or `fillna(0).astype(...)`) of column `c`: every cell converted, or the call fails. */
  function ColumnNumbers(rows: seq<Row>, c: string, fill: bool): (r: Result<seq<int>, PyError>)
    requires forall i :: 0 <= i < |rows| ==> c in rows[i]
    ensures r.Success? <==> forall i {:trigger CellNumber(rows[i][c], fill)} :: 0 <= i < |rows| ==> CellNumber(rows[i][c], fill).Success?
    ensures r.Success? ==> |r.value| == |rows|
    ensures r.Success? ==> forall i {:trigger r.value[i]} :: 0 <= i < |rows| ==> r.value[i] == CellNumber(rows[i][c], fill).value
  {
    if rows == [] then Success([])
    else match CellNumber(rows[0][c], fill)
      case Failure(e) => Failure(e)
      case Success(x) =>
        match ColumnNumbers(rows[1..], c, fill)
        case Failure(e) =>
          assert forall i :: 1 <= i < |rows| ==> rows[1..][i - 1] == rows[i];
          Failure(e)
        case Success(xs) =>
          assert forall i :: 1 <= i < |rows| ==> rows[1..][i - 1] == rows[i];
          Success([x] + xs)
  }

  /**
   * `out.get(c, 0).fillna(0)`: the column with NaN replaced by 0. As written, an absent
   * column yields the plain int `0`, which has no `fillna`, so the call fails; with
   * `defaultAbsent` an absent column reads as all zeros instead.
   */
  function FilledColumn(f: Frame, c: string, defaultAbsent: bool): (r: Result<seq<int>, PyError>)
    requires WellFormed(f)
    ensures c !in f.columns ==> (r.Success? <==> defaultAbsent)
    ensures c !in f.columns && defaultAbsent ==> r.value == seq(|f.rows|, i => 0)
    ensures c in f.columns ==> HasColumns(f.rows, [c]) && r == ColumnNumbers(f.rows, c, true)
    ensures r.Success? ==> |r.value| == |f.rows|
  {
    if c in f.columns then
      ColumnCells(f, c);
      ColumnNumbers(f.rows, c, true)
    else if defaultAbsent then Success(seq(|f.rows|, i => 0))
    else Failure(AttributeError("fillna"))
  }

  /** One output row: the input row with the four derived cells set. */
  function DeriveRow(row: Row, age: int, complaints: int, recalls: int, cost: int): (r: Row)
    ensures r.Keys == row.Keys + ColumnSet(DerivedColumns)
    ensures forall c :: c in row && c !in DerivedColumns ==> r[c] == row[c]
    ensures r["vehicle_age"] == Int(age) && r["complaint_rate"] == Int(complaints)
    ensures r["recall_count"] == Int(recalls) && r["avg_service_cost"] == Int(cost)
  {
    DerivedColumnSet();
    row["vehicle_age" := Int(age)]["complaint_rate" := Int(complaints)]
       ["recall_count" := Int(recalls)]["avg_service_cost" := Int(cost)]
  }

  lemma DerivedColumnSet()
    ensures ColumnSet(DerivedColumns) == {"vehicle_age", "complaint_rate", "recall_count", "avg_service_cost"}
    ensures forall c :: c in DerivedColumns <==> c in {"vehicle_age", "complaint_rate", "recall_count", "avg_service_cost"}
  {
  }

  /** Row `i` of the derived frame; `years` are the converted years. */
  function DerivedRow(f: Frame, currentYear: int, years: seq<int>, complaints: seq<int>, recalls: seq<int>,
                      costs: seq<int>, i: nat): (r: Row)
    requires i < |f.rows| && i < |years| && i < |complaints| && i < |recalls| && i < |costs|
    ensures r.Keys == f.rows[i].Keys + ColumnSet(DerivedColumns)
    ensures forall c :: c in f.rows[i] && c !in DerivedColumns ==> r[c] == f.rows[i][c]
    ensures r["vehicle_age"] == Int(currentYear - years[i]) && r["complaint_rate"] == Int(complaints[i])
    ensures r["recall_count"] == Int(recalls[i]) && r["avg_service_cost"] == Int(costs[i])
  {
    DeriveRow(f.rows[i], currentYear - years[i], complaints[i], recalls[i], costs[i])
  }

  /** The derived frame once every column has been converted. */
  function Derived(f: Frame, currentYear: int, years: seq<int>, complaints: seq<int>, recalls: seq<int>,
                   costs: seq<int>): (r: Frame)
    requires WellFormed(f)
    requires |years| == |complaints| == |recalls| == |costs| == |f.rows|
    ensures WellFormed(r) && |r.rows| == |f.rows|
    ensures r.columns == AppendNew(f.columns, DerivedColumns)
    ensures forall i :: 0 <= i < |f.rows| ==>
      r.rows[i] == DerivedRow(f, currentYear, years, complaints, recalls, costs, i)
  {
    var rows := DerivedRows(f, currentYear, years, complaints, recalls, costs);
    DerivedKeys(f, currentYear, years, complaints, recalls, costs);
    Frame(AppendNew(f.columns, DerivedColumns), rows)
  }

  /** Every derived row has exactly the derived frame's columns as keys. */
  lemma DerivedKeys(f: Frame, currentYear: int, years: seq<int>, complaints: seq<int>, recalls: seq<int>,
                    costs: seq<int>)
    requires WellFormed(f)
    requires |years| == |complaints| == |recalls| == |costs| == |f.rows|
    ensures var rows := DerivedRows(f, currentYear, years, complaints, recalls, costs);
      forall i :: 0 <= i < |rows| ==> rows[i].Keys == ColumnSet(AppendNew(f.columns, DerivedColumns))
  {
    var rows := DerivedRows(f, currentYear, years, complaints, recalls, costs);
    AppendNewSet(f.columns, DerivedColumns);
    forall i | 0 <= i < |rows|
      ensures rows[i].Keys == ColumnSet(AppendNew(f.columns, DerivedColumns))
    {
      assert rows[i] == DerivedRow(f, currentYear, years, complaints, recalls, costs, i);
      assert f.rows[i].Keys == ColumnSet(f.columns);
    }
  }

  function DerivedRows(f: Frame, currentYear: int, years: seq<int>, complaints: seq<int>, recalls: seq<int>,
                       costs: seq<int>): (rows: seq<Row>)
    requires |years| == |complaints| == |recalls| == |costs| == |f.rows|
    ensures |rows| == |f.rows|
    ensures forall i :: 0 <= i < |f.rows| ==> rows[i] == DerivedRow(f, currentYear, years, complaints, recalls, costs, i)
  {
    seq(|f.rows|, i requires 0 <= i < |f.rows| => DerivedRow(f, currentYear, years, complaints, recalls, costs, i))
  }

  lemma AppendNewSet(acc: seq<string>, cols: seq<string>)
    ensures ColumnSet(AppendNew(acc, cols)) == ColumnSet(acc) + ColumnSet(cols)
  {
  }

  lemma ColumnCells(f: Frame, c: string)
    requires WellFormed(f) && c in f.columns
    ensures forall i :: 0 <= i < |f.rows| ==> c in f.rows[i]
  {
    assert c in ColumnSet(f.columns);
  }

  /** `out["year"].astype(int)`: `KeyError` without a `year` column. */
  function YearNumbers(f: Frame): (r: Result<seq<int>, PyError>)
    requires WellFormed(f)
    ensures "year" !in f.columns ==> r == Failure(KeyError("year"))
    ensures "year" in f.columns ==> HasColumns(f.rows, ["year"]) && r == ColumnNumbers(f.rows, "year", false)
    ensures r.Success? ==> "year" in f.columns && |r.value| == |f.rows|
  {
    if "year" !in f.columns then Failure(KeyError("year"))
    else
      ColumnCells(f, "year");
      ColumnNumbers(f.rows, "year", false)
  }

  function EngineerWith(f: Frame, currentYear: int, defaultAbsent: bool): (r: Result<Frame, PyError>)
    requires WellFormed(f)
    ensures r.Success? ==> WellFormed(r.value) && |r.value.rows| == |f.rows|
    ensures r.Success? <==>
      && YearNumbers(f).Success?
      && FilledColumn(f, "complaints", defaultAbsent).Success?
      && FilledColumn(f, "recalls", defaultAbsent).Success?
      && FilledColumn(f, "avg_service_cost", defaultAbsent).Success?
    ensures r.Success? ==> r.value == Derived(f, currentYear, YearNumbers(f).value,
      FilledColumn(f, "complaints", defaultAbsent).value, FilledColumn(f, "recalls", defaultAbsent).value,
      FilledColumn(f, "avg_service_cost", defaultAbsent).value)
  {
    match YearNumbers(f)
    case Failure(e) => Failure(e)
    case Success(years) =>
      match FilledColumn(f, "complaints", defaultAbsent)
      case Failure(e) => Failure(e)
      case Success(complaints) =>
        match FilledColumn(f, "recalls", defaultAbsent)
        case Failure(e) => Failure(e)
        case Success(recalls) =>
          match FilledColumn(f, "avg_service_cost", defaultAbsent)
          case Failure(e) => Failure(e)
          case Success(costs) =>
            Success(Derived(f, currentYear, years, complaints, recalls, costs))
  }

  /**
   * `engineer_features(df)` with the clock's year passed in as `currentYear`:
   * on a copy, `vehicle_age = currentYear - year`, and `complaint_rate`, `recall_count`,
   * `avg_service_cost` from `complaints`, `recalls`, `avg_service_cost` with NaN read as 0.
   */
  function EngineerFeatures(f: Frame, currentYear: int): (r: Result<Frame, PyError>)
    requires WellFormed(f)
    ensures r.Success? ==> WellFormed(r.value) && |r.value.rows| == |f.rows|
    ensures "year" !in f.columns ==> r == Failure(KeyError("year"))
  {
    EngineerWith(f, currentYear, false)
  }

  /** Every `year` cell converts to an integer. */
  predicate YearsConvert(f: Frame)
    requires WellFormed(f)
  {
    if "year" !in f.columns then false
    else
      ColumnCells(f, "year");
      forall i :: 0 <= i < |f.rows| ==> IntOf(f.rows[i]["year"]).Success?
  }

  /** Every cell of column `c` converts once NaN is read as 0. */
  predicate FilledConverts(f: Frame, c: string)
    requires WellFormed(f) && c in f.columns
  {
    ColumnCells(f, c);
    forall i :: 0 <= i < |f.rows| ==> CellNumber(f.rows[i][c], true).Success?
  }

  /** Column `c` is present and each of its cells converts once NaN is read as 0. */
  predicate FilledReady(f: Frame, c: string)
    requires WellFormed(f)
  {
    c in f.columns && FilledConverts(f, c)
  }

  /**
   * `engineer_features` succeeds exactly when every year converts and each of `complaints`,
   * `recalls` and `avg_service_cost` is a column whose cells convert; an absent one fails.
   */
  lemma EngineerFeaturesSucceedsIff(f: Frame, currentYear: int)
    requires WellFormed(f)
    ensures EngineerFeatures(f, currentYear).Success? <==>
      YearsConvert(f) && FilledReady(f, "complaints") && FilledReady(f, "recalls") && FilledReady(f, "avg_service_cost")
  {
    if "year" in f.columns {
      ColumnCells(f, "year");
      assert forall i :: 0 <= i < |f.rows| ==> CellNumber(f.rows[i]["year"], false) == IntOf(f.rows[i]["year"]);
      assert ColumnNumbers(f.rows, "year", false).Success? <==> YearsConvert(f);
    }
  }

  /** Row `i` of a successful enrichment, cell by cell. */
  lemma DerivedAt(f: Frame, currentYear: int, defaultAbsent: bool, i: nat)
    requires WellFormed(f) && EngineerWith(f, currentYear, defaultAbsent).Success? && i < |f.rows|
    ensures |YearNumbers(f).value| == |FilledColumn(f, "complaints", defaultAbsent).value| == |f.rows|
    ensures |FilledColumn(f, "recalls", defaultAbsent).value| == |f.rows|
    ensures |FilledColumn(f, "avg_service_cost", defaultAbsent).value| == |f.rows|
    ensures var o, row := EngineerWith(f, currentYear, defaultAbsent).value.rows[i], f.rows[i];
      && o.Keys == row.Keys + ColumnSet(DerivedColumns)
      && (forall c :: c in row && c !in DerivedColumns ==> o[c] == row[c])
      && o["vehicle_age"] == Int(currentYear - YearNumbers(f).value[i])
      && o["complaint_rate"] == Int(FilledColumn(f, "complaints", defaultAbsent).value[i])
      && o["recall_count"] == Int(FilledColumn(f, "recalls", defaultAbsent).value[i])
      && o["avg_service_cost"] == Int(FilledColumn(f, "avg_service_cost", defaultAbsent).value[i])
  {
    var r := EngineerWith(f, currentYear, defaultAbsent);
    var years := YearNumbers(f).value;
    var cs := FilledColumn(f, "complaints", defaultAbsent).value;
    var rs := FilledColumn(f, "recalls", defaultAbsent).value;
    var ac := FilledColumn(f, "avg_service_cost", defaultAbsent).value;
    assert r.value == Derived(f, currentYear, years, cs, rs, ac);
    assert r.value.rows[i] == DerivedRow(f, currentYear, years, cs, rs, ac, i);
  }

  /**
   * One row out per row in, the input's columns first and in order, and every cell outside
   * the four derived columns unchanged.
   */
  lemma EngineerFeaturesKeepsRows(f: Frame, currentYear: int, i: nat)
    requires WellFormed(f) && EngineerFeatures(f, currentYear).Success? && i < |f.rows|
    ensures var out := EngineerFeatures(f, currentYear).value;
      && out.columns == AppendNew(f.columns, DerivedColumns)
      && |out.rows| == |f.rows|
      && out.rows[i].Keys == f.rows[i].Keys + ColumnSet(DerivedColumns)
      && forall c :: c in f.rows[i] && c !in DerivedColumns ==> out.rows[i][c] == f.rows[i][c]
  {
    var out := EngineerFeatures(f, currentYear).value;
    var years := YearNumbers(f).value;
    var cs := FilledColumn(f, "complaints", false).value;
    var rs := FilledColumn(f, "recalls", false).value;
    var ac := FilledColumn(f, "avg_service_cost", false).value;
    DerivedAt(f, currentYear, false, i);
  }

  /** The converted year of row `i` is `int()` of its `year` cell. */
  lemma YearAt(f: Frame, i: nat)
    requires WellFormed(f) && YearNumbers(f).Success? && i < |f.rows|
    ensures "year" in f.rows[i] && IntOf(f.rows[i]["year"]).Success?
    ensures YearNumbers(f).value[i] == IntOf(f.rows[i]["year"]).value
  {
    ColumnCells(f, "year");
    assert CellNumber(f.rows[i]["year"], false) == IntOf(f.rows[i]["year"]);
  }

  /**
   * `vehicle_age` is `currentYear - y`, where `y` is `int()` of the row's `year` cell:
   * negative for a year after `currentYear`.
   */
  lemma EngineerFeaturesAge(f: Frame, currentYear: int, i: nat)
    requires WellFormed(f) && EngineerFeatures(f, currentYear).Success? && i < |f.rows|
    ensures |YearNumbers(f).value| == |f.rows| && "year" in f.rows[i]
    ensures IntOf(f.rows[i]["year"]) == Success(YearNumbers(f).value[i])
    ensures EngineerFeatures(f, currentYear).value.rows[i]["vehicle_age"] == Int(currentYear - YearNumbers(f).value[i])
  {
    DerivedAt(f, currentYear, false, i);
    YearAt(f, i);
  }

  /**
   * `complaint_rate`, `recall_count` and `avg_service_cost` are the converted cells of
   * `complaints`, `recalls` and `avg_service_cost`, with NaN read as 0.
   */
  lemma EngineerFeaturesFilled(f: Frame, currentYear: int, i: nat)
    requires WellFormed(f) && EngineerFeatures(f, currentYear).Success? && i < |f.rows|
    ensures var row, o := f.rows[i], EngineerFeatures(f, currentYear).value.rows[i];
      && "complaints" in row && o["complaint_rate"] == Int(CellNumber(row["complaints"], true).value)
      && "recalls" in row && o["recall_count"] == Int(CellNumber(row["recalls"], true).value)
      && "avg_service_cost" in row
      && o["avg_service_cost"] == Int(CellNumber(row["avg_service_cost"], true).value)
    ensures var row, o := f.rows[i], EngineerFeatures(f, currentYear).value.rows[i];
      && "complaints" in row && "recalls" in row && "avg_service_cost" in row
      && (row["complaints"] == Missing ==> o["complaint_rate"] == Int(0))
      && (row["recalls"] == Missing ==> o["recall_count"] == Int(0))
      && (row["avg_service_cost"] == Missing ==> o["avg_service_cost"] == Int(0))
  {
    DerivedAt(f, currentYear, false, i);
    assert "complaints" in f.columns && "recalls" in f.columns && "avg_service_cost" in f.columns;
  }

  /** A `year` cell that does not convert fails the whole call: no partial frame is produced. */
  lemma BadYearFails(f: Frame, currentYear: int, i: nat)
    requires WellFormed(f) && i < |f.rows| && "year" in f.rows[i] && IntOf(f.rows[i]["year"]).Failure?
    ensures EngineerFeatures(f, currentYear).Failure?
  {
    EngineerFeaturesSucceedsIff(f, currentYear);
  }

  /** The module's own placeholder feed has no `recalls` column, so enriching it fails. */
  lemma DummyFeedCannotBeEnriched(currentYear: int)
    ensures EngineerFeatures(FetchNhtsaDummy(), currentYear) == Failure(AttributeError("fillna"))
  {
    var f := FetchNhtsaDummy();
    assert "year" in f.columns && "complaints" in f.columns && "recalls" !in f.columns;
  }

  /**
   * `engineer_features` as its docstring intends ("complaint_rate (if available)", placeholder
   * counts and costs): an absent `complaints`, `recalls` or `avg_service_cost` column reads as 0.
   */
  function EngineerFeaturesDefaulted(f: Frame, currentYear: int): (r: Result<Frame, PyError>)
    requires WellFormed(f)
    ensures r.Success? ==> WellFormed(r.value) && |r.value.rows| == |f.rows|
    ensures r.Success? ==> r.value.columns == AppendNew(f.columns, DerivedColumns)
  {
    EngineerWith(f, currentYear, true)
  }

  /** A column that is absent, or present with convertible cells. */
  predicate FilledOptional(f: Frame, c: string)
    requires WellFormed(f)
  {
    c !in f.columns || FilledConverts(f, c)
  }

  /** The corrected version fails only on a bad `year` or on a cell that does not convert. */
  lemma DefaultedSucceedsIff(f: Frame, currentYear: int)
    requires WellFormed(f)
    ensures EngineerFeaturesDefaulted(f, currentYear).Success? <==>
      YearsConvert(f) && FilledOptional(f, "complaints") && FilledOptional(f, "recalls")
      && FilledOptional(f, "avg_service_cost")
  {
    if "year" in f.columns {
      ColumnCells(f, "year");
      assert forall i :: 0 <= i < |f.rows| ==> CellNumber(f.rows[i]["year"], false) == IntOf(f.rows[i]["year"]);
      assert ColumnNumbers(f.rows, "year", false).Success? <==> YearsConvert(f);
    }
  }

  /** Where all three source columns exist, the corrected version is the original one. */
  lemma DefaultedAgrees(f: Frame, currentYear: int)
    requires WellFormed(f)
    requires "complaints" in f.columns && "recalls" in f.columns && "avg_service_cost" in f.columns
    ensures EngineerFeaturesDefaulted(f, currentYear) == EngineerFeatures(f, currentYear)
  {
  }

  /** The corrected version reads an absent source column as all zeros. */
  lemma DefaultedAbsentIsZero(f: Frame, currentYear: int, i: nat)
    requires WellFormed(f) && EngineerFeaturesDefaulted(f, currentYear).Success? && i < |f.rows|
    ensures var o := EngineerFeaturesDefaulted(f, currentYear).value.rows[i];
      && ("complaints" !in f.columns ==> o["complaint_rate"] == Int(0))
      && ("recalls" !in f.columns ==> o["recall_count"] == Int(0))
      && ("avg_service_cost" !in f.columns ==> o["avg_service_cost"] == Int(0))
  {
    var out := EngineerFeaturesDefaulted(f, currentYear).value;
    var years := YearNumbers(f).value;
    var cs := FilledColumn(f, "complaints", true).value;
    var rs := FilledColumn(f, "recalls", true).value;
    var ac := FilledColumn(f, "avg_service_cost", true).value;
    DerivedAt(f, currentYear, true, i);
  }

  /** With the correction the placeholder feed enriches to an empty table. */
  lemma DummyFeedEnrichedWhenDefaulted(currentYear: int)
    ensures EngineerFeaturesDefaulted(FetchNhtsaDummy(), currentYear).Success?
    ensures EngineerFeaturesDefaulted(FetchNhtsaDummy(), currentYear).value.rows == []
  {
    var f := FetchNhtsaDummy();
    assert "year" in f.columns && "complaints" in f.columns;
    assert "recalls" !in f.columns && "avg_service_cost" !in f.columns;
  }

  /** A one-row table holding only `year = 2020`, enriched in 2025. */
  function YearOnly(): (f: Frame)
    ensures WellFormed(f) && |f.rows| == 1
  {
    var f := Frame(["year"], [map["year" := Int(2020)]]);
    assert ColumnSet(f.columns) == {"year"};
    f
  }

  /** As written, the one-row table fails on its missing `complaints` column. */
  lemma YearOnlyFails()
    ensures EngineerFeatures(YearOnly(), 2025) == Failure(AttributeError("fillna"))
  {
    var f := YearOnly();
    assert "year" in f.columns && "complaints" !in f.columns;
  }

  /** With the correction the one-row table enriches to age 5 and zeros for the rest. */
  lemma YearOnlyDefaulted()
    ensures EngineerFeaturesDefaulted(YearOnly(), 2025).Success?
    ensures var o := EngineerFeaturesDefaulted(YearOnly(), 2025).value.rows[0];
      && "vehicle_age" in o && o["vehicle_age"] == Int(5)
      && "complaint_rate" in o && o["complaint_rate"] == Int(0)
      && "recall_count" in o && o["recall_count"] == Int(0)
      && "avg_service_cost" in o && o["avg_service_cost"] == Int(0)
  {
    var f := YearOnly();
    YearOnlyColumns();
    DerivedAt(f, 2025, true, 0);
  }

  /** The one-row table's year converts to 2020, and each absent source column defaults to 0. */
  lemma YearOnlyColumns()
    ensures YearNumbers(YearOnly()) == Success([2020])
    ensures FilledColumn(YearOnly(), "complaints", true) == Success([0])
    ensures FilledColumn(YearOnly(), "recalls", true) == Success([0])
    ensures FilledColumn(YearOnly(), "avg_service_cost", true) == Success([0])
  {
    var f := YearOnly();
    assert "year" in f.columns && "complaints" !in f.columns;
    assert "recalls" !in f.columns && "avg_service_cost" !in f.columns;
    assert f.rows[0]["year"] == Int(2020);
    YearAt(f, 0);
    assert YearNumbers(f).value == [2020];
    assert seq(|f.rows|, i => 0) == [0];
  }
}
