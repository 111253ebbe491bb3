/**
 * `save_to_db`: a get-or-create loop over the rows of a table. Each row finds or
 * inserts the vehicle with its `make`/`model`/`year` triple and, when the row's
 * `avg_service_cost` is truthy, appends a "summary" service-history row for it.
 * Every insertion is committed at once, so an exception part-way through leaves
 * the rows already written in place.
 */
module Persist {
  import opened Wrappers
  import opened Values
  import opened Frames
  import opened Store

  /** The store after some rows have been saved, and whether the loop ran to the end. */
  datatype Step = Step(state: DbState, outcome: Outcome<PyError>)

  /** `row.get(c)` */
  function Get(row: Row, c: string): (r: Option<Value>)
    ensures r.Some? <==> c in row
    ensures r.Some? ==> r.value == row[c]
  {
    if c in row then Some(row[c]) else None
  }

  /** How a Python value is bound into a nullable column: `None` is NULL. */
  function Nullable(o: Option<Value>): Value {
    if o.None? then Missing else o.value
  }

  /** `int(row.get("year"))`: `int(None)` raises `TypeError`. */
  function RowYear(row: Row): (r: Result<int, PyError>)
    ensures "year" !in row ==> r == Failure(TypeError("None"))
    ensures "year" in row ==> r == IntOf(row["year"])
  {
    if "year" in row then IntOf(row["year"]) else Failure(TypeError("None"))
  }

  /** `int(row.get("mileage", 0))` */
  function RowMileage(row: Row): (r: Result<int, PyError>)
    ensures "mileage" !in row ==> r == Success(0)
    ensures "mileage" in row ==> r == IntOf(row["mileage"])
  {
    if "mileage" in row then IntOf(row["mileage"]) else Success(0)
  }

  function RowMake(row: Row): Value { Nullable(Get(row, "make")) }
  function RowModel(row: Row): Value { Nullable(Get(row, "model")) }

  /** The vehicle of a row is in `vs`: its year converts and a vehicle with its triple exists. */
  predicate Stored(vs: seq<Vehicle>, row: Row) {
    RowYear(row).Success? && FindVehicle(vs, RowMake(row), RowModel(row), RowYear(row).value).Some?
  }

  /** The row asks for a summary row (`if row.get("avg_service_cost"):`). */
  predicate WantsSummary(row: Row) {
    Truthy(Get(row, "avg_service_cost"))
  }

  /** The vehicle of a row after the get-or-create step, with the store it leaves. */
  datatype Fetched = Fetched(state: DbState, vehicleId: int)

  /**
   * The first vehicle with the row's triple, or, when there is none, a new vehicle
   * built from the row (mileage 0 when the row has none; engine type and transmission
   * NULL when absent).
   */
  function GetOrCreate(s: DbState, row: Row, year: int): (r: Result<Fetched, PyError>)
    ensures r.Failure? <==> FindVehicle(s.vehicles, RowMake(row), RowModel(row), year).None? && RowMileage(row).Failure?
    ensures r.Success? ==> r.value.state.services == s.services
    ensures r.Success? && FindVehicle(s.vehicles, RowMake(row), RowModel(row), year).Some? ==> r.value.state == s
    ensures r.Success? && FindVehicle(s.vehicles, RowMake(row), RowModel(row), year).None? ==>
      && |r.value.state.vehicles| == |s.vehicles| + 1
      && r.value.state.vehicles[..|s.vehicles|] == s.vehicles
      && r.value.vehicleId == r.value.state.vehicles[|s.vehicles|].id
  {
    match FindVehicle(s.vehicles, RowMake(row), RowModel(row), year)
    case Some(k) => Success(Fetched(s, s.vehicles[k].id))
    case None =>
      match RowMileage(row)
      case Failure(e) => Failure(e)
      case Success(mileage) =>
        var t := InsertVehicle(s, RowMake(row), RowModel(row), year, mileage,
                               Nullable(Get(row, "engine_type")), Nullable(Get(row, "transmission")));
        Success(Fetched(t, t.vehicles[|t.vehicles| - 1].id))
  }

  /** The summary step for a row whose vehicle has id `vehicleId`. */
  function AddSummary(s: DbState, row: Row, vehicleId: int, today: Date): (r: Step)
    ensures r.state.vehicles == s.vehicles
    ensures !WantsSummary(row) ==> r == Step(s, Pass)
    ensures r.outcome.Fail? ==> r.state == s && WantsSummary(row)
    ensures WantsSummary(row) && r.outcome.Pass? ==>
      && |r.state.services| == |s.services| + 1
      && r.state.services[..|s.services|] == s.services
      && var x := r.state.services[|s.services|];
         x.vehicleId == vehicleId && x.serviceDate == today && x.serviceType == "summary"
         && Success(x.cost) == FloatOf(row["avg_service_cost"])
  {
    if !WantsSummary(row) then Step(s, Pass)
    else match FloatOf(row["avg_service_cost"])
      case Failure(e) => Step(s, Fail(e))
      case Success(cost) => Step(InsertService(s, vehicleId, today, "summary", cost), Pass)
  }

  /** One iteration of the loop. */
  function SaveRow(s: DbState, row: Row, today: Date): (r: Step)
    ensures |s.vehicles| <= |r.state.vehicles| && r.state.vehicles[..|s.vehicles|] == s.vehicles
    ensures |s.services| <= |r.state.services| && r.state.services[..|s.services|] == s.services
    ensures Numbered(s) ==> Numbered(r.state)
  {
    match RowYear(row)
    case Failure(e) => Step(s, Fail(e))
    case Success(year) =>
      match GetOrCreate(s, row, year)
      case Failure(e) => Step(s, Fail(e))
      case Success(got) => AddSummary(got.state, row, got.vehicleId, today)
  }

  /** The loop over `rows`: it stops at the first row that raises. */
  function SaveRows(s: DbState, rows: seq<Row>, today: Date): (r: Step)
    ensures |s.vehicles| <= |r.state.vehicles| && r.state.vehicles[..|s.vehicles|] == s.vehicles
    ensures |s.services| <= |r.state.services| && r.state.services[..|s.services|] == s.services
    ensures Numbered(s) ==> Numbered(r.state)
    decreases |rows|
  {
    if rows == [] then Step(s, Pass)
    else
      var first := SaveRow(s, rows[0], today);
      if first.outcome.Fail? then first
      else
        var r := SaveRows(first.state, rows[1..], today);
        assert r.state.vehicles[..|s.vehicles|] == r.state.vehicles[..|first.state.vehicles|][..|s.vehicles|];
        assert r.state.services[..|s.services|] == r.state.services[..|first.state.services|][..|s.services|];
        r
  }

  /** One iteration against a live session. */
  method SaveRowTo(row: Row, db: Database, today: Date) returns (outcome: Outcome<PyError>)
    requires db.Valid()
    modifies db
    ensures db.Valid()
    ensures Step(db.State(), outcome) == SaveRow(old(db.State()), row, today)
  {
    var year := RowYear(row);
    if year.Failure? {
      return Fail(year.error);
    }
    var vehicleId: int;
    var found := FindVehicle(db.vehicles, RowMake(row), RowModel(row), year.value);
    if found.Some? {
      vehicleId := db.vehicles[found.value].id;
    } else {
      var mileage := RowMileage(row);
      if mileage.Failure? {
        return Fail(mileage.error);
      }
      var v := db.AddVehicle(RowMake(row), RowModel(row), year.value, mileage.value,
                             Nullable(Get(row, "engine_type")), Nullable(Get(row, "transmission")));
      vehicleId := v.id;
    }
    if WantsSummary(row) {
      var cost := FloatOf(row["avg_service_cost"]);
      if cost.Failure? {
        return Fail(cost.error);
      }
      db.AddService(vehicleId, today, "summary", cost.value);
    }
    return Pass;
  }

  /** `save_to_db(df, db)`, with `datetime.now().date()` passed in as `today`. */
  method SaveToDb(f: Frame, db: Database, today: Date) returns (outcome: Outcome<PyError>)
    requires db.Valid()
    modifies db
    ensures db.Valid()
    ensures Step(db.State(), outcome) == SaveRows(old(db.State()), f.rows, today)
  {
    ghost var start := db.State();
    for i := 0 to |f.rows|
      invariant db.Valid()
      invariant SaveRows(db.State(), f.rows[i..], today) == SaveRows(start, f.rows, today)
    {
      assert f.rows[i..][1..] == f.rows[i + 1..];
      var o := SaveRowTo(f.rows[i], db, today);
      if o.Fail? {
        return o;
      }
    }
    return Pass;
  }

  // ---------------------------------------------------------------------------
  // Properties of the loop

  /** Every vehicle from position `n` on has a triple that no earlier vehicle has. */
  predicate FreshFrom(vs: seq<Vehicle>, n: nat) {
    forall k, j :: n <= k < |vs| && 0 <= j < k ==> !SameTriple(vs[j], vs[k].make, vs[k].model, vs[k].year)
  }

  /** No two vehicles share a triple. */
  predicate UniqueTriples(vs: seq<Vehicle>) {
    FreshFrom(vs, 0)
  }

  /** A vehicle is created only when none with its triple is already stored. */
  lemma SaveRowCreatesOnlyNew(s: DbState, row: Row, today: Date)
    ensures FreshFrom(SaveRow(s, row, today).state.vehicles, |s.vehicles|)
  {
    var vs := SaveRow(s, row, today).state.vehicles;
    if RowYear(row).Success? {
      var year := RowYear(row).value;
      var got := GetOrCreate(s, row, year);
      if got.Success? {
        assert vs == got.value.state.vehicles;
        if FindVehicle(s.vehicles, RowMake(row), RowModel(row), year).None? {
          assert |vs| == |s.vehicles| + 1;
          var v := vs[|s.vehicles|];
          assert SameTriple(v, RowMake(row), RowModel(row), year);
          forall j | 0 <= j < |s.vehicles| ensures !SameTriple(vs[j], v.make, v.model, v.year) {
            assert vs[j] == s.vehicles[j];
          }
        }
      }
    }
  }

  lemma {:induction false} SaveRowsCreatesOnlyNew(s: DbState, rows: seq<Row>, today: Date)
    ensures FreshFrom(SaveRows(s, rows, today).state.vehicles, |s.vehicles|)
    decreases |rows|
  {
    if rows != [] {
      var first := SaveRow(s, rows[0], today);
      SaveRowCreatesOnlyNew(s, rows[0], today);
      if first.outcome.Pass? {
        SaveRowsCreatesOnlyNew(first.state, rows[1..], today);
        var vs := SaveRows(first.state, rows[1..], today).state.vehicles;
        forall k, j | |s.vehicles| <= k < |vs| && 0 <= j < k
          ensures !SameTriple(vs[j], vs[k].make, vs[k].model, vs[k].year)
        {
          if k < |first.state.vehicles| {
            assert vs[k] == first.state.vehicles[k] && vs[j] == first.state.vehicles[j];
          }
        }
      }
    }
  }

  /** Saving keeps the store free of duplicate triples. */
  lemma SaveRowsKeepsTriplesUnique(s: DbState, rows: seq<Row>, today: Date)
    requires UniqueTriples(s.vehicles)
    ensures UniqueTriples(SaveRows(s, rows, today).state.vehicles)
  {
    SaveRowsCreatesOnlyNew(s, rows, today);
    var vs := SaveRows(s, rows, today).state.vehicles;
    forall k, j | 0 <= k < |vs| && 0 <= j < k
      ensures !SameTriple(vs[j], vs[k].make, vs[k].model, vs[k].year)
    {
      if k < |s.vehicles| {
        assert vs[k] == s.vehicles[k] && vs[j] == s.vehicles[j];
      }
    }
  }

  /** Every service row from position `n` on is a "summary" dated `today` for a stored vehicle id. */
  predicate SummariesFrom(s: DbState, n: nat, today: Date) {
    forall k :: n <= k < |s.services| ==>
      && s.services[k].serviceType == "summary" && s.services[k].serviceDate == today
      && 1 <= s.services[k].vehicleId <= |s.vehicles|
  }

  lemma SaveRowAddsSummaries(s: DbState, row: Row, today: Date)
    requires Numbered(s)
    ensures SummariesFrom(SaveRow(s, row, today).state, |s.services|, today)
  {
    var r := SaveRow(s, row, today);
    if RowYear(row).Success? {
      var found := FindVehicle(s.vehicles, RowMake(row), RowModel(row), RowYear(row).value);
      if found.Some? {
        assert s.vehicles[found.value].id == found.value + 1;
      }
    }
  }

  /** The only service rows written are summaries dated `today` that name a stored vehicle. */
  lemma {:induction false} SaveRowsAddsSummaries(s: DbState, rows: seq<Row>, today: Date)
    requires Numbered(s)
    ensures SummariesFrom(SaveRows(s, rows, today).state, |s.services|, today)
    decreases |rows|
  {
    if rows != [] {
      var first := SaveRow(s, rows[0], today);
      SaveRowAddsSummaries(s, rows[0], today);
      if first.outcome.Pass? {
        SaveRowsAddsSummaries(first.state, rows[1..], today);
        var r := SaveRows(first.state, rows[1..], today).state;
        forall k | |s.services| <= k < |first.state.services|
          ensures r.services[k] == first.state.services[k]
        {
          assert r.services[..|first.state.services|][k] == r.services[k];
        }
      }
    }
  }

  /** A row whose triple is stored leaves the vehicles as they are. */
  lemma SaveRowReuses(s: DbState, row: Row, today: Date)
    requires Stored(s.vehicles, row)
    ensures SaveRow(s, row, today).state.vehicles == s.vehicles
  {
  }

  /**
   * A row whose triple is not stored inserts exactly one vehicle built from the row,
   * with mileage 0 when the row has no `mileage`.
   */
  lemma SaveRowCreates(s: DbState, row: Row, today: Date)
    requires RowYear(row).Success? && !Stored(s.vehicles, row) && RowMileage(row).Success?
    ensures var year := RowYear(row).value;
      SaveRow(s, row, today).state.vehicles == s.vehicles + [Vehicle(|s.vehicles| + 1, RowMake(row),
        RowModel(row), year, RowMileage(row).value, Nullable(Get(row, "engine_type")),
        Nullable(Get(row, "transmission")))]
    ensures "mileage" !in row ==> SaveRow(s, row, today).state.vehicles[|s.vehicles|].mileage == 0
  {
  }

  /**
   * A row that converts and asks for a summary appends exactly one service row, for the
   * vehicle that now carries the row's triple, costing `float(avg_service_cost)`.
   */
  lemma SaveRowSummary(s: DbState, row: Row, today: Date)
    requires Numbered(s) && Stored(SaveRow(s, row, today).state.vehicles, row)
    requires WantsSummary(row) && SaveRow(s, row, today).outcome.Pass?
    ensures "avg_service_cost" in row && FloatOf(row["avg_service_cost"]).Success?
    ensures var t := SaveRow(s, row, today).state;
      var k := FindVehicle(t.vehicles, RowMake(row), RowModel(row), RowYear(row).value).value;
      t.services == s.services + [ServiceRecord(|s.services| + 1, k + 1, today, "summary",
        FloatOf(row["avg_service_cost"]).value)]
  {
    var year := RowYear(row).value;
    GetOrCreateFinds(s, row, year);
    var got := GetOrCreate(s, row, year).value;
    assert SaveRow(s, row, today) == AddSummary(got.state, row, got.vehicleId, today);
  }

  /**
   * NaN is truthy, so a row whose `avg_service_cost` is NaN and that goes through
   * appends one summary row whose cost is NULL.
   */
  lemma SaveRowNaNCost(s: DbState, row: Row, today: Date)
    requires Numbered(s) && Get(row, "avg_service_cost") == Some(Missing)
    requires SaveRow(s, row, today).outcome.Pass?
    ensures var t := SaveRow(s, row, today).state;
      && |t.services| == |s.services| + 1
      && t.services[..|s.services|] == s.services
      && t.services[|s.services|].serviceType == "summary"
      && t.services[|s.services|].cost == Missing
  {
    var year := RowYear(row).value;
    var got := GetOrCreate(s, row, year).value;
    assert got.state.services == s.services;
    assert SaveRow(s, row, today) == AddSummary(got.state, row, got.vehicleId, today);
  }

  /** The vehicle id the get-or-create step yields is one past the position the triple is found at. */
  lemma GetOrCreateFinds(s: DbState, row: Row, year: int)
    requires Numbered(s) && GetOrCreate(s, row, year).Success?
    ensures var got := GetOrCreate(s, row, year).value;
      && got.state.services == s.services
      && FindVehicle(got.state.vehicles, RowMake(row), RowModel(row), year) == Some(got.vehicleId - 1)
  {
    var got := GetOrCreate(s, row, year).value;
    var found := FindVehicle(s.vehicles, RowMake(row), RowModel(row), year);
    if found.Some? {
      assert s.vehicles[found.value].id == found.value + 1;
    } else {
      assert FindVehicle(got.state.vehicles, RowMake(row), RowModel(row), year) == Some(|s.vehicles|);
    }
  }

  /** A vehicle found in a store is found at the same place once more vehicles follow it. */
  lemma {:induction false} FindVehicleInPrefix(vs: seq<Vehicle>, ws: seq<Vehicle>, make: Value, model: Value, year: int)
    requires |vs| <= |ws| && ws[..|vs|] == vs && FindVehicle(vs, make, model, year).Some?
    ensures FindVehicle(ws, make, model, year) == FindVehicle(vs, make, model, year)
  {
    var k := FindVehicle(vs, make, model, year).value;
    assert ws[k] == vs[k];
    forall j | 0 <= j < k ensures !SameTriple(ws[j], make, model, year) {
      assert ws[j] == vs[j];
    }
  }

  lemma StoredInPrefix(vs: seq<Vehicle>, ws: seq<Vehicle>, row: Row)
    requires |vs| <= |ws| && ws[..|vs|] == vs && Stored(vs, row)
    ensures Stored(ws, row)
  {
    FindVehicleInPrefix(vs, ws, RowMake(row), RowModel(row), RowYear(row).value);
  }

  /** A row that goes through leaves its vehicle stored. */
  lemma SaveRowStores(s: DbState, row: Row, today: Date)
    requires SaveRow(s, row, today).outcome.Pass?
    ensures Stored(SaveRow(s, row, today).state.vehicles, row)
  {
    var year := RowYear(row).value;
    var vs := SaveRow(s, row, today).state.vehicles;
    if FindVehicle(s.vehicles, RowMake(row), RowModel(row), year).None? {
      assert SameTriple(vs[|s.vehicles|], RowMake(row), RowModel(row), year);
    } else {
      assert vs == s.vehicles;
    }
  }

  /** After a complete run every row's year converted and its vehicle is stored. */
  lemma {:induction false} SaveRowsStoresEveryRow(s: DbState, rows: seq<Row>, today: Date)
    requires SaveRows(s, rows, today).outcome.Pass?
    ensures forall i :: 0 <= i < |rows| ==> Stored(SaveRows(s, rows, today).state.vehicles, rows[i])
    decreases |rows|
  {
    if rows != [] {
      var first := SaveRow(s, rows[0], today);
      var r := SaveRows(first.state, rows[1..], today);
      SaveRowsStoresEveryRow(first.state, rows[1..], today);
      SaveRowStores(s, rows[0], today);
      StoredInPrefix(first.state.vehicles, r.state.vehicles, rows[0]);
      forall i | 1 <= i < |rows| ensures Stored(r.state.vehicles, rows[i]) {
        assert rows[1..][i - 1] == rows[i];
      }
    }
  }

  /** The cost cell of a row asking for a summary converts. */
  predicate CostConverts(row: Row) {
    WantsSummary(row) ==> "avg_service_cost" in row && FloatOf(row["avg_service_cost"]).Success?
  }

  /** After a complete run every row's cost cell converted. */
  lemma {:induction false} SaveRowsConvertsEveryCost(s: DbState, rows: seq<Row>, today: Date)
    requires SaveRows(s, rows, today).outcome.Pass?
    ensures forall i :: 0 <= i < |rows| ==> CostConverts(rows[i])
    decreases |rows|
  {
    if rows != [] {
      var first := SaveRow(s, rows[0], today);
      SaveRowsConvertsEveryCost(first.state, rows[1..], today);
      forall i | 1 <= i < |rows| ensures CostConverts(rows[i]) {
        assert rows[1..][i - 1] == rows[i];
      }
    }
  }

  /** The number of rows that ask for a summary. */
  function SummaryCount(rows: seq<Row>): (n: nat)
    ensures n <= |rows|
  {
    if rows == [] then 0 else (if WantsSummary(rows[0]) then 1 else 0) + SummaryCount(rows[1..])
  }

  /** A complete run writes one service row per row asking for a summary. */
  lemma {:induction false} SaveRowsSummaryCount(s: DbState, rows: seq<Row>, today: Date)
    requires SaveRows(s, rows, today).outcome.Pass?
    ensures |SaveRows(s, rows, today).state.services| == |s.services| + SummaryCount(rows)
    decreases |rows|
  {
    if rows != [] {
      var first := SaveRow(s, rows[0], today);
      SaveRowsSummaryCount(first.state, rows[1..], today);
    }
  }

  /**
   * Rows whose vehicles are all stored and whose costs convert run to the end without
   * inserting a vehicle.
   */
  lemma {:induction false} SaveStoredRows(s: DbState, rows: seq<Row>, today: Date)
    requires forall i :: 0 <= i < |rows| ==> Stored(s.vehicles, rows[i]) && CostConverts(rows[i])
    ensures SaveRows(s, rows, today).outcome.Pass?
    ensures SaveRows(s, rows, today).state.vehicles == s.vehicles
    decreases |rows|
  {
    if rows != [] {
      var first := SaveRow(s, rows[0], today);
      assert Stored(s.vehicles, rows[0]) && CostConverts(rows[0]);
      SaveRowReuses(s, rows[0], today);
      assert first.outcome.Pass?;
      forall i | 0 <= i < |rows| - 1 ensures Stored(first.state.vehicles, rows[1..][i]) && CostConverts(rows[1..][i]) {
        assert rows[1..][i] == rows[i + 1];
      }
      SaveStoredRows(first.state, rows[1..], today);
    }
  }

  /**
   * "Idempotent-ish": saving the same rows a second time inserts no vehicle, but appends
   * every summary row again.
   */
  lemma SaveRowsTwice(s: DbState, rows: seq<Row>, today: Date)
    requires SaveRows(s, rows, today).outcome.Pass?
    ensures var once := SaveRows(s, rows, today).state;
      var twice := SaveRows(once, rows, today);
      && twice.outcome.Pass?
      && twice.state.vehicles == once.vehicles
      && |twice.state.services| == |once.services| + SummaryCount(rows)
  {
    var once := SaveRows(s, rows, today).state;
    SaveRowsStoresEveryRow(s, rows, today);
    SaveRowsConvertsEveryCost(s, rows, today);
    SaveStoredRows(once, rows, today);
    SaveRowsSummaryCount(once, rows, today);
  }
}
