/**
 * The HTTP handlers of the service: `POST /vehicles`, `GET /vehicles`,
 * `GET /service-history` and `POST /predict`. Routing and request validation are
 * not modelled; each handler is the computation it performs on its arguments and
 * on the store.
 */
module Api {
  import opened Wrappers
  import opened Values
  import opened Store

  // ---------------------------------------------------------------------------
  // POST /vehicles

  /** The request body of `POST /vehicles`; `mileage` defaults to 0, the two texts to `None`. */
  datatype VehicleCreate = VehicleCreate(
    make: string, model: string, year: int, mileage: int := 0,
    engineType: Option<string> := None, transmission: Option<string> := None)

  /** An optional text bound into a nullable column. */
  function Text(o: Option<string>): (r: Value)
    ensures o.None? <==> r == Missing
    ensures o.Some? ==> r == Str(o.value)
  {
    if o.None? then Missing else Str(o.value)
  }

  /** The store after inserting the vehicle a payload describes. */
  function Created(s: DbState, p: VehicleCreate): DbState {
    InsertVehicle(s, Str(p.make), Str(p.model), p.year, p.mileage, Text(p.engineType), Text(p.transmission))
  }

  /** `create_vehicle`: inserts one vehicle built from the payload and returns `{"id": v.id}`. */
  method CreateVehicle(p: VehicleCreate, db: Database) returns (id: nat)
    requires db.Valid()
    modifies db
    ensures db.Valid()
    ensures db.State() == Created(old(db.State()), p)
    ensures id == db.vehicles[|db.vehicles| - 1].id
  {
    var v := db.AddVehicle(Str(p.make), Str(p.model), p.year, p.mileage, Text(p.engineType), Text(p.transmission));
    id := v.id;
  }

  /**
   * The inserted row carries the payload's fields under an id no earlier vehicle has;
   * no other row changes.
   */
  lemma CreatedIsFresh(s: DbState, p: VehicleCreate)
    requires Numbered(s)
    ensures var t := Created(s, p);
      && t.services == s.services
      && t.vehicles == s.vehicles + [Vehicle(|s.vehicles| + 1, Str(p.make), Str(p.model), p.year,
           p.mileage, Text(p.engineType), Text(p.transmission))]
      && forall k :: 0 <= k < |s.vehicles| ==> s.vehicles[k].id != t.vehicles[|s.vehicles|].id
  {
    var t := Created(s, p);
    assert t.vehicles[..|s.vehicles|] == s.vehicles;
    assert t.vehicles == t.vehicles[..|s.vehicles|] + [t.vehicles[|s.vehicles|]];
  }

  // ---------------------------------------------------------------------------
  // GET /vehicles

  /** One entry of the vehicle listing. */
  datatype VehicleSummary = VehicleSummary(id: nat, make: Value, model: Value, year: int)

  function Summary(v: Vehicle): VehicleSummary {
    VehicleSummary(v.id, v.make, v.model, v.year)
  }

  function Min(a: int, b: int): int { if a <= b then a else b }

  /**
   * `list_vehicles(skip, limit)`: `offset(skip).limit(limit)` in store order, each
   * vehicle projected to id, make, model and year.
   */
  function ListVehicles(s: DbState, skip: nat := 0, limit: nat := 50): (r: seq<VehicleSummary>)
    ensures |r| == if skip >= |s.vehicles| then 0 else Min(limit, |s.vehicles| - skip)
    ensures forall i :: 0 <= i < |r| ==> skip + i < |s.vehicles| && r[i] == Summary(s.vehicles[skip + i])
  {
    var lo := Min(skip, |s.vehicles|);
    var hi := Min(lo + limit, |s.vehicles|);
    seq(hi - lo, i requires 0 <= i < hi - lo => Summary(s.vehicles[lo + i]))
  }

  /** Consecutive pages: `limit` a at `skip` followed by `limit` b at `skip + a` is `limit` a + b at `skip`. */
  lemma ListVehiclesPages(s: DbState, skip: nat, a: nat, b: nat)
    ensures ListVehicles(s, skip, a) + ListVehicles(s, skip + a, b) == ListVehicles(s, skip, a + b)
  {
    var p, q, all := ListVehicles(s, skip, a), ListVehicles(s, skip + a, b), ListVehicles(s, skip, a + b);
    assert |p + q| == |all|;
    forall i | 0 <= i < |all| ensures (p + q)[i] == all[i] {
      if i >= |p| {
        assert (p + q)[i] == q[i - |p|];
      }
    }
  }

  /** With primary keys 1, 2, ... the listing from `skip` has ids `skip + 1`, `skip + 2`, ... */
  lemma ListVehiclesIds(s: DbState, skip: nat, limit: nat)
    requires Numbered(s)
    ensures forall i :: 0 <= i < |ListVehicles(s, skip, limit)| ==> ListVehicles(s, skip, limit)[i].id == skip + i + 1
  {
  }

  /** A page from 0 as long as the table lists every vehicle. */
  lemma ListVehiclesAll(s: DbState, limit: nat)
    requires |s.vehicles| <= limit
    ensures |ListVehicles(s, 0, limit)| == |s.vehicles|
    ensures forall v :: v in s.vehicles ==> Summary(v) in ListVehicles(s, 0, limit)
  {
    forall v | v in s.vehicles ensures Summary(v) in ListVehicles(s, 0, limit) {
      var k :| 0 <= k < |s.vehicles| && s.vehicles[k] == v;
      assert ListVehicles(s, 0, limit)[k] == Summary(v);
    }
  }

  // ---------------------------------------------------------------------------
  // GET /service-history

  /** `"0" * n` */
  function Zeros(n: nat): (r: string)
    ensures |r| == n && forall k :: 0 <= k < n ==> r[k] == '0'
  {
    if n == 0 then "" else "0" + Zeros(n - 1)
  }

  /** `n` in decimal, left-padded with zeros to at least `w` digits (`%0wd`). */
  function PadNat(n: nat, w: nat): (r: string)
    ensures AllDigits(r)
    ensures |ShowNat(n)| <= w ==> |r| == w
  {
    var d := ShowNat(n);
    if |d| < w then Zeros(w - |d|) + d else d
  }

  /**
   * `date.isoformat()`: `YYYY-MM-DD`. The year takes at least four digits and the month
   * and day at least two, so the two dashes close a two-digit month and day.
   */
  function IsoFormat(d: Date): (r: string)
    ensures |r| >= 10 && AllDigits(r[..4])
    ensures d.month < 100 && d.day < 100 ==>
      r[|r| - 6] == '-' && r[|r| - 3] == '-' && AllDigits(r[|r| - 5..|r| - 3]) && AllDigits(r[|r| - 2..])
  {
    var y, m, dd := PadNat(d.year, 4), PadNat(d.month, 2), PadNat(d.day, 2);
    TwoDigitField(d.month);
    TwoDigitField(d.day);
    var t := y + "-" + m + "-" + dd;
    assert t[..4] == y[..4];
    t
  }

  /** A month or day below 100 pads to exactly two digits. */
  lemma TwoDigitField(n: nat)
    ensures n < 100 ==> |PadNat(n, 2)| == 2
  {
    if n < 100 {
      ShowNatDigits(n, 2);
    }
  }

  lemma {:induction false} DigitsValueZeros(z: string, t: string)
    requires (forall k :: 0 <= k < |z| ==> z[k] == '0') && AllDigits(t)
    ensures AllDigits(z + t) && DigitsValue(z + t) == DigitsValue(t)
    decreases |t|, |z|
  {
    assert AllDigits(z + t) by {
      forall k | 0 <= k < |z + t| ensures IsDigit((z + t)[k]) {
        if k >= |z| {
          assert (z + t)[k] == t[k - |z|];
        }
      }
    }
    if t == [] {
      assert z + t == z;
      if z != [] {
        DigitsValueZeros(z[..|z| - 1], []);
        assert z[..|z| - 1] + [] == z[..|z| - 1];
      }
    } else {
      assert (z + t)[..|z + t| - 1] == z + t[..|t| - 1];
      DigitsValueZeros(z, t[..|t| - 1]);
    }
  }

  /** Leading zeros do not change the number a padded numeral denotes. */
  lemma PadNatValue(n: nat, w: nat)
    ensures DigitsValue(PadNat(n, w)) == n
  {
    var d := ShowNat(n);
    DigitsOfShowNat(n);
    if |d| < w {
      DigitsValueZeros(Zeros(w - |d|), d);
    }
  }

  /** Numbers below 10^k have at most k digits. */
  lemma ShowNatDigits(n: nat, k: nat)
    requires 0 < k && n < Pow10(k)
    ensures |ShowNat(n)| <= k
    decreases k
  {
    if n >= 10 {
      ShowNatDigits(n / 10, k - 1);
    }
  }

  function Pow10(k: nat): (r: nat)
    ensures r >= 1
  {
    if k == 0 then 1 else 10 * Pow10(k - 1)
  }

  /**
   * For a date of `datetime.date`'s range the text is ten characters, and the year,
   * month and day are read back from their positions.
   */
  lemma IsoFormatReadsBack(d: Date)
    requires 1 <= d.year <= 9999 && 1 <= d.month <= 12 && 1 <= d.day <= 31
    ensures var t := IsoFormat(d);
      && |t| == 10 && t[4] == '-' && t[7] == '-'
      && AllDigits(t[..4]) && AllDigits(t[5..7]) && AllDigits(t[8..])
      && DigitsValue(t[..4]) == d.year && DigitsValue(t[5..7]) == d.month && DigitsValue(t[8..]) == d.day
  {
    var y, m, dd := PadNat(d.year, 4), PadNat(d.month, 2), PadNat(d.day, 2);
    ShowNatDigits(d.year, 4);
    ShowNatDigits(d.month, 2);
    ShowNatDigits(d.day, 2);
    PadNatValue(d.year, 4);
    PadNatValue(d.month, 2);
    PadNatValue(d.day, 2);
    var t := IsoFormat(d);
    assert t == y + "-" + m + "-" + dd;
    assert t[..4] == y;
    assert t[5..7] == m;
    assert t[8..] == dd;
  }

  /** One entry of the service-history listing; the date is rendered with `isoformat()`. */
  datatype ServiceOut = ServiceOut(id: nat, vehicleId: int, serviceDate: string, serviceType: string, cost: Value)

  function Out(r: ServiceRecord): ServiceOut {
    ServiceOut(r.id, r.vehicleId, IsoFormat(r.serviceDate), r.serviceType, r.cost)
  }

  /** `query(ServiceHistory).filter(vehicle_id == id)`, in store order. */
  function ServicesOf(ss: seq<ServiceRecord>, id: int): (r: seq<ServiceRecord>)
    ensures forall x :: x in r <==> x in ss && x.vehicleId == id
    ensures |r| <= |ss|
  {
    if ss == [] then []
    else (if ss[0].vehicleId == id then [ss[0]] else []) + ServicesOf(ss[1..], id)
  }

  /** `if vehicle_id:` — `None` and `0` are false. */
  predicate FilterGiven(vehicleId: Option<int>) {
    vehicleId.Some? && vehicleId.value != 0
  }

  /** The service rows `get_service_history` reads. */
  function HistoryRows(s: DbState, vehicleId: Option<int>): (r: seq<ServiceRecord>)
    ensures !FilterGiven(vehicleId) ==> r == s.services
    ensures FilterGiven(vehicleId) ==> forall x :: x in r <==> x in s.services && x.vehicleId == vehicleId.value
  {
    if FilterGiven(vehicleId) then ServicesOf(s.services, vehicleId.value) else s.services
  }

  /** `get_service_history(vehicle_id)`: the rows read, each rendered for the response. */
  function GetServiceHistory(s: DbState, vehicleId: Option<int> := None): (r: seq<ServiceOut>)
    ensures |r| == |HistoryRows(s, vehicleId)|
    ensures forall i :: 0 <= i < |r| ==> r[i] == Out(HistoryRows(s, vehicleId)[i])
  {
    var items := HistoryRows(s, vehicleId);
    seq(|items|, i requires 0 <= i < |items| => Out(items[i]))
  }

  /** Ids strictly increase along the sequence: each row appears once, in store order. */
  predicate Ascending(ss: seq<ServiceRecord>) {
    forall i, j :: 0 <= i < j < |ss| ==> ss[i].id < ss[j].id
  }

  lemma {:induction false} ServicesOfAscending(ss: seq<ServiceRecord>, id: int)
    requires Ascending(ss)
    ensures Ascending(ServicesOf(ss, id))
    decreases |ss|
  {
    if ss != [] {
      var tail := ss[1..];
      assert Ascending(tail) by {
        forall i, j | 0 <= i < j < |tail| ensures tail[i].id < tail[j].id {
          assert tail[i] == ss[i + 1] && tail[j] == ss[j + 1];
        }
      }
      ServicesOfAscending(tail, id);
      var rest := ServicesOf(tail, id);
      if ss[0].vehicleId == id {
        forall x | x in rest ensures ss[0].id < x.id {
          var k :| 0 <= k < |tail| && tail[k] == x;
          assert ss[k + 1] == x;
        }
        var r := [ss[0]] + rest;
        assert ServicesOf(ss, id) == r;
        forall i, j | 0 <= i < j < |r| ensures r[i].id < r[j].id {
          assert r[j] == rest[j - 1];
          if i > 0 {
            assert r[i] == rest[i - 1];
          }
        }
      } else {
        assert ServicesOf(ss, id) == [] + rest == rest;
      }
    }
  }

  /**
   * With a truthy `vehicle_id` the history is exactly the rows of that vehicle, each once
   * and in store order; with `None` or `0` it is every row.
   */
  lemma HistoryFilter(s: DbState, vehicleId: Option<int>)
    requires Numbered(s)
    ensures Ascending(HistoryRows(s, vehicleId))
    ensures !FilterGiven(vehicleId) ==> HistoryRows(s, vehicleId) == s.services
    ensures FilterGiven(vehicleId) ==>
      forall x :: x in HistoryRows(s, vehicleId) <==> x in s.services && x.vehicleId == vehicleId.value
  {
    if FilterGiven(vehicleId) {
      ServicesOfAscending(s.services, vehicleId.value);
    }
  }

  // ---------------------------------------------------------------------------
  // POST /predict

  /** The feature matrix handed to the models. */
  type Features = seq<seq<int>>

  /**
   * The two model files: whether each exists, and what `joblib.load` yields for it.
   * A loaded model is its `predict` method.
   */
  datatype Artifacts = Artifacts(
    clfExists: bool, regExists: bool,
    loadClf: Result<Features -> Result<seq<Value>, PyError>, PyError>,
    loadReg: Result<Features -> Result<seq<real>, PyError>, PyError>)

  /** The response of `POST /predict`. */
  datatype Forecast = Forecast(predictedIssue: string, likelihood: real, estimatedCost: real, rangeMonths: int)

  /** `[[2025 - year, mileage]]`: the reference year is the literal 2025. */
  function FeatureVector(year: int, mileage: int): (x: Features)
    ensures |x| == 1 && |x[0]| == 2 && x[0][0] == 2025 - year && x[0][1] == mileage
  {
    [[2025 - year, mileage]]
  }

  /** The answer when a model file is missing. */
  const Placeholder := Forecast("unknown", 0.1, 0.0, 6)

  /**
   * `predict(make, model_name, year, mileage)`: with both files present, load both models,
   * classify and price the feature vector, and report the first label and the first cost;
   * any exception propagates.
   */
  function Predict(a: Artifacts, make: string, modelName: string, year: int, mileage: int := 0): (r: Result<Forecast, PyError>)
    ensures r.Success? ==> r.value.rangeMonths == 6
    ensures r.Success? && r.value.predictedIssue != "unknown" ==> r.value.likelihood == 0.5
  {
    if !(a.clfExists && a.regExists) then Success(Placeholder)
    else match a.loadClf
      case Failure(e) => Failure(e)
      case Success(clf) =>
        match a.loadReg
        case Failure(e) => Failure(e)
        case Success(reg) =>
          var x := FeatureVector(year, mileage);
          match clf(x)
          case Failure(e) => Failure(e)
          case Success(labels) =>
            if |labels| == 0 then Failure(IndexError)
            else match reg(x)
              case Failure(e) => Failure(e)
              case Success(costs) =>
                if |costs| == 0 then Failure(IndexError)
                else Success(Forecast(ShowValue(labels[0]), 0.5, costs[0], 6))
  }

  /** Without both files the placeholder forecast is returned, whatever the arguments. */
  lemma PredictFallback(a: Artifacts, make: string, modelName: string, year: int, mileage: int)
    requires !a.clfExists || !a.regExists
    ensures Predict(a, make, modelName, year, mileage)
      == Success(Forecast("unknown", 0.1, 0.0, 6))
  {
  }

  /** The vehicle's make and model name play no part in the forecast. */
  lemma PredictIgnoresNames(a: Artifacts, make: string, modelName: string, make': string, modelName': string,
                            year: int, mileage: int)
    ensures Predict(a, make, modelName, year, mileage) == Predict(a, make', modelName', year, mileage)
  {
  }

  /**
   * With both files present and both models answering, the forecast is the classifier's
   * first label as text with likelihood 0.5, and the regressor's first value as the cost,
   * both computed on `[[2025 - year, mileage]]`.
   */
  lemma PredictWithModels(a: Artifacts, make: string, modelName: string, year: int, mileage: int)
    requires a.clfExists && a.regExists && a.loadClf.Success? && a.loadReg.Success?
    requires var x := [[2025 - year, mileage]];
      a.loadClf.value(x).Success? && |a.loadClf.value(x).value| > 0
      && a.loadReg.value(x).Success? && |a.loadReg.value(x).value| > 0
    ensures var x := [[2025 - year, mileage]];
      Predict(a, make, modelName, year, mileage) == Success(Forecast(
        ShowValue(a.loadClf.value(x).value[0]), 0.5, a.loadReg.value(x).value[0], 6))
  {
  }

  /** A failure to load a model file propagates: the classifier's first, then the regressor's. */
  lemma PredictLoadFails(a: Artifacts, make: string, modelName: string, year: int, mileage: int)
    requires a.clfExists && a.regExists && (a.loadClf.Failure? || a.loadReg.Failure?)
    ensures Predict(a, make, modelName, year, mileage)
      == Failure(if a.loadClf.Failure? then a.loadClf.error else a.loadReg.error)
  {
  }

  /**
   * With both models loaded, a failure while predicting propagates in source order:
   * the classifier's error, then `IndexError` for an empty label array (before the
   * regressor runs), then the regressor's error, then `IndexError` for an empty cost array.
   */
  lemma PredictModelFails(a: Artifacts, make: string, modelName: string, year: int, mileage: int)
    requires a.clfExists && a.regExists && a.loadClf.Success? && a.loadReg.Success?
    ensures var x := [[2025 - year, mileage]];
      var clf := a.loadClf.value(x);
      clf.Failure? ==> Predict(a, make, modelName, year, mileage) == Failure(clf.error)
    ensures var x := [[2025 - year, mileage]];
      var clf := a.loadClf.value(x);
      clf.Success? && |clf.value| == 0 ==> Predict(a, make, modelName, year, mileage) == Failure(IndexError)
    ensures var x := [[2025 - year, mileage]];
      var clf := a.loadClf.value(x);
      var reg := a.loadReg.value(x);
      clf.Success? && |clf.value| > 0 && reg.Failure? ==>
        Predict(a, make, modelName, year, mileage) == Failure(reg.error)
    ensures var x := [[2025 - year, mileage]];
      var clf := a.loadClf.value(x);
      var reg := a.loadReg.value(x);
      clf.Success? && |clf.value| > 0 && reg.Success? && |reg.value| == 0 ==>
        Predict(a, make, modelName, year, mileage) == Failure(IndexError)
  {
  }

  /** The models behave the same on the one feature vector `x`. */
  predicate AgreeOn(a: Artifacts, b: Artifacts, x: Features) {
    && a.clfExists == b.clfExists && a.regExists == b.regExists
    && a.loadClf.Success? == b.loadClf.Success? && a.loadReg.Success? == b.loadReg.Success?
    && (a.loadClf.Failure? ==> a.loadClf.error == b.loadClf.error)
    && (a.loadReg.Failure? ==> a.loadReg.error == b.loadReg.error)
    && (a.loadClf.Success? ==> a.loadClf.value(x) == b.loadClf.value(x))
    && (a.loadReg.Success? ==> a.loadReg.value(x) == b.loadReg.value(x))
  }

  /** The models are consulted on `[[2025 - year, mileage]]` and nowhere else. */
  lemma PredictReadsOnlyFeatureVector(a: Artifacts, b: Artifacts, make: string, modelName: string, year: int, mileage: int)
    requires AgreeOn(a, b, [[2025 - year, mileage]])
    ensures Predict(a, make, modelName, year, mileage) == Predict(b, make, modelName, year, mileage)
  {
  }
}
