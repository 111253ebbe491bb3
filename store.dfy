/**
 * The relational store behind the service: the `vehicles` and `service_history`
 * tables with their columns, held in memory in insertion order. Primary keys are
 * assigned 1, 2, 3, ... as rows are inserted.
 */
module Store {
  import opened Wrappers
  import opened Values

  /** A `datetime.date`. */
  datatype Date = Date(year: nat, month: nat, day: nat)

  /** A `vehicles` row. Text columns are cells so that NULL (`Missing`) can be stored. */
  datatype Vehicle = Vehicle(
    id: nat, make: Value, model: Value, year: int, mileage: int,
    engineType: Value, transmission: Value)

  /** A `service_history` row. */
  datatype ServiceRecord = ServiceRecord(
    id: nat, vehicleId: int, serviceDate: Date, serviceType: string, cost: Value)

  /** The contents of both tables. */
  datatype DbState = DbState(vehicles: seq<Vehicle>, services: seq<ServiceRecord>)

  /** Row `i` of each table has primary key `i + 1`. */
  predicate Numbered(s: DbState) {
    && (forall i :: 0 <= i < |s.vehicles| ==> s.vehicles[i].id == i + 1)
    && (forall i :: 0 <= i < |s.services| ==> s.services[i].id == i + 1)
  }

  predicate SameTriple(v: Vehicle, make: Value, model: Value, year: int) {
    v.make == make && v.model == model && v.year == year
  }

  /** `query(Vehicle).filter_by(make=..., model=..., year=...).first()`, as a position. */
  function FindVehicle(vs: seq<Vehicle>, make: Value, model: Value, year: int): (r: Option<nat>)
    ensures r.Some? ==> r.value < |vs| && SameTriple(vs[r.value], make, model, year)
    ensures r.Some? ==> forall j :: 0 <= j < r.value ==> !SameTriple(vs[j], make, model, year)
    ensures r.None? <==> forall j :: 0 <= j < |vs| ==> !SameTriple(vs[j], make, model, year)
  {
    if vs == [] then None
    else if SameTriple(vs[0], make, model, year) then Some(0)
    else match FindVehicle(vs[1..], make, model, year)
      case None => None
      case Some(k) => Some(k + 1)
  }

  /** Inserting a vehicle: the store assigns the next primary key. */
  function InsertVehicle(s: DbState, make: Value, model: Value, year: int, mileage: int,
                         engineType: Value, transmission: Value): (r: DbState)
    ensures Numbered(s) ==> Numbered(r)
    ensures r.services == s.services && |r.vehicles| == |s.vehicles| + 1
    ensures r.vehicles[..|s.vehicles|] == s.vehicles
  {
    var v := Vehicle(|s.vehicles| + 1, make, model, year, mileage, engineType, transmission);
    assert (s.vehicles + [v])[..|s.vehicles|] == s.vehicles;
    DbState(s.vehicles + [v], s.services)
  }

  /** Inserting a service-history row: the store assigns the next primary key. */
  function InsertService(s: DbState, vehicleId: int, date: Date, serviceType: string, cost: Value): (r: DbState)
    ensures Numbered(s) ==> Numbered(r)
    ensures r.vehicles == s.vehicles && |r.services| == |s.services| + 1
    ensures r.services[..|s.services|] == s.services
  {
    var sh := ServiceRecord(|s.services| + 1, vehicleId, date, serviceType, cost);
    assert (s.services + [sh])[..|s.services|] == s.services;
    DbState(s.vehicles, s.services + [sh])
  }

  /** A database session; `add` followed by `commit` and `refresh` is one insertion. */
  class Database {
    var vehicles: seq<Vehicle>
    var services: seq<ServiceRecord>

    function State(): DbState
      reads this
    {
      DbState(vehicles, services)
    }

    ghost predicate Valid()
      reads this
    {
      Numbered(State())
    }

    constructor ()
      ensures Valid() && vehicles == [] && services == []
    {
      vehicles := [];
      services := [];
    }

    /** `db.add(Vehicle(...)); db.commit(); db.refresh(v)`: the refreshed row carries its new id. */
    method AddVehicle(make: Value, model: Value, year: int, mileage: int,
                      engineType: Value, transmission: Value) returns (v: Vehicle)
      requires Valid()
      modifies this
      ensures Valid()
      ensures State() == InsertVehicle(old(State()), make, model, year, mileage, engineType, transmission)
      ensures v == vehicles[|vehicles| - 1] && v.id == |vehicles|
    {
      v := Vehicle(|vehicles| + 1, make, model, year, mileage, engineType, transmission);
      vehicles := vehicles + [v];
    }

    /** `db.add(ServiceHistory(...)); db.commit()` */
    method AddService(vehicleId: int, date: Date, serviceType: string, cost: Value)
      requires Valid()
      modifies this
      ensures Valid()
      ensures State() == InsertService(old(State()), vehicleId, date, serviceType, cost)
    {
      services := services + [ServiceRecord(|services| + 1, vehicleId, date, serviceType, cost)];
    }
  }
}
