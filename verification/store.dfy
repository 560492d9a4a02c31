/** The relational store the SQLite repositories share: four entity tables,
    kept as row sequences in rowid order, and three route association tables,
    kept as sets of (route id, other id) pairs. */
module Store {
  import opened Outcomes
  import opened Text
  import opened Tables

  type Id = string

  /** A `time.Time` value, compared only for equality. */
  datatype Timestamp = Timestamp(unixNanos: int)

  /** A `float64` coordinate, compared only for equality (its bit pattern). */
  datatype Coordinate = Coordinate(bits: bv64)

  datatype Route = Route(id: Id, number: string)

  datatype Bus = Bus(
    id: Id,
    brand: string,
    busModel: string,
    registerNumber: string,
    assemblyDate: Timestamp,
    lastRepairDate: Timestamp)

  datatype BusStop = BusStop(
    id: Id,
    routeId: Id,
    lat: Coordinate,
    long: Coordinate,
    order: int,
    name: string)

  datatype Driver = Driver(
    id: Id,
    name: string,
    surname: string,
    patronymic: string,
    birthDate: Timestamp,
    passportSeries: string,
    snils: string,
    licenseSeries: string)

  // Columns, as projections usable with the generic table statements.
  function RouteId(r: Route): string { r.id }
  function RouteNumber(r: Route): string { r.number }
  function BusId(b: Bus): string { b.id }
  function RegisterNumber(b: Bus): string { b.registerNumber }
  function StopId(s: BusStop): string { s.id }
  function StopRouteId(s: BusStop): string { s.routeId }
  function StopName(s: BusStop): string { s.name }
  function DriverId(d: Driver): string { d.id }
  function PassportSeries(d: Driver): string { d.passportSeries }
  function Snils(d: Driver): string { d.snils }
  function LicenseSeries(d: Driver): string { d.licenseSeries }

  /** The three many-to-many relations of a route. */
  datatype LinkKind = DriverLink | BusLink | BusStopLink

  datatype Db = Db(
    routes: seq<Route>,
    buses: seq<Bus>,
    busStops: seq<BusStop>,
    drivers: seq<Driver>,
    routesDrivers: set<(Id, Id)>,
    routesBuses: set<(Id, Id)>,
    routesBusStops: set<(Id, Id)>)

  /** The association table of one kind. */
  function Links(db: Db, k: LinkKind): set<(Id, Id)>
  {
    match k
    case DriverLink => db.routesDrivers
    case BusLink => db.routesBuses
    case BusStopLink => db.routesBusStops
  }

  /** `db` with the association table of kind `k` replaced by `s`. */
  function WithLinks(db: Db, k: LinkKind, s: set<(Id, Id)>): (d: Db)
    ensures Links(d, k) == s
    ensures forall k' :: k' != k ==> Links(d, k') == Links(db, k')
    ensures d.routes == db.routes && d.buses == db.buses
    ensures d.busStops == db.busStops && d.drivers == db.drivers
  {
    match k
    case DriverLink => db.(routesDrivers := s)
    case BusLink => db.(routesBuses := s)
    case BusStopLink => db.(routesBusStops := s)
  }

  /** The constraints of the schema: every id is a PRIMARY KEY, the bus
      register number and the driver's passport series, SNILS and licence
      series are UNIQUE. Route numbers and stop names carry no constraint. */
  predicate Valid(db: Db)
  {
    && Unique(db.routes, RouteId)
    && Unique(db.buses, BusId)
    && Unique(db.buses, RegisterNumber)
    && Unique(db.busStops, StopId)
    && Unique(db.drivers, DriverId)
    && Unique(db.drivers, PassportSeries)
    && Unique(db.drivers, Snils)
    && Unique(db.drivers, LicenseSeries)
  }

  /** Some row other than `row`'s own (by `key`) already holds `row`'s value
      in column `other`: the new value would violate a UNIQUE constraint. */
  predicate Taken<R(==)>(t: seq<R>, key: R -> string, other: R -> string, row: R)
  {
    exists x :: x in t && key(x) != key(row) && other(x) == other(row)
  }

  /** What a generated UUID is: non-blank and not yet a key of the table. */
  predicate FreshFor<R(==)>(id: Id, t: seq<R>, key: R -> string)
  {
    !IsBlank(id) && id !in Column(t, key)
  }

  /** The id `Add` writes: a blank one is replaced by the generated one. */
  function AssignedId(given: Id, generated: Id): (id: Id)
    requires !IsBlank(generated)
    ensures !IsBlank(id)
    ensures !IsBlank(given) ==> id == given
  {
    if IsBlank(given) then generated else given
  }

  /** The result of a statement that only reports an error. */
  datatype Effect = Effect(status: Status, db: Db)

  /** The result of `Add`: the error, the store, and the caller's record as
      `Add` leaves it (with a generated id written back). */
  datatype Insertion<R> = Insertion(status: Status, db: Db, record: R)
}
