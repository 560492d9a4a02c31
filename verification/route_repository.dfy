/** The SQLite route repository: the `routes` table (`id` PRIMARY KEY, no
    constraint on `number`) plus the three association tables
    `routes_drivers`, `routes_buses` and `routes_bus_stops`, each with the
    composite PRIMARY KEY (route_id, other_id). Every association operation
    first checks that the route exists; none checks the other side, and
    nothing cascades when either side is deleted. */
module RouteRepository {
  import opened Outcomes
  import opened Text
  import opened Tables
  import opened Store
  import DriverRepository

  function GetById(db: Db, id: Id): (r: Result<Route>)
    ensures r.Ok? <==> id in Column(db.routes, RouteId)
    ensures r.Ok? ==> r.value in db.routes && r.value.id == id
    ensures r.Err? ==> r.error == NotFound(RouteKind)
  {
    match Lookup(db.routes, RouteId, id)
    case Some(route) => Ok(route)
    case None => Err(NotFound(RouteKind))
  }

  /** Numbers are not unique once `UpdateById` has run, so the lookup
      returns the first route in table order that carries the number. */
  function GetByNumber(db: Db, number: string): (r: Result<Route>)
    ensures r.Ok? <==> number in Column(db.routes, RouteNumber)
    ensures r.Ok? ==> r.value == db.routes[IndexOf(db.routes, RouteNumber, number)]
    ensures r.Ok? ==> r.value.number == number
    ensures r.Err? ==> r.error == NotFound(RouteKind)
  {
    match Lookup(db.routes, RouteNumber, number)
    case Some(route) => Ok(route)
    case None => Err(NotFound(RouteKind))
  }

  /** Every stored row, each once. */
  function GetAll(db: Db): (r: seq<Route>)
    ensures |r| == |db.routes|
    ensures forall x :: x in r <==> x in db.routes
  {
    db.routes
  }

  /** Refuses a stored number; otherwise writes the generated id back into a
      blank-id input and inserts the row, which the PRIMARY KEY refuses when
      a caller-supplied id is already stored. */
  function Add(db: Db, route: Route, freshId: Id): (r: Insertion<Route>)
    requires FreshFor(freshId, db.routes, RouteId)
    ensures route.number in Column(db.routes, RouteNumber) ==>
              r == Insertion(Failed(AlreadyExists(RouteKind)), db, route)
    ensures route.number !in Column(db.routes, RouteNumber) ==>
              r.record == route.(id := AssignedId(route.id, freshId))
    ensures r.status == Done <==>
              route.number !in Column(db.routes, RouteNumber) && r.record.id !in Column(db.routes, RouteId)
    ensures r.status == Done ==> r.db == db.(routes := db.routes + [r.record])
    ensures r.status.Failed? ==> r.db == db
    ensures r.status.Failed? && r.status.error != AlreadyExists(RouteKind) ==> r.status.error == StoreError
  {
    if GetByNumber(db, route.number).Ok? then
      Insertion(Failed(AlreadyExists(RouteKind)), db, route)
    else
      var row := route.(id := if IsBlank(route.id) then freshId else route.id);
      if row.id in Column(db.routes, RouteId) then Insertion(Failed(StoreError), db, row)
      else Insertion(Done, db.(routes := db.routes + [row]), row)
  }

  /** Removes the route row only: every association row naming the route
      stays behind. */
  function DeleteById(db: Db, id: Id): (r: Effect)
    ensures id !in Column(db.routes, RouteId) ==> r == Effect(Failed(NotFound(RouteKind)), db)
    ensures id in Column(db.routes, RouteId) ==> r.status == Done
    ensures r.db == db.(routes := r.db.routes)
    ensures Column(r.db.routes, RouteId) == Column(db.routes, RouteId) - {id}
    ensures forall x :: x in db.routes && x.id != id ==> x in r.db.routes
    ensures forall x :: x in r.db.routes ==> x in db.routes
  {
    if GetById(db, id).Err? then Effect(Failed(NotFound(RouteKind)), db)
    else Effect(Done, db.(routes := Without(db.routes, RouteId, id)))
  }

  /** Changes the number of the route with the given id; the id stays. */
  function UpdateById(db: Db, route: Route): (r: Effect)
    ensures route.id !in Column(db.routes, RouteId) ==> r == Effect(Failed(NotFound(RouteKind)), db)
    ensures route.id in Column(db.routes, RouteId) ==> r.status == Done
    ensures r.db == db.(routes := r.db.routes)
    ensures |r.db.routes| == |db.routes|
    ensures forall i :: 0 <= i < |db.routes| ==> r.db.routes[i].id == db.routes[i].id
    ensures r.status == Done ==> forall i :: 0 <= i < |db.routes| ==>
              r.db.routes[i].number == (if db.routes[i].id == route.id then route.number else db.routes[i].number)
  {
    if GetById(db, route.id).Err? then Effect(Failed(NotFound(RouteKind)), db)
    else Effect(Done, db.(routes := Replace(db.routes, RouteId, route)))
  }

  /** `AssignDriver` / `AssignBus` / `AssignBusStop`: inserts the pair into
      the association table of kind `k` once the route exists. The other id
      is not looked up; the composite PRIMARY KEY refuses a pair already
      present. */
  function Assign(db: Db, k: LinkKind, routeId: Id, otherId: Id): (r: Effect)
    ensures routeId !in Column(db.routes, RouteId) ==> r == Effect(Failed(NotFound(RouteKind)), db)
    ensures routeId in Column(db.routes, RouteId) && (routeId, otherId) in Links(db, k) ==>
              r == Effect(Failed(StoreError), db)
    ensures r.status == Done <==>
              routeId in Column(db.routes, RouteId) && (routeId, otherId) !in Links(db, k)
    ensures r.status == Done ==> r.db == WithLinks(db, k, Links(db, k) + {(routeId, otherId)})
    ensures r.status == Done ==> |Links(r.db, k)| == |Links(db, k)| + 1
    ensures r.status.Failed? ==> r.db == db
  {
    if GetById(db, routeId).Err? then Effect(Failed(NotFound(RouteKind)), db)
    else if (routeId, otherId) in Links(db, k) then Effect(Failed(StoreError), db)
    else Effect(Done, WithLinks(db, k, Links(db, k) + {(routeId, otherId)}))
  }

  function AssignDriver(db: Db, routeId: Id, driverId: Id): (r: Effect)
    ensures routeId !in Column(db.routes, RouteId) ==> r == Effect(Failed(NotFound(RouteKind)), db)
    ensures r.status == Done <==> routeId in Column(db.routes, RouteId) && (routeId, driverId) !in db.routesDrivers
    ensures r.status == Done ==> r.db == db.(routesDrivers := db.routesDrivers + {(routeId, driverId)})
    ensures r.status.Failed? ==> r.db == db
  {
    Assign(db, DriverLink, routeId, driverId)
  }

  function AssignBus(db: Db, routeId: Id, busId: Id): (r: Effect)
    ensures routeId !in Column(db.routes, RouteId) ==> r == Effect(Failed(NotFound(RouteKind)), db)
    ensures r.status == Done <==> routeId in Column(db.routes, RouteId) && (routeId, busId) !in db.routesBuses
    ensures r.status == Done ==> r.db == db.(routesBuses := db.routesBuses + {(routeId, busId)})
    ensures r.status.Failed? ==> r.db == db
  {
    Assign(db, BusLink, routeId, busId)
  }

  function AssignBusStop(db: Db, routeId: Id, busStopId: Id): (r: Effect)
    ensures routeId !in Column(db.routes, RouteId) ==> r == Effect(Failed(NotFound(RouteKind)), db)
    ensures r.status == Done <==> routeId in Column(db.routes, RouteId) && (routeId, busStopId) !in db.routesBusStops
    ensures r.status == Done ==> r.db == db.(routesBusStops := db.routesBusStops + {(routeId, busStopId)})
    ensures r.status.Failed? ==> r.db == db
  {
    Assign(db, BusStopLink, routeId, busStopId)
  }

  /** `UnassignDriver` / `UnassignBus` / `UnassignBusStop`: once the route
      exists, removes exactly the pair; removing an absent pair succeeds and
      changes nothing. */
  function Unassign(db: Db, k: LinkKind, routeId: Id, otherId: Id): (r: Effect)
    ensures routeId !in Column(db.routes, RouteId) ==> r == Effect(Failed(NotFound(RouteKind)), db)
    ensures r.status == Done <==> routeId in Column(db.routes, RouteId)
    ensures r.status == Done ==> r.db == WithLinks(db, k, Links(db, k) - {(routeId, otherId)})
    ensures r.status == Done && (routeId, otherId) !in Links(db, k) ==> r.db == db
  {
    if GetById(db, routeId).Err? then Effect(Failed(NotFound(RouteKind)), db)
    else Effect(Done, WithLinks(db, k, Links(db, k) - {(routeId, otherId)}))
  }

  function UnassignDriver(db: Db, routeId: Id, driverId: Id): (r: Effect)
    ensures routeId !in Column(db.routes, RouteId) ==> r == Effect(Failed(NotFound(RouteKind)), db)
    ensures r.status == Done <==> routeId in Column(db.routes, RouteId)
    ensures r.status == Done ==> r.db == db.(routesDrivers := db.routesDrivers - {(routeId, driverId)})
  {
    Unassign(db, DriverLink, routeId, driverId)
  }

  function UnassignBus(db: Db, routeId: Id, busId: Id): (r: Effect)
    ensures routeId !in Column(db.routes, RouteId) ==> r == Effect(Failed(NotFound(RouteKind)), db)
    ensures r.status == Done <==> routeId in Column(db.routes, RouteId)
    ensures r.status == Done ==> r.db == db.(routesBuses := db.routesBuses - {(routeId, busId)})
  {
    Unassign(db, BusLink, routeId, busId)
  }

  function UnassignBusStop(db: Db, routeId: Id, busStopId: Id): (r: Effect)
    ensures routeId !in Column(db.routes, RouteId) ==> r == Effect(Failed(NotFound(RouteKind)), db)
    ensures r.status == Done <==> routeId in Column(db.routes, RouteId)
    ensures r.status == Done ==> r.db == db.(routesBusStops := db.routesBusStops - {(routeId, busStopId)})
  {
    Unassign(db, BusStopLink, routeId, busStopId)
  }

  /** The row predicate "paired with `routeId` in `links`". */
  function LinkedTo<R(!new)>(links: set<(Id, Id)>, routeId: Id, key: R -> string): (p: R -> bool)
    ensures forall x :: p(x) <==> (routeId, key(x)) in links
  {
    (x: R) => (routeId, key(x)) in links
  }

  /** The inner join of the drivers table with `routes_drivers`: exactly the
      stored drivers paired with the route. A pair whose driver no longer
      exists contributes nothing. */
  function GetAllDriversById(db: Db, routeId: Id): (r: Result<seq<Driver>>)
    ensures r.Err? <==> routeId !in Column(db.routes, RouteId)
    ensures r.Err? ==> r.error == NotFound(RouteKind)
    ensures r.Ok? ==> forall d :: d in r.value ==> d in db.drivers && (routeId, d.id) in db.routesDrivers
    ensures r.Ok? ==> forall d :: d in db.drivers && (routeId, d.id) in db.routesDrivers ==> d in r.value
    ensures Valid(db) && r.Ok? ==> Unique(r.value, DriverId)
  {
    if GetById(db, routeId).Err? then Err(NotFound(RouteKind))
    else
      var linked := LinkedTo(db.routesDrivers, routeId, DriverId);
      var joined := Filter(db.drivers, linked);
      assert Valid(db) ==> Unique(joined, DriverId) by {
        if Valid(db) { FilterKeepsUnique(db.drivers, linked, DriverId); }
      }
      Ok(joined)
  }

  /** The inner join of the buses table with `routes_buses`. */
  function GetAllBusesById(db: Db, routeId: Id): (r: Result<seq<Bus>>)
    ensures r.Err? <==> routeId !in Column(db.routes, RouteId)
    ensures r.Err? ==> r.error == NotFound(RouteKind)
    ensures r.Ok? ==> forall b :: b in r.value ==> b in db.buses && (routeId, b.id) in db.routesBuses
    ensures r.Ok? ==> forall b :: b in db.buses && (routeId, b.id) in db.routesBuses ==> b in r.value
    ensures Valid(db) && r.Ok? ==> Unique(r.value, BusId)
  {
    if GetById(db, routeId).Err? then Err(NotFound(RouteKind))
    else
      var linked := LinkedTo(db.routesBuses, routeId, BusId);
      var joined := Filter(db.buses, linked);
      assert Valid(db) ==> Unique(joined, BusId) by {
        if Valid(db) { FilterKeepsUnique(db.buses, linked, BusId); }
      }
      Ok(joined)
  }

  /** A bus stop as the joined read scans it: only id, lat, long and name;
      route_id and order keep Go's zero values. */
  function Scanned(s: BusStop): BusStop
  {
    BusStop(s.id, "", s.lat, s.long, 0, s.name)
  }

  /** `Scanned` applied to every row, in order. */
  function ScanAll(t: seq<BusStop>): (u: seq<BusStop>)
    ensures |u| == |t|
    ensures forall i :: 0 <= i < |u| ==> u[i].id == t[i].id
    ensures forall x :: x in u ==> exists s :: s in t && x == Scanned(s)
    ensures forall s :: s in t ==> Scanned(s) in u
  {
    if t == [] then [] else [Scanned(t[0])] + ScanAll(t[1..])
  }

  /** The inner join of the bus-stops table with `routes_bus_stops`, each
      stop carrying only the columns the query selects. */
  function GetAllBusStopsById(db: Db, routeId: Id): (r: Result<seq<BusStop>>)
    ensures r.Err? <==> routeId !in Column(db.routes, RouteId)
    ensures r.Err? ==> r.error == NotFound(RouteKind)
    ensures r.Ok? ==> forall x :: x in r.value ==>
              x.routeId == "" && x.order == 0 &&
              exists s :: s in db.busStops && (routeId, s.id) in db.routesBusStops && x == Scanned(s)
    ensures r.Ok? ==> forall s :: s in db.busStops && (routeId, s.id) in db.routesBusStops ==>
              Scanned(s) in r.value
    ensures Valid(db) && r.Ok? ==> Unique(r.value, StopId)
  {
    if GetById(db, routeId).Err? then Err(NotFound(RouteKind))
    else
      var linked := LinkedTo(db.routesBusStops, routeId, StopId);
      var joined := Filter(db.busStops, linked);
      assert Valid(db) ==> Unique(ScanAll(joined), StopId) by {
        if Valid(db) { FilterKeepsUnique(db.busStops, linked, StopId); }
      }
      Ok(ScanAll(joined))
  }

  /** A route added successfully is found again by its (possibly generated)
      id and by its number. */
  lemma AddThenGet(db: Db, route: Route, freshId: Id)
    requires Valid(db)
    requires FreshFor(freshId, db.routes, RouteId)
    requires Add(db, route, freshId).status == Done
    ensures var r := Add(db, route, freshId);
            && !IsBlank(r.record.id)
            && GetById(r.db, r.record.id) == Ok(r.record)
            && GetByNumber(r.db, route.number) == Ok(r.record)
            && r.record in GetAll(r.db)
  {
    var r := Add(db, route, freshId);
    AppendKeepsUnique(db.routes, RouteId, r.record);
    assert r.db.routes[|db.routes|] == r.record;
    assert IndexOf(r.db.routes, RouteNumber, route.number) == |db.routes|;
  }

  /** After a successful update the route keeps its id and `GetById` returns
      the new number. */
  lemma UpdateThenGet(db: Db, route: Route)
    requires Valid(db)
    requires route.id in Column(db.routes, RouteId)
    ensures GetById(UpdateById(db, route).db, route.id) == Ok(route)
  {
  }

  /** Deleting a route removes its row and leaves every association naming
      it in place. */
  lemma DeleteLeavesLinks(db: Db, id: Id, k: LinkKind)
    requires Valid(db)
    requires id in Column(db.routes, RouteId)
    ensures var r := DeleteById(db, id);
            && GetById(r.db, id) == Err(NotFound(RouteKind))
            && (forall x :: x in GetAll(r.db) ==> x.id != id)
            && Links(r.db, k) == Links(db, k)
            && r.db.routes == RemoveAt(db.routes, IndexOf(db.routes, RouteId, id))
  {
    WithoutUniqueRemovesOne(db.routes, RouteId, id);
  }

  /** A driver assigned to a route is read back by `GetAllDriversById`
      while both exist; unassigning it removes it from that read. */
  lemma AssignThenReadDrivers(db: Db, routeId: Id, d: Driver)
    requires d in db.drivers
    requires AssignDriver(db, routeId, d.id).status == Done
    ensures var a := AssignDriver(db, routeId, d.id);
            && GetAllDriversById(a.db, routeId).Ok?
            && d in GetAllDriversById(a.db, routeId).value
            && d !in GetAllDriversById(UnassignDriver(a.db, routeId, d.id).db, routeId).value
  {
    var a := AssignDriver(db, routeId, d.id);
    assert a.db.routes == db.routes;
  }

  /** The inner join hides dangling pairs: once a driver is deleted, the
      route no longer lists it, although the association row remains. */
  lemma DeletedDriverNotListed(db: Db, routeId: Id, driverId: Id)
    requires routeId in Column(db.routes, RouteId)
    requires driverId in Column(db.drivers, DriverId)
    ensures var after := DriverRepository.DeleteById(db, driverId).db;
            && after.routesDrivers == db.routesDrivers
            && GetAllDriversById(after, routeId).Ok?
            && forall x :: x in GetAllDriversById(after, routeId).value ==> x.id != driverId
  {
  }

  /** Route writes keep the schema's constraints. */
  lemma WritesKeepValid(db: Db, route: Route, freshId: Id, id: Id)
    requires Valid(db)
    requires FreshFor(freshId, db.routes, RouteId)
    ensures Valid(Add(db, route, freshId).db)
    ensures Valid(DeleteById(db, id).db)
    ensures Valid(UpdateById(db, route).db)
  {
    var a := Add(db, route, freshId);
    if a.status == Done {
      AppendKeepsUnique(db.routes, RouteId, a.record);
    }
    FilterKeepsUnique(db.routes, KeyIsNot(RouteId, id), RouteId);
    if UpdateById(db, route).status == Done {
      ReplaceKeepsUnique(db.routes, RouteId, RouteId, route);
    }
  }

  /** Association writes touch no entity table, so they keep the schema's
      constraints as well. */
  lemma LinkWritesKeepTables(db: Db, k: LinkKind, routeId: Id, otherId: Id)
    ensures var a := Assign(db, k, routeId, otherId).db;
            a.routes == db.routes && a.buses == db.buses && a.busStops == db.busStops && a.drivers == db.drivers
    ensures var u := Unassign(db, k, routeId, otherId).db;
            u.routes == db.routes && u.buses == db.buses && u.busStops == db.busStops && u.drivers == db.drivers
    ensures Valid(db) ==> Valid(Assign(db, k, routeId, otherId).db) && Valid(Unassign(db, k, routeId, otherId).db)
  {
  }
}
