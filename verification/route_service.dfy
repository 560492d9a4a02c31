/** The route service as its tests fix it: CRUD delegated to the route
    repository with errors unchanged, and the three assignments, which look
    up the route and the driver / bus / bus stop before delegating. The
    tests do not say which lookup runs first when both fail, so the order is
    the parameter `routeFirst` and every contract holds for both values. */
module RouteService {
  import opened Outcomes
  import opened Tables
  import opened Store
  import RouteRepository
  import BusRepository
  import BusStopRepository
  import DriverRepository

  /** The error a lookup reported, if any. */
  function Failure<T>(r: Result<T>): (e: Option<Error>)
    ensures e.None? <==> r.Ok?
    ensures r.Err? ==> e == Some(r.error)
  {
    if r.Ok? then None else Some(r.error)
  }

  /** The assignment protocol over the outcomes of its three steps: the
      route lookup, the target lookup and the repository's assign. A failed
      lookup is returned verbatim and stops the assign. */
  function Assign(routeFirst: bool, route: Option<Error>, target: Option<Error>, assign: Status): (s: Status)
    ensures s == Done <==> route.None? && target.None? && assign == Done
    ensures route.Some? && target.None? ==> s == Failed(route.value)
    ensures route.None? && target.Some? ==> s == Failed(target.value)
    ensures route.None? && target.None? ==> s == assign
    ensures route.Some? && target.Some? ==> s == Failed(route.value) || s == Failed(target.value)
  {
    if routeFirst then
      if route.Some? then Failed(route.value)
      else if target.Some? then Failed(target.value)
      else assign
    else
      if target.Some? then Failed(target.value)
      else if route.Some? then Failed(route.value)
      else assign
  }

  /** The order of the two lookups shows only when both fail. */
  lemma OrderMattersOnlyWhenBothFail(route: Option<Error>, target: Option<Error>, assign: Status)
    requires route.None? || target.None?
    ensures Assign(true, route, target, assign) == Assign(false, route, target, assign)
  {
  }

  /** The effect of an assignment on the store: the repository's assign
      runs only when both lookups passed. */
  function Apply(routeFirst: bool, route: Option<Error>, target: Option<Error>, assign: Effect, db: Db): (r: Effect)
    ensures r.status == Assign(routeFirst, route, target, assign.status)
    ensures route.Some? || target.Some? ==> r.db == db
    ensures route.None? && target.None? ==> r == assign
  {
    if route.Some? || target.Some? then Effect(Assign(routeFirst, route, target, assign.status), db)
    else assign
  }

  function AssignDriver(db: Db, routeFirst: bool, routeId: Id, driverId: Id): (r: Effect)
    ensures routeId !in Column(db.routes, RouteId) && driverId in Column(db.drivers, DriverId) ==>
              r == Effect(Failed(NotFound(RouteKind)), db)
    ensures routeId in Column(db.routes, RouteId) && driverId !in Column(db.drivers, DriverId) ==>
              r == Effect(Failed(NotFound(DriverKind)), db)
    ensures r.status == Done <==>
              routeId in Column(db.routes, RouteId) && driverId in Column(db.drivers, DriverId) && (routeId, driverId) !in db.routesDrivers
    ensures r.status == Done ==> r.db == db.(routesDrivers := db.routesDrivers + {(routeId, driverId)})
    ensures r.status.Failed? ==> r.db == db
  {
    Apply(routeFirst, Failure(RouteRepository.GetById(db, routeId)), Failure(DriverRepository.GetById(db, driverId)),
          RouteRepository.AssignDriver(db, routeId, driverId), db)
  }

  function AssignBus(db: Db, routeFirst: bool, routeId: Id, busId: Id): (r: Effect)
    ensures routeId !in Column(db.routes, RouteId) && busId in Column(db.buses, BusId) ==>
              r == Effect(Failed(NotFound(RouteKind)), db)
    ensures routeId in Column(db.routes, RouteId) && busId !in Column(db.buses, BusId) ==>
              r == Effect(Failed(NotFound(BusKind)), db)
    ensures r.status == Done <==>
              routeId in Column(db.routes, RouteId) && busId in Column(db.buses, BusId) && (routeId, busId) !in db.routesBuses
    ensures r.status == Done ==> r.db == db.(routesBuses := db.routesBuses + {(routeId, busId)})
    ensures r.status.Failed? ==> r.db == db
  {
    Apply(routeFirst, Failure(RouteRepository.GetById(db, routeId)), Failure(BusRepository.GetById(db, busId)),
          RouteRepository.AssignBus(db, routeId, busId), db)
  }

  function AssignBusStop(db: Db, routeFirst: bool, routeId: Id, busStopId: Id): (r: Effect)
    ensures routeId !in Column(db.routes, RouteId) && busStopId in Column(db.busStops, StopId) ==>
              r == Effect(Failed(NotFound(RouteKind)), db)
    ensures routeId in Column(db.routes, RouteId) && busStopId !in Column(db.busStops, StopId) ==>
              r == Effect(Failed(NotFound(BusStopKind)), db)
    ensures r.status == Done <==>
              routeId in Column(db.routes, RouteId) && busStopId in Column(db.busStops, StopId) && (routeId, busStopId) !in db.routesBusStops
    ensures r.status == Done ==> r.db == db.(routesBusStops := db.routesBusStops + {(routeId, busStopId)})
    ensures r.status.Failed? ==> r.db == db
  {
    Apply(routeFirst, Failure(RouteRepository.GetById(db, routeId)), Failure(BusStopRepository.GetById(db, busStopId)),
          RouteRepository.AssignBusStop(db, routeId, busStopId), db)
  }

  /** The driver assignment's outcomes: "Route not found" and "Driver not
      found" each when only that record is missing, either when both are, a
      store error for a repeated pair, and otherwise one new association
      that `GetAllDriversById` reads back. */
  lemma AssignDriverOutcomes(db: Db, routeFirst: bool, routeId: Id, driverId: Id)
    ensures var r := AssignDriver(db, routeFirst, routeId, driverId);
            var hasRoute := routeId in Column(db.routes, RouteId);
            var hasDriver := driverId in Column(db.drivers, DriverId);
            && (!hasRoute && hasDriver ==> r == Effect(Failed(NotFound(RouteKind)), db))
            && (hasRoute && !hasDriver ==> r == Effect(Failed(NotFound(DriverKind)), db))
            && (!hasRoute && !hasDriver ==>
                  r.db == db && r.status in {Failed(NotFound(RouteKind)), Failed(NotFound(DriverKind))})
            && (hasRoute && hasDriver && (routeId, driverId) in db.routesDrivers ==>
                  r == Effect(Failed(StoreError), db))
            && (r.status == Done <==> hasRoute && hasDriver && (routeId, driverId) !in db.routesDrivers)
            && (r.status == Done ==> r.db.routesDrivers == db.routesDrivers + {(routeId, driverId)}
                                     && r.db.drivers == db.drivers && r.db.routes == db.routes)
  {
  }

  /** After a successful driver assignment the route lists the driver. */
  lemma AssignedDriverListed(db: Db, routeFirst: bool, routeId: Id, d: Driver)
    requires d in db.drivers
    requires AssignDriver(db, routeFirst, routeId, d.id).status == Done
    ensures var r := AssignDriver(db, routeFirst, routeId, d.id);
            && RouteRepository.GetAllDriversById(r.db, routeId).Ok?
            && d in RouteRepository.GetAllDriversById(r.db, routeId).value
  {
  }

  /** The bus assignment: "Bus not found" when only the bus is missing, and
      a successful one makes `GetAllBusesById` list the bus. */
  lemma AssignBusOutcomes(db: Db, routeFirst: bool, routeId: Id, b: Bus)
    ensures var r := AssignBus(db, routeFirst, routeId, b.id);
            var hasRoute := routeId in Column(db.routes, RouteId);
            var hasBus := b.id in Column(db.buses, BusId);
            && (!hasRoute && hasBus ==> r == Effect(Failed(NotFound(RouteKind)), db))
            && (hasRoute && !hasBus ==> r == Effect(Failed(NotFound(BusKind)), db))
            && (r.status == Done <==> hasRoute && hasBus && (routeId, b.id) !in db.routesBuses)
            && (r.status == Done && b in db.buses ==> b in RouteRepository.GetAllBusesById(r.db, routeId).value)
  {
  }

  /** The bus-stop assignment: "Bus stop not found" when only the stop is
      missing, and a successful one makes `GetAllBusStopsById` list the
      stop's id, coordinates and name. */
  lemma AssignBusStopOutcomes(db: Db, routeFirst: bool, routeId: Id, s: BusStop)
    ensures var r := AssignBusStop(db, routeFirst, routeId, s.id);
            var hasRoute := routeId in Column(db.routes, RouteId);
            var hasStop := s.id in Column(db.busStops, StopId);
            && (!hasRoute && hasStop ==> r == Effect(Failed(NotFound(RouteKind)), db))
            && (hasRoute && !hasStop ==> r == Effect(Failed(NotFound(BusStopKind)), db))
            && (r.status == Done <==> hasRoute && hasStop && (routeId, s.id) !in db.routesBusStops)
            && (r.status == Done && s in db.busStops ==>
                  RouteRepository.Scanned(s) in RouteRepository.GetAllBusStopsById(r.db, routeId).value)
  {
  }

  function GetById(db: Db, id: Id): (r: Result<Route>)
    ensures r.Ok? <==> id in Column(db.routes, RouteId)
    ensures r.Ok? ==> r.value in db.routes && r.value.id == id
    ensures r.Err? ==> r.error == NotFound(RouteKind)
  {
    RouteRepository.GetById(db, id)
  }

  function GetByNumber(db: Db, number: string): (r: Result<Route>)
    ensures r.Ok? <==> number in Column(db.routes, RouteNumber)
    ensures r.Ok? ==> r.value in db.routes && r.value.number == number
    ensures r.Err? ==> r.error == NotFound(RouteKind)
  {
    RouteRepository.GetByNumber(db, number)
  }

  /** The repository's list, every route in it and its length preserved. */
  function GetAll(db: Db): (r: seq<Route>)
    ensures |r| == |db.routes|
    ensures forall x :: x in db.routes <==> x in r
  {
    RouteRepository.GetAll(db)
  }

  function Add(db: Db, route: Route, freshId: Id): (r: Insertion<Route>)
    requires FreshFor(freshId, db.routes, RouteId)
    ensures route.number in Column(db.routes, RouteNumber) ==>
              r == Insertion(Failed(AlreadyExists(RouteKind)), db, route)
    ensures route.number !in Column(db.routes, RouteNumber) ==>
              r.record == route.(id := AssignedId(route.id, freshId))
    ensures r.status == Done <==>
              route.number !in Column(db.routes, RouteNumber) &&
              AssignedId(route.id, freshId) !in Column(db.routes, RouteId)
    ensures r.status == Done ==> r.db == db.(routes := db.routes + [r.record])
    ensures r.status.Failed? ==> r.db == db
    ensures r.status.Failed? ==> r.status.error == AlreadyExists(RouteKind) || r.status.error == StoreError
  {
    RouteRepository.Add(db, route, freshId)
  }

  function DeleteById(db: Db, id: Id): (r: Effect)
    ensures r.status == Done <==> id in Column(db.routes, RouteId)
    ensures r.status.Failed? ==> r == Effect(Failed(NotFound(RouteKind)), db)
    ensures r.db == db.(routes := r.db.routes)
    ensures forall x :: x in r.db.routes <==> x in db.routes && x.id != id
    ensures Column(r.db.routes, RouteId) == Column(db.routes, RouteId) - {id}
  {
    var d := RouteRepository.DeleteById(db, id);
    assert forall x :: x in d.db.routes ==> RouteId(x) in Column(d.db.routes, RouteId);
    d
  }

  function UpdateById(db: Db, route: Route): (r: Effect)
    ensures r.status == Done <==> route.id in Column(db.routes, RouteId)
    ensures r.status.Failed? ==> r == Effect(Failed(NotFound(RouteKind)), db)
    ensures r.db == db.(routes := r.db.routes)
    ensures |r.db.routes| == |db.routes|
    ensures r.status == Done ==> forall i :: 0 <= i < |db.routes| ==>
              r.db.routes[i] == (if db.routes[i].id == route.id then route else db.routes[i])
    ensures r.status == Done ==> route in r.db.routes
  {
    var u := RouteRepository.UpdateById(db, route);
    assert u.status == Done ==> u.db.routes[IndexOf(db.routes, RouteId, route.id)] == route;
    u
  }

  /** The writes succeed exactly when the repository's do, and report its
      error unchanged otherwise. */
  lemma WritesPassThrough(db: Db, route: Route, freshId: Id, id: Id)
    requires FreshFor(freshId, db.routes, RouteId)
    ensures Add(db, route, freshId).status == Done <==>
              route.number !in Column(db.routes, RouteNumber) &&
              AssignedId(route.id, freshId) !in Column(db.routes, RouteId)
    ensures DeleteById(db, id).status == Done <==> id in Column(db.routes, RouteId)
    ensures DeleteById(db, id).status.Failed? ==> Message(DeleteById(db, id).status.error) == "Route not found"
    ensures UpdateById(db, route).status == Done <==> route.id in Column(db.routes, RouteId)
    ensures Add(db, route, freshId).status == RouteRepository.Add(db, route, freshId).status
    ensures DeleteById(db, id).status == RouteRepository.DeleteById(db, id).status
    ensures UpdateById(db, route).status == RouteRepository.UpdateById(db, route).status
    ensures UpdateById(db, route).status.Failed? ==> Message(UpdateById(db, route).status.error) == "Route not found"
    ensures Add(db, route, freshId).status.Failed? && Add(db, route, freshId).status.error != StoreError ==>
              Message(Add(db, route, freshId).status.error) == "Route already exists"
  {
  }
}
