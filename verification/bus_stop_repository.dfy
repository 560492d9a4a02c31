/** The SQLite bus-stop repository: the `bus_stops` table with `id` as
    PRIMARY KEY. Stop names carry no constraint in the schema; `Add` alone
    refuses a name already stored, with "Bus stop already exists". */
module BusStopRepository {
  import opened Outcomes
  import opened Text
  import opened Tables
  import opened Store

  function GetById(db: Db, id: Id): (r: Result<BusStop>)
    ensures r.Ok? <==> id in Column(db.busStops, StopId)
    ensures r.Ok? ==> r.value in db.busStops && r.value.id == id
    ensures r.Err? ==> r.error == NotFound(BusStopKind)
  {
    match Lookup(db.busStops, StopId, id)
    case Some(s) => Ok(s)
    case None => Err(NotFound(BusStopKind))
  }

  /** Names are not unique once `UpdateById` has run, so the lookup returns
      the first stop in table order that carries the name. */
  function GetByName(db: Db, name: string): (r: Result<BusStop>)
    ensures r.Ok? <==> name in Column(db.busStops, StopName)
    ensures r.Ok? ==> r.value == db.busStops[IndexOf(db.busStops, StopName, name)]
    ensures r.Ok? ==> r.value.name == name
    ensures r.Err? ==> r.error == NotFound(BusStopKind)
  {
    match Lookup(db.busStops, StopName, name)
    case Some(s) => Ok(s)
    case None => Err(NotFound(BusStopKind))
  }

  /** Every stored row, each once. */
  function GetAll(db: Db): (r: seq<BusStop>)
    ensures |r| == |db.busStops|
    ensures forall s :: s in r <==> s in db.busStops
  {
    db.busStops
  }

  /** The stops whose own `route_id` column names the route. This reads the
      column, not the `routes_bus_stops` association, and an unknown route
      yields an empty list rather than an error. */
  function GetAllByRouteId(db: Db, routeId: Id): (r: Result<seq<BusStop>>)
    ensures r.Ok?
    ensures forall s :: s in r.value ==> s in db.busStops && s.routeId == routeId
    ensures forall s :: s in db.busStops && s.routeId == routeId ==> s in r.value
    ensures Valid(db) ==> Unique(r.value, StopId)
  {
    var listed := Matching(db.busStops, StopRouteId, routeId);
    assert Valid(db) ==> Unique(listed, StopId) by {
      if Valid(db) { FilterKeepsUnique(db.busStops, KeyIs(StopRouteId, routeId), StopId); }
    }
    Ok(listed)
  }

  /** Refuses a stored name; otherwise writes the generated id back into a
      blank-id input and inserts route_id, lat, long, order and name. */
  function Add(db: Db, stop: BusStop, freshId: Id): (r: Insertion<BusStop>)
    requires FreshFor(freshId, db.busStops, StopId)
    ensures stop.name in Column(db.busStops, StopName) ==>
              r == Insertion(Failed(AlreadyExists(BusStopKind)), db, stop)
    ensures stop.name !in Column(db.busStops, StopName) ==>
              r.record == stop.(id := AssignedId(stop.id, freshId))
    ensures r.status == Done <==>
              stop.name !in Column(db.busStops, StopName) && r.record.id !in Column(db.busStops, StopId)
    ensures r.status == Done ==> r.db == db.(busStops := db.busStops + [r.record])
    ensures r.status.Failed? ==> r.db == db
    ensures r.status.Failed? && r.status.error != AlreadyExists(BusStopKind) ==> r.status.error == StoreError
  {
    if GetByName(db, stop.name).Ok? then
      Insertion(Failed(AlreadyExists(BusStopKind)), db, stop)
    else
      var row := stop.(id := if IsBlank(stop.id) then freshId else stop.id);
      if row.id in Column(db.busStops, StopId) then Insertion(Failed(StoreError), db, row)
      else Insertion(Done, db.(busStops := db.busStops + [row]), row)
  }

  function DeleteById(db: Db, id: Id): (r: Effect)
    ensures id !in Column(db.busStops, StopId) ==> r == Effect(Failed(NotFound(BusStopKind)), db)
    ensures id in Column(db.busStops, StopId) ==> r.status == Done
    ensures r.db == db.(busStops := r.db.busStops)
    ensures Column(r.db.busStops, StopId) == Column(db.busStops, StopId) - {id}
    ensures forall s :: s in db.busStops && s.id != id ==> s in r.db.busStops
    ensures forall s :: s in r.db.busStops ==> s in db.busStops
  {
    if GetById(db, id).Err? then Effect(Failed(NotFound(BusStopKind)), db)
    else Effect(Done, db.(busStops := Without(db.busStops, StopId, id)))
  }

  /** Replaces route_id, lat, long, order and name; keeps the id. */
  function UpdateById(db: Db, stop: BusStop): (r: Effect)
    ensures stop.id !in Column(db.busStops, StopId) ==> r == Effect(Failed(NotFound(BusStopKind)), db)
    ensures stop.id in Column(db.busStops, StopId) ==> r.status == Done
    ensures r.db == db.(busStops := r.db.busStops)
    ensures |r.db.busStops| == |db.busStops|
    ensures r.status == Done ==> forall i :: 0 <= i < |db.busStops| ==>
              r.db.busStops[i] == (if db.busStops[i].id == stop.id then stop else db.busStops[i])
  {
    if GetById(db, stop.id).Err? then Effect(Failed(NotFound(BusStopKind)), db)
    else Effect(Done, db.(busStops := Replace(db.busStops, StopId, stop)))
  }

  /** A stop added successfully is found again by its (possibly generated)
      id and by its name, with every field as given. */
  lemma AddThenGet(db: Db, stop: BusStop, freshId: Id)
    requires Valid(db)
    requires FreshFor(freshId, db.busStops, StopId)
    requires Add(db, stop, freshId).status == Done
    ensures var r := Add(db, stop, freshId);
            && !IsBlank(r.record.id)
            && GetById(r.db, r.record.id) == Ok(r.record)
            && GetByName(r.db, stop.name) == Ok(r.record)
            && |r.db.busStops| == |db.busStops| + 1
            && r.record in GetAll(r.db)
  {
    var r := Add(db, stop, freshId);
    AppendKeepsUnique(db.busStops, StopId, r.record);
    assert r.db.busStops[|db.busStops|] == r.record;
    assert IndexOf(r.db.busStops, StopName, stop.name) == |db.busStops|;
  }

  /** Deleting a stored stop removes exactly its row, keeping the others in
      order. */
  lemma DeleteRemovesOne(db: Db, id: Id)
    requires Valid(db)
    requires id in Column(db.busStops, StopId)
    ensures var r := DeleteById(db, id);
            && r.db.busStops == RemoveAt(db.busStops, IndexOf(db.busStops, StopId, id))
            && GetById(r.db, id) == Err(NotFound(BusStopKind))
            && forall s :: s in GetAll(r.db) ==> s.id != id
  {
    WithoutUniqueRemovesOne(db.busStops, StopId, id);
  }

  /** After a successful update `GetById` returns exactly the new record. */
  lemma UpdateThenGet(db: Db, stop: BusStop)
    requires Valid(db)
    requires stop.id in Column(db.busStops, StopId)
    ensures GetById(UpdateById(db, stop).db, stop.id) == Ok(stop)
  {
  }

  /** A stop added successfully appears in its route's list, and the list
      of every other route is unchanged. */
  lemma AddThenListedByRoute(db: Db, stop: BusStop, freshId: Id, other: Id)
    requires FreshFor(freshId, db.busStops, StopId)
    requires Add(db, stop, freshId).status == Done
    ensures var r := Add(db, stop, freshId);
            && r.record in GetAllByRouteId(r.db, stop.routeId).value
            && (other != stop.routeId ==>
                  forall x :: x in GetAllByRouteId(r.db, other).value <==> x in GetAllByRouteId(db, other).value)
  {
  }

  /** Updating a stored stop's route_id moves it: the new route lists the
      stop as given and the old route no longer lists any stop with its id. */
  lemma UpdateMovesStop(db: Db, stop: BusStop)
    requires stop.id in Column(db.busStops, StopId)
    ensures var before := db.busStops[IndexOf(db.busStops, StopId, stop.id)];
            var after := UpdateById(db, stop).db;
            && stop in GetAllByRouteId(after, stop.routeId).value
            && (before.routeId != stop.routeId ==>
                  forall x :: x in GetAllByRouteId(after, before.routeId).value ==> x.id != stop.id)
  {
    var i := IndexOf(db.busStops, StopId, stop.id);
    var after := UpdateById(db, stop).db;
    assert after.busStops[i] == stop;
  }

  /** Every write of the bus-stop repository keeps the schema's constraints. */
  lemma WritesKeepValid(db: Db, stop: BusStop, freshId: Id, id: Id)
    requires Valid(db)
    requires FreshFor(freshId, db.busStops, StopId)
    ensures Valid(Add(db, stop, freshId).db)
    ensures Valid(DeleteById(db, id).db)
    ensures Valid(UpdateById(db, stop).db)
  {
    var a := Add(db, stop, freshId);
    if a.status == Done {
      AppendKeepsUnique(db.busStops, StopId, a.record);
    }
    FilterKeepsUnique(db.busStops, KeyIsNot(StopId, id), StopId);
    ReplaceKeepsUnique(db.busStops, StopId, StopId, stop);
  }
}
