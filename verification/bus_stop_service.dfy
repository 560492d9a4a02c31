/** The bus-stop service. Its two lookups pass a repository error on
    verbatim and turn a missing record without an error into "Bus stop not
    found"; `GetAll` drops the repository's error; the writes hand the
    repository's error back unchanged. The service is written against the
    repository interface, so the lookups are stated over any `Reply` an
    implementation may give, and the rest over the SQLite repository. */
module BusStopService {
  import opened Outcomes
  import opened Tables
  import opened Store
  import BusStopRepository

  /** The answer of `GetById` / `GetByName` to the repository's reply. */
  function Checked(rep: Reply<BusStop>): (r: Result<BusStop>)
    ensures rep.err.Some? ==> r == Err(rep.err.value)
    ensures rep.err.None? && rep.record.None? ==> r == Err(NotFound(BusStopKind))
    ensures r.Ok? <==> rep.err.None? && rep.record.Some?
    ensures r.Ok? ==> r.value == rep.record.value
  {
    match rep
    case Reply(_, Some(e)) => Err(e)
    case Reply(None, None) => Err(NotFound(BusStopKind))
    case Reply(Some(s), None) => Ok(s)
  }

  /** `GetAll`: the list the repository returned, its error discarded. */
  function GetAllOf(list: seq<BusStop>, err: Option<Error>): (r: seq<BusStop>)
    ensures |r| == |list|
    ensures forall i :: 0 <= i < |r| ==> r[i] == list[i]
  {
    list
  }

  function GetById(db: Db, id: Id): (r: Result<BusStop>)
    ensures r.Ok? <==> id in Column(db.busStops, StopId)
    ensures r.Ok? ==> r.value in db.busStops && r.value.id == id
    ensures r.Err? ==> r.error == NotFound(BusStopKind)
  {
    Checked(ReplyOf(BusStopRepository.GetById(db, id)))
  }

  function GetByName(db: Db, name: string): (r: Result<BusStop>)
    ensures r.Ok? <==> name in Column(db.busStops, StopName)
    ensures r.Ok? ==> r.value == db.busStops[IndexOf(db.busStops, StopName, name)] && r.value.name == name
    ensures r.Err? ==> r.error == NotFound(BusStopKind)
  {
    Checked(ReplyOf(BusStopRepository.GetByName(db, name)))
  }

  function GetAll(db: Db): (r: seq<BusStop>)
    ensures |r| == |db.busStops|
    ensures forall s :: s in r <==> s in db.busStops
  {
    GetAllOf(BusStopRepository.GetAll(db), None)
  }

  function Add(db: Db, stop: BusStop, freshId: Id): (r: Insertion<BusStop>)
    requires FreshFor(freshId, db.busStops, StopId)
    ensures stop.name in Column(db.busStops, StopName) ==>
              r == Insertion(Failed(AlreadyExists(BusStopKind)), db, stop)
    ensures stop.name !in Column(db.busStops, StopName) ==>
              r.record == stop.(id := AssignedId(stop.id, freshId))
    ensures r.status == Done <==>
              stop.name !in Column(db.busStops, StopName) &&
              AssignedId(stop.id, freshId) !in Column(db.busStops, StopId)
    ensures r.status == Done ==> r.db == db.(busStops := db.busStops + [r.record])
    ensures r.status.Failed? ==> r.db == db
    ensures r.status.Failed? ==> r.status.error == AlreadyExists(BusStopKind) || r.status.error == StoreError
  {
    BusStopRepository.Add(db, stop, freshId)
  }

  function DeleteById(db: Db, id: Id): (r: Effect)
    ensures r.status == Done <==> id in Column(db.busStops, StopId)
    ensures r.status.Failed? ==> r == Effect(Failed(NotFound(BusStopKind)), db)
    ensures r.db == db.(busStops := r.db.busStops)
    ensures forall s :: s in r.db.busStops <==> s in db.busStops && s.id != id
    ensures Column(r.db.busStops, StopId) == Column(db.busStops, StopId) - {id}
  {
    var d := BusStopRepository.DeleteById(db, id);
    assert forall s :: s in d.db.busStops ==> StopId(s) in Column(d.db.busStops, StopId);
    d
  }

  function UpdateById(db: Db, stop: BusStop): (r: Effect)
    ensures r.status == Done <==> stop.id in Column(db.busStops, StopId)
    ensures r.status.Failed? ==> r == Effect(Failed(NotFound(BusStopKind)), db)
    ensures r.db == db.(busStops := r.db.busStops)
    ensures |r.db.busStops| == |db.busStops|
    ensures r.status == Done ==> forall i :: 0 <= i < |db.busStops| ==>
              r.db.busStops[i] == (if db.busStops[i].id == stop.id then stop else db.busStops[i])
    ensures r.status == Done ==> stop in r.db.busStops
  {
    var u := BusStopRepository.UpdateById(db, stop);
    assert u.status == Done ==> u.db.busStops[IndexOf(db.busStops, StopId, stop.id)] == stop;
    u
  }

  /** With distinct ids, a stop updated through the service is found through
      the service exactly as given, and every other stop keeps its lookup. */
  lemma UpdateThenGet(db: Db, stop: BusStop, id: Id)
    requires Valid(db)
    requires stop.id in Column(db.busStops, StopId)
    ensures var after := UpdateById(db, stop).db;
            && GetById(after, stop.id) == Ok(stop)
            && (id != stop.id ==> GetById(after, id) == GetById(db, id))
  {
    BusStopRepository.UpdateThenGet(db, stop);
    ReplaceKeepsUnique(db.busStops, StopId, StopId, stop);
  }

  /** Over a repository that reports absence as an error, the check adds
      nothing: the service answers exactly what the repository answered. */
  lemma CheckedIsTransparent(r: Result<BusStop>)
    ensures Checked(ReplyOf(r)) == r
  {
  }

  /** The service's lookups agree with the SQLite repository's, absence
      included ("Bus stop not found"), and `GetAll` returns the whole table. */
  lemma ServiceMatchesRepository(db: Db, id: Id, name: string)
    ensures GetById(db, id) == BusStopRepository.GetById(db, id)
    ensures GetByName(db, name) == BusStopRepository.GetByName(db, name)
    ensures GetById(db, id).Err? ==> Message(GetById(db, id).error) == "Bus stop not found"
    ensures GetAll(db) == db.busStops
  {
  }

  /** A stop added through the service is found through the service by its
      id and by its name; deleting it through the service makes the id
      lookup fail with "Bus stop not found". */
  lemma AddGetDelete(db: Db, stop: BusStop, freshId: Id)
    requires Valid(db)
    requires FreshFor(freshId, db.busStops, StopId)
    requires Add(db, stop, freshId).status == Done
    ensures var a := Add(db, stop, freshId);
            && GetById(a.db, a.record.id) == Ok(a.record)
            && GetByName(a.db, stop.name) == Ok(a.record)
            && GetById(DeleteById(a.db, a.record.id).db, a.record.id) == Err(NotFound(BusStopKind))
  {
    var a := Add(db, stop, freshId);
    BusStopRepository.AddThenGet(db, stop, freshId);
    BusStopRepository.WritesKeepValid(db, stop, freshId, a.record.id);
    BusStopRepository.DeleteRemovesOne(a.db, a.record.id);
  }
}
