/** The SQLite bus repository: the `buses` table with `id` as PRIMARY KEY
    and `register_number` UNIQUE. Lookups report absence as "Bus not found";
    `Add` refuses a register number already stored with "Bus already
    exists"; `DeleteById` and `UpdateById` check the id exists first. */
module BusRepository {
  import opened Outcomes
  import opened Text
  import opened Tables
  import opened Store

  function GetById(db: Db, id: Id): (r: Result<Bus>)
    ensures r.Ok? <==> id in Column(db.buses, BusId)
    ensures r.Ok? ==> r.value in db.buses && r.value.id == id
    ensures r.Err? ==> r.error == NotFound(BusKind)
  {
    match Lookup(db.buses, BusId, id)
    case Some(b) => Ok(b)
    case None => Err(NotFound(BusKind))
  }

  /** Exact (case-sensitive) match on `register_number`. */
  function GetByNumber(db: Db, number: string): (r: Result<Bus>)
    ensures r.Ok? <==> number in Column(db.buses, RegisterNumber)
    ensures r.Ok? ==> r.value in db.buses && r.value.registerNumber == number
    ensures r.Err? ==> r.error == NotFound(BusKind)
  {
    match Lookup(db.buses, RegisterNumber, number)
    case Some(b) => Ok(b)
    case None => Err(NotFound(BusKind))
  }

  /** Every stored row, each once. */
  function GetAll(db: Db): (r: seq<Bus>)
    ensures |r| == |db.buses|
    ensures forall b :: b in r <==> b in db.buses
  {
    db.buses
  }

  /** Refuses a stored register number; otherwise writes the generated id
      back into a blank-id input and inserts the row, which the PRIMARY KEY
      refuses when a caller-supplied id is already stored. */
  function Add(db: Db, bus: Bus, freshId: Id): (r: Insertion<Bus>)
    requires FreshFor(freshId, db.buses, BusId)
    ensures bus.registerNumber in Column(db.buses, RegisterNumber) ==>
              r == Insertion(Failed(AlreadyExists(BusKind)), db, bus)
    ensures bus.registerNumber !in Column(db.buses, RegisterNumber) ==>
              r.record == bus.(id := AssignedId(bus.id, freshId))
    ensures r.status == Done <==>
              bus.registerNumber !in Column(db.buses, RegisterNumber) && r.record.id !in Column(db.buses, BusId)
    ensures r.status == Done ==> r.db == db.(buses := db.buses + [r.record])
    ensures r.status.Failed? ==> r.db == db
    ensures r.status.Failed? && r.status.error != AlreadyExists(BusKind) ==> r.status.error == StoreError
  {
    if GetByNumber(db, bus.registerNumber).Ok? then
      Insertion(Failed(AlreadyExists(BusKind)), db, bus)
    else
      var row := bus.(id := if IsBlank(bus.id) then freshId else bus.id);
      if row.id in Column(db.buses, BusId) then Insertion(Failed(StoreError), db, row)
      else Insertion(Done, db.(buses := db.buses + [row]), row)
  }

  function DeleteById(db: Db, id: Id): (r: Effect)
    ensures id !in Column(db.buses, BusId) ==> r == Effect(Failed(NotFound(BusKind)), db)
    ensures id in Column(db.buses, BusId) ==> r.status == Done
    ensures r.db == db.(buses := r.db.buses)
    ensures Column(r.db.buses, BusId) == Column(db.buses, BusId) - {id}
    ensures forall b :: b in db.buses && b.id != id ==> b in r.db.buses
    ensures forall b :: b in r.db.buses ==> b in db.buses
  {
    if GetById(db, id).Err? then Effect(Failed(NotFound(BusKind)), db)
    else Effect(Done, db.(buses := Without(db.buses, BusId, id)))
  }

  /** Replaces every column but the id. The repository does not re-check the
      register number: only the UNIQUE constraint refuses one another bus
      holds, as an opaque store error. */
  function UpdateById(db: Db, bus: Bus): (r: Effect)
    ensures bus.id !in Column(db.buses, BusId) ==> r == Effect(Failed(NotFound(BusKind)), db)
    ensures bus.id in Column(db.buses, BusId) && Taken(db.buses, BusId, RegisterNumber, bus) ==>
              r == Effect(Failed(StoreError), db)
    ensures r.status == Done <==>
              bus.id in Column(db.buses, BusId) && !Taken(db.buses, BusId, RegisterNumber, bus)
    ensures r.db == db.(buses := r.db.buses)
    ensures r.status == Done ==> |r.db.buses| == |db.buses|
    ensures r.status == Done ==> forall i :: 0 <= i < |db.buses| ==>
              r.db.buses[i] == (if db.buses[i].id == bus.id then bus else db.buses[i])
  {
    if GetById(db, bus.id).Err? then Effect(Failed(NotFound(BusKind)), db)
    else if Taken(db.buses, BusId, RegisterNumber, bus) then Effect(Failed(StoreError), db)
    else Effect(Done, db.(buses := Replace(db.buses, BusId, bus)))
  }

  /** A bus added successfully is found again by its (possibly generated) id
      and by its register number, with every field as stored; the table grew
      by exactly one row. */
  lemma AddThenGet(db: Db, bus: Bus, freshId: Id)
    requires Valid(db)
    requires FreshFor(freshId, db.buses, BusId)
    requires Add(db, bus, freshId).status == Done
    ensures var r := Add(db, bus, freshId);
            && !IsBlank(r.record.id)
            && GetById(r.db, r.record.id) == Ok(r.record)
            && GetByNumber(r.db, bus.registerNumber) == Ok(r.record)
            && |r.db.buses| == |db.buses| + 1
            && r.record in GetAll(r.db)
  {
    var r := Add(db, bus, freshId);
    AppendKeepsUnique(db.buses, BusId, r.record);
    AppendKeepsUnique(db.buses, RegisterNumber, r.record);
    assert r.db.buses[|db.buses|] == r.record;
  }

  /** Deleting a stored bus removes exactly its row: the others keep their
      order and the table shrinks by one. */
  lemma DeleteRemovesOne(db: Db, id: Id)
    requires Valid(db)
    requires id in Column(db.buses, BusId)
    ensures var r := DeleteById(db, id);
            && r.db.buses == RemoveAt(db.buses, IndexOf(db.buses, BusId, id))
            && |r.db.buses| == |db.buses| - 1
            && GetById(r.db, id) == Err(NotFound(BusKind))
            && forall b :: b in GetAll(r.db) ==> b.id != id
  {
    WithoutUniqueRemovesOne(db.buses, BusId, id);
  }

  /** After a successful update `GetById` returns exactly the new record, and
      the set of stored ids is unchanged. */
  lemma UpdateThenGet(db: Db, bus: Bus)
    requires Valid(db)
    requires UpdateById(db, bus).status == Done
    ensures var r := UpdateById(db, bus);
            && GetById(r.db, bus.id) == Ok(bus)
            && Column(r.db.buses, BusId) == Column(db.buses, BusId)
  {
  }

  /** Every write of the bus repository keeps the schema's constraints. */
  lemma WritesKeepValid(db: Db, bus: Bus, freshId: Id, id: Id)
    requires Valid(db)
    requires FreshFor(freshId, db.buses, BusId)
    ensures Valid(Add(db, bus, freshId).db)
    ensures Valid(DeleteById(db, id).db)
    ensures Valid(UpdateById(db, bus).db)
  {
    var a := Add(db, bus, freshId);
    if a.status == Done {
      AppendKeepsUnique(db.buses, BusId, a.record);
      AppendKeepsUnique(db.buses, RegisterNumber, a.record);
    }
    FilterKeepsUnique(db.buses, KeyIsNot(BusId, id), BusId);
    FilterKeepsUnique(db.buses, KeyIsNot(BusId, id), RegisterNumber);
    if UpdateById(db, bus).status == Done {
      ReplaceKeepsUnique(db.buses, BusId, BusId, bus);
      ReplaceKeepsUnique(db.buses, BusId, RegisterNumber, bus);
    }
  }
}
