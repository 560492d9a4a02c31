/** The driver repository. Its tests fix the `drivers` table (`id` as
    PRIMARY KEY; passport series, SNILS and licence series each UNIQUE), the
    two lookups, "Driver already exists" for a stored passport series, "Driver
    not found" for a missing id, and the update's read-back. The rest follows
    the bus and bus-stop repositories: a blank id (after trimming) is
    replaced by the generated one and a supplied id is kept, an update
    rewrites every column but the id, and a violated constraint is an opaque
    store error. */
module DriverRepository {
  import opened Outcomes
  import opened Text
  import opened Tables
  import opened Store

  function GetById(db: Db, id: Id): (r: Result<Driver>)
    ensures r.Ok? <==> id in Column(db.drivers, DriverId)
    ensures r.Ok? ==> r.value in db.drivers && r.value.id == id
    ensures r.Err? ==> r.error == NotFound(DriverKind)
  {
    match Lookup(db.drivers, DriverId, id)
    case Some(d) => Ok(d)
    case None => Err(NotFound(DriverKind))
  }

  function GetByPassportSeries(db: Db, series: string): (r: Result<Driver>)
    ensures r.Ok? <==> series in Column(db.drivers, PassportSeries)
    ensures r.Ok? ==> r.value in db.drivers && r.value.passportSeries == series
    ensures r.Err? ==> r.error == NotFound(DriverKind)
  {
    match Lookup(db.drivers, PassportSeries, series)
    case Some(d) => Ok(d)
    case None => Err(NotFound(DriverKind))
  }

  /** Every stored row, each once. */
  function GetAll(db: Db): (r: seq<Driver>)
    ensures |r| == |db.drivers|
    ensures forall d :: d in r <==> d in db.drivers
  {
    db.drivers
  }

  /** True when inserting `row` would violate a PRIMARY KEY or UNIQUE
      constraint of the drivers table. */
  predicate InsertViolates(db: Db, row: Driver)
  {
    || row.id in Column(db.drivers, DriverId)
    || row.passportSeries in Column(db.drivers, PassportSeries)
    || row.snils in Column(db.drivers, Snils)
    || row.licenseSeries in Column(db.drivers, LicenseSeries)
  }

  /** Refuses a stored passport series, whatever the SNILS and licence say;
      otherwise writes the generated id back into a blank-id input and
      inserts the row unless a constraint refuses it. */
  function Add(db: Db, driver: Driver, freshId: Id): (r: Insertion<Driver>)
    requires FreshFor(freshId, db.drivers, DriverId)
    ensures driver.passportSeries in Column(db.drivers, PassportSeries) ==>
              r == Insertion(Failed(AlreadyExists(DriverKind)), db, driver)
    ensures driver.passportSeries !in Column(db.drivers, PassportSeries) ==>
              r.record == driver.(id := AssignedId(driver.id, freshId))
    ensures r.status == Done <==>
              driver.passportSeries !in Column(db.drivers, PassportSeries) && !InsertViolates(db, r.record)
    ensures r.status == Done ==> r.db == db.(drivers := db.drivers + [r.record])
    ensures r.status.Failed? ==> r.db == db
    ensures r.status.Failed? && r.status.error != AlreadyExists(DriverKind) ==> r.status.error == StoreError
  {
    if GetByPassportSeries(db, driver.passportSeries).Ok? then
      Insertion(Failed(AlreadyExists(DriverKind)), db, driver)
    else
      var row := driver.(id := if IsBlank(driver.id) then freshId else driver.id);
      if InsertViolates(db, row) then Insertion(Failed(StoreError), db, row)
      else Insertion(Done, db.(drivers := db.drivers + [row]), row)
  }

  function DeleteById(db: Db, id: Id): (r: Effect)
    ensures id !in Column(db.drivers, DriverId) ==> r == Effect(Failed(NotFound(DriverKind)), db)
    ensures id in Column(db.drivers, DriverId) ==> r.status == Done
    ensures r.db == db.(drivers := r.db.drivers)
    ensures Column(r.db.drivers, DriverId) == Column(db.drivers, DriverId) - {id}
    ensures forall d :: d in db.drivers && d.id != id ==> d in r.db.drivers
    ensures forall d :: d in r.db.drivers ==> d in db.drivers
  {
    if GetById(db, id).Err? then Effect(Failed(NotFound(DriverKind)), db)
    else Effect(Done, db.(drivers := Without(db.drivers, DriverId, id)))
  }

  /** True when giving the stored driver `row.id` the columns of `row` would
      violate a UNIQUE constraint held by another driver. */
  predicate UpdateViolates(db: Db, row: Driver)
  {
    || Taken(db.drivers, DriverId, PassportSeries, row)
    || Taken(db.drivers, DriverId, Snils, row)
    || Taken(db.drivers, DriverId, LicenseSeries, row)
  }

  /** Replaces every column but the id. */
  function UpdateById(db: Db, driver: Driver): (r: Effect)
    ensures driver.id !in Column(db.drivers, DriverId) ==> r == Effect(Failed(NotFound(DriverKind)), db)
    ensures driver.id in Column(db.drivers, DriverId) && UpdateViolates(db, driver) ==>
              r == Effect(Failed(StoreError), db)
    ensures r.status == Done <==> driver.id in Column(db.drivers, DriverId) && !UpdateViolates(db, driver)
    ensures r.db == db.(drivers := r.db.drivers)
    ensures r.status == Done ==> |r.db.drivers| == |db.drivers|
    ensures r.status == Done ==> forall i :: 0 <= i < |db.drivers| ==>
              r.db.drivers[i] == (if db.drivers[i].id == driver.id then driver else db.drivers[i])
  {
    if GetById(db, driver.id).Err? then Effect(Failed(NotFound(DriverKind)), db)
    else if UpdateViolates(db, driver) then Effect(Failed(StoreError), db)
    else Effect(Done, db.(drivers := Replace(db.drivers, DriverId, driver)))
  }

  /** A driver added successfully gets a non-blank id and is found again by
      that id and by passport series with every field (the birth date
      included) as given. */
  lemma AddThenGet(db: Db, driver: Driver, freshId: Id)
    requires Valid(db)
    requires FreshFor(freshId, db.drivers, DriverId)
    requires Add(db, driver, freshId).status == Done
    ensures var r := Add(db, driver, freshId);
            && !IsBlank(r.record.id)
            && GetById(r.db, r.record.id) == Ok(r.record)
            && GetByPassportSeries(r.db, driver.passportSeries) == Ok(r.record)
            && r.record.birthDate == driver.birthDate
            && r.record in GetAll(r.db)
  {
    var r := Add(db, driver, freshId);
    AppendKeepsUnique(db.drivers, DriverId, r.record);
    AppendKeepsUnique(db.drivers, PassportSeries, r.record);
    assert r.db.drivers[|db.drivers|] == r.record;
  }

  /** After a successful delete the driver is no longer found; the table
      shrinks by exactly that row. */
  lemma DeleteRemovesOne(db: Db, id: Id)
    requires Valid(db)
    requires id in Column(db.drivers, DriverId)
    ensures var r := DeleteById(db, id);
            && r.db.drivers == RemoveAt(db.drivers, IndexOf(db.drivers, DriverId, id))
            && GetById(r.db, id) == Err(NotFound(DriverKind))
            && forall d :: d in GetAll(r.db) ==> d.id != id
  {
    WithoutUniqueRemovesOne(db.drivers, DriverId, id);
  }

  /** After a successful update `GetById` returns the new name, surname,
      passport series and birth date under the unchanged id. */
  lemma UpdateThenGet(db: Db, driver: Driver)
    requires Valid(db)
    requires UpdateById(db, driver).status == Done
    ensures GetById(UpdateById(db, driver).db, driver.id) == Ok(driver)
  {
  }

  /** Every write of the driver repository keeps the schema's constraints. */
  lemma WritesKeepValid(db: Db, driver: Driver, freshId: Id, id: Id)
    requires Valid(db)
    requires FreshFor(freshId, db.drivers, DriverId)
    ensures Valid(Add(db, driver, freshId).db)
    ensures Valid(DeleteById(db, id).db)
    ensures Valid(UpdateById(db, driver).db)
  {
    AddKeepsValid(db, driver, freshId);
    DeleteKeepsValid(db, id);
    UpdateKeepsValid(db, driver);
  }

  lemma AddKeepsValid(db: Db, driver: Driver, freshId: Id)
    requires Valid(db)
    requires FreshFor(freshId, db.drivers, DriverId)
    ensures Valid(Add(db, driver, freshId).db)
  {
    var a := Add(db, driver, freshId);
    if a.status == Done {
      AppendKeepsUnique(db.drivers, DriverId, a.record);
      AppendKeepsUnique(db.drivers, PassportSeries, a.record);
      AppendKeepsUnique(db.drivers, Snils, a.record);
      AppendKeepsUnique(db.drivers, LicenseSeries, a.record);
    }
  }

  lemma DeleteKeepsValid(db: Db, id: Id)
    requires Valid(db)
    ensures Valid(DeleteById(db, id).db)
  {
    var p := KeyIsNot(DriverId, id);
    FilterKeepsUnique(db.drivers, p, DriverId);
    FilterKeepsUnique(db.drivers, p, PassportSeries);
    FilterKeepsUnique(db.drivers, p, Snils);
    FilterKeepsUnique(db.drivers, p, LicenseSeries);
  }

  lemma UpdateKeepsValid(db: Db, driver: Driver)
    requires Valid(db)
    ensures Valid(UpdateById(db, driver).db)
  {
    if UpdateById(db, driver).status == Done {
      ReplaceKeepsUnique(db.drivers, DriverId, DriverId, driver);
      ReplaceKeepsUnique(db.drivers, DriverId, PassportSeries, driver);
      ReplaceKeepsUnique(db.drivers, DriverId, Snils, driver);
      ReplaceKeepsUnique(db.drivers, DriverId, LicenseSeries, driver);
    }
  }
}
