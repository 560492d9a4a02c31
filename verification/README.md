# busManager core in Dafny

busManager is a desktop tool for administering a municipal bus network.
It stores buses, drivers, bus stops and routes. A route can be linked to
many drivers, buses and bus stops. This project models the logic behind
that store and proves properties of the model:

- **The SQLite repositories** for routes, buses and bus stops, and the
  driver repository as its tests fix it. Each statement becomes a pure
  state transition on an abstract database `Store.Db`. The four entity
  tables are row sequences in rowid order, and the three association
  tables are sets of (route id, other id) pairs.
- **The in-memory bus repository** (`ListBusRepository`): an ordered list
  with a case-insensitive register-number lookup.
- **The bus-stop service and the route service.** The route service's
  source is not part of this model, so it is modelled from its tests.
- **The bus form's helpers**: the `ДД.ММ.ГГГГ` date check, its conversion
  to an ISO timestamp, and the field validation.

Modules:

| file | module | contents |
|---|---|---|
| outcomes.dfy | `Outcomes` | `Option`, `Result`, `Status`, the error kinds and their message texts |
| text.dfy | `Text` | Go's `TrimSpace` blank test, JavaScript's `trim` blank test, Go's `ToUpper` |
| tables.dfy | `Tables` | generic table operations: column, uniqueness, first match, filter, in-place replace |
| store.dfy | `Store` | entity records, the database, the schema's constraints, the generated-id rule |
| bus_repository.dfy | `BusRepository` | `SqliteBusRepository.go` |
| bus_stop_repository.dfy | `BusStopRepository` | `SqliteBusStopRepository.go` |
| driver_repository.dfy | `DriverRepository` | the driver repository, from `SqliteDriverRepository_test.go` and the pattern of the other SQLite repositories |
| route_repository.dfy | `RouteRepository` | `SqliteRouteRepository.go`, associations and joined reads included |
| list_bus_repository.dfy | `ListBusRepository` | `ListBusRepository.go` |
| bus_stop_service.dfy | `BusStopService` | `BusStopService.go` |
| route_service.dfy | `RouteService` | the route service, from `RouteService_test.go` |
| bus_form.dfy | `BusForm` | `convertDateToISO`, `isValidDateFormat` and `validateFields` of `BusComponent.jsx` |

Modelling decisions:

- **Tables are sequences, not maps.** Route numbers and stop names carry
  no UNIQUE constraint, and `UpdateById` can give two rows the same one.
  A lookup by such a column then returns the first row in table order, and
  a sequence expresses that. A `DELETE ... WHERE` keeps every other row in
  order. An `UPDATE ... WHERE id = ?` rewrites the matching row in place.
- **Schema constraints.** Every table has `id` as its PRIMARY KEY. The
  bus register number is UNIQUE, and so are the driver's passport
  series, SNILS and licence series. Each association table has a composite
  PRIMARY KEY, so assigning the same pair twice fails. Foreign keys are not
  enforced, which matches SQLite's default. `Store.Valid` states these
  constraints, and every write is proved to keep them.
- **Uniqueness as the code enforces it.** Route numbers and stop names are
  described as unique natural keys. The code checks this only in `Add`,
  and `UpdateById` does not, so the model follows the code.
- **Errors.** `NotFound(kind)` and `AlreadyExists(kind)` stand for the
  `errors.New` texts: "Route not found", "Bus already exists" and so on
  (`Outcomes.Message`). A violated constraint is the opaque `StoreError`.
- **Generated ids.** A UUID becomes a parameter `freshId`. The caller must
  supply one that is not blank and not yet a key of the table
  (`Store.FreshFor`). `Add` returns the caller's record the way `Add`
  leaves it, with the generated id written in.
- **Order of the route service's checks.** The tests do not fix which of
  the two lookups runs first. `RouteService.Assign` therefore takes the
  order as a parameter `routeFirst`, and every lemma holds for both orders.
- **Floats and times.** `float64` coordinates and `time.Time` values are
  opaque and are compared only for equality (`Store.Coordinate`,
  `Store.Timestamp`).

## Model

| member | source | states |
|---|---|---|
| BusRepository.GetById | repository/SqliteBusRepository.go:26-47 | found exactly when a stored bus has the id, and then that bus is returned; otherwise "Bus not found" |
| BusRepository.GetAll | repository/SqliteBusRepository.go:98-127 | every stored bus and nothing else, in a list as long as the table |
| BusRepository.GetByNumber | repository/SqliteBusRepository.go:49-70 | found exactly when a stored bus has the register number (exact match), and then that bus is returned; otherwise "Bus not found" |
| BusRepository.Add | repository/SqliteBusRepository.go:72-96 | a stored register number gives "Bus already exists" with nothing changed; otherwise a blank id is replaced by the generated one and exactly one row is appended, unless the id is already a key (store error) |
| BusRepository.DeleteById | repository/SqliteBusRepository.go:129-142 | an absent id gives "Bus not found" with nothing changed; otherwise exactly the buses with other ids remain and no other table changes |
| BusRepository.UpdateById | repository/SqliteBusRepository.go:144-159 | an absent id gives "Bus not found"; a register number held by another bus fails on the UNIQUE constraint; otherwise the row with the id is replaced and the others are kept |
| BusRepository.AddThenGet | repository/SqliteBusRepository.go:72-96 | a bus added successfully has a non-blank id and is found again by id and by register number, and GetAll lists it; the table grew by one |
| BusRepository.DeleteRemovesOne | repository/SqliteBusRepository.go:129-142 | deleting a stored bus removes exactly its row, keeps the others in order, and the bus is then neither found nor listed by GetAll |
| BusRepository.UpdateThenGet | repository/SqliteBusRepository.go:144-159 | after a successful update the id finds exactly the new record, and the set of ids is unchanged |
| BusRepository.WritesKeepValid | repository/SqliteBusRepository.go:72-159 | Add, DeleteById and UpdateById keep the PRIMARY KEY and UNIQUE constraints |
| BusStopRepository.GetById | repository/SqliteBusStopRepository.go:24-45 | found exactly when a stored stop has the id; otherwise "Bus stop not found" |
| BusStopRepository.GetByName | repository/SqliteBusStopRepository.go:47-68 | found exactly when some stop has the name, and then the first such stop in table order is returned |
| BusStopRepository.GetAll | repository/SqliteBusStopRepository.go:97-126 | every stored stop and nothing else |
| BusStopRepository.GetAllByRouteId | repository/SqliteBusStopRepository.go:128-158 | never fails; returns exactly the stored stops whose own route_id column is the argument, so an unknown route gives an empty list; over a valid store no id twice |
| BusStopRepository.Add | repository/SqliteBusStopRepository.go:70-95 | a stored name gives "Bus stop already exists" with nothing changed; otherwise a blank id is replaced and exactly one row is appended, unless the id is already a key |
| BusStopRepository.DeleteById | repository/SqliteBusStopRepository.go:160-173 | an absent id gives "Bus stop not found"; otherwise exactly the stops with other ids remain |
| BusStopRepository.UpdateById | repository/SqliteBusStopRepository.go:175-195 | an absent id gives "Bus stop not found"; otherwise the row with the id takes every new column and the others are kept |
| BusStopRepository.AddThenGet | repository/SqliteBusStopRepository.go:70-95 | a stop added successfully is found again by id and by name, and GetAll lists it |
| BusStopRepository.DeleteRemovesOne | repository/SqliteBusStopRepository.go:160-173 | deleting a stored stop removes exactly its row, keeps the others in order, and GetAll no longer lists its id |
| BusStopRepository.AddThenListedByRoute | repository/SqliteBusStopRepository.go:70-158 | a stop added successfully is listed under its route_id, and every other route's list is unchanged |
| BusStopRepository.UpdateMovesStop | repository/SqliteBusStopRepository.go:128-195 | an update that changes a stop's route_id lists the stop under the new route and no stop with its id under the old one |
| BusStopRepository.UpdateThenGet | repository/SqliteBusStopRepository.go:175-195 | after an update of a stored id that id finds exactly the new record |
| BusStopRepository.WritesKeepValid | repository/SqliteBusStopRepository.go:70-195 | every write keeps the PRIMARY KEY |
| DriverRepository.GetById | repository/SqliteDriverRepository_test.go:39-83 | found exactly when a stored driver has the id; otherwise "Driver not found" |
| DriverRepository.GetByPassportSeries | repository/SqliteDriverRepository_test.go:85-129 | found exactly when a stored driver has the passport series |
| DriverRepository.GetAll | repository/SqliteDriverRepository_test.go:186-252 | every stored driver and nothing else |
| DriverRepository.Add | repository/SqliteDriverRepository_test.go:131-184 | a stored passport series gives "Driver already exists" with nothing changed; otherwise the row is appended with a generated id unless a PRIMARY KEY or UNIQUE constraint refuses it |
| DriverRepository.DeleteById | repository/SqliteDriverRepository_test.go:254-298 | an absent id gives "Driver not found"; otherwise exactly the drivers with other ids remain |
| DriverRepository.UpdateById | repository/SqliteDriverRepository_test.go:300-378 | an absent id gives "Driver not found"; a passport series, SNILS or licence series held by another driver is a store error; otherwise the row is replaced in place |
| DriverRepository.AddThenGet | repository/SqliteDriverRepository_test.go:131-184 | a driver added successfully gets a non-blank id and is found by id and by passport series with the birth date unchanged, and GetAll lists it |
| DriverRepository.DeleteRemovesOne | repository/SqliteDriverRepository_test.go:254-298 | deleting a stored driver removes exactly its row, after which it is neither found nor listed by GetAll |
| DriverRepository.UpdateThenGet | repository/SqliteDriverRepository_test.go:300-378 | after a successful update the id finds exactly the new record |
| DriverRepository.WritesKeepValid | repository/SqliteDriverRepository_test.go:20-28 | every write keeps the PRIMARY KEY and the three UNIQUE constraints of the drivers table |
| RouteRepository.GetById | repository/SqliteRouteRepository.go:25-42 | found exactly when a stored route has the id; otherwise "Route not found" |
| RouteRepository.GetByNumber | repository/SqliteRouteRepository.go:44-61 | found exactly when some route has the number, and then the first such route in table order is returned |
| RouteRepository.GetAll | repository/SqliteRouteRepository.go:86-110 | every stored route and nothing else |
| RouteRepository.Add | repository/SqliteRouteRepository.go:63-84 | a stored number gives "Route already exists" with nothing changed; otherwise a blank id is replaced by the generated one and exactly one row is appended, unless the id is already a key |
| RouteRepository.DeleteById | repository/SqliteRouteRepository.go:112-125 | an absent id gives "Route not found"; otherwise only the routes table changes and exactly the routes with other ids remain |
| RouteRepository.UpdateById | repository/SqliteRouteRepository.go:127-142 | an absent id gives "Route not found"; otherwise only the number of the row with the id changes and every id is kept |
| RouteRepository.Assign | repository/SqliteRouteRepository.go:144-187 | a missing route gives "Route not found" with nothing changed; a pair already present fails on the composite key; otherwise exactly that pair is added and the other side is not looked up |
| RouteRepository.Unassign | repository/SqliteRouteRepository.go:189-223 | a missing route gives "Route not found"; otherwise exactly the pair is removed, and an absent pair succeeds with nothing changed |
| RouteRepository.AssignDriver | repository/SqliteRouteRepository.go:144-157 | a missing route gives "Route not found"; success exactly when the route exists and the pair is new, and then exactly that pair is added to routes_drivers; a failure changes nothing |
| RouteRepository.AssignBusStop | repository/SqliteRouteRepository.go:159-172 | the same for routes_bus_stops |
| RouteRepository.AssignBus | repository/SqliteRouteRepository.go:174-187 | the same for routes_buses |
| RouteRepository.UnassignBusStop | repository/SqliteRouteRepository.go:189-199 | a missing route gives "Route not found"; otherwise success, with exactly the pair removed from routes_bus_stops |
| RouteRepository.UnassignBus | repository/SqliteRouteRepository.go:201-211 | the same for routes_buses |
| RouteRepository.UnassignDriver | repository/SqliteRouteRepository.go:213-223 | the same for routes_drivers |
| RouteRepository.GetAllDriversById | repository/SqliteRouteRepository.go:225-261 | a missing route gives "Route not found"; otherwise the result holds exactly the stored drivers paired with the route, and over a valid store no driver twice |
| RouteRepository.GetAllBusesById | repository/SqliteRouteRepository.go:297-331 | a missing route gives "Route not found"; otherwise the result holds exactly the stored buses paired with the route, and over a valid store no bus twice |
| RouteRepository.GetAllBusStopsById | repository/SqliteRouteRepository.go:263-295 | a missing route gives "Route not found"; otherwise every paired stored stop appears with only id, coordinates and name filled in, nothing else appears, and over a valid store no id twice |
| RouteRepository.AddThenGet | repository/SqliteRouteRepository.go:63-84 | a route added successfully is found again by its id and by its number, and GetAll lists it |
| RouteRepository.UpdateThenGet | repository/SqliteRouteRepository.go:127-142 | after an update of a stored id that id finds exactly the new route |
| RouteRepository.DeleteLeavesLinks | repository/SqliteRouteRepository.go:112-125 | deleting a route removes exactly its row, GetAll no longer lists its id, and every association that names it stays |
| RouteRepository.AssignThenReadDrivers | repository/SqliteRouteRepository.go:144-261 | a driver assigned successfully is listed by GetAllDriversById, and unassigning it removes it from the list |
| RouteRepository.DeletedDriverNotListed | repository/SqliteRouteRepository.go:225-261 | the inner join hides a dangling pair: after DeleteById removes the driver the pair remains but the driver is not listed |
| RouteRepository.WritesKeepValid | repository/SqliteRouteRepository.go:63-142 | Add, DeleteById and UpdateById keep the routes table's PRIMARY KEY |
| RouteRepository.LinkWritesKeepTables | repository/SqliteRouteRepository.go:144-223 | assigning and unassigning change no entity table and keep the constraints |
| ListBusRepository.GetById | repository/ListBusRepository.go:20-27 | no record exactly when no listed bus has the id; otherwise the first bus with it |
| ListBusRepository.GetByNumber | repository/ListBusRepository.go:29-36 | the first bus whose upper-cased register number equals the upper-cased argument; none exactly when no bus matches that way |
| ListBusRepository.GetAll | repository/ListBusRepository.go:56-58 | every listed bus, in a list of the same length |
| ListBusRepository.Add | repository/ListBusRepository.go:38-54 | a listed id gives "Bus already exists" with nothing changed; otherwise the bus is appended under the generated id, whatever id it came with |
| ListBusRepository.DeleteById | repository/ListBusRepository.go:60-68 | an absent id gives "Bus not found"; otherwise exactly the first bus with the id is removed and the rest keep their order |
| ListBusRepository.UpdateById | repository/ListBusRepository.go:70-79 | the first bus with the id is replaced; an absent id changes nothing and reports no error |
| ListBusRepository.GetByNumberIgnoresCase | repository/ListBusRepository.go:29-36 | two numbers with the same upper-case form find the same bus |
| ListBusRepository.GetByUpperNumber | repository/ListBusRepository.go:29-36 | looking up the upper-cased number finds the same bus as the number itself |
| ListBusRepository.AddThenGet | repository/ListBusRepository.go:38-54 | after a successful Add the generated id finds the added bus, GetAll lists it, and the earlier buses are unchanged |
| ListBusRepository.DuplicateNumberAccepted | repository/ListBusRepository.go:38-54 | a register number another bus already has (in any case) does not stop Add, and the number lookup still finds the earlier bus |
| ListBusRepository.WritesKeepIdsDistinct | repository/ListBusRepository.go:38-79 | distinct ids stay distinct under Add, DeleteById and UpdateById |
| ListBusRepository.AddThenDelete | repository/ListBusRepository.go:38-68 | deleting the bus just added gives back the original list |
| ListBusRepository.DeleteThenGet | repository/ListBusRepository.go:60-68 | with distinct ids a deleted bus is no longer found, and the list loses exactly that bus |
| ListBusRepository.DeleteThenNotListed | repository/ListBusRepository.go:56-68 | with distinct ids GetAll no longer lists a deleted bus |
| ListBusRepository.UpdateThenGet | repository/ListBusRepository.go:70-79 | with distinct ids an updated bus is found exactly as given |
| Text.ToUpperIdempotent | repository/ListBusRepository.go:31 | upper-casing twice is the same as upper-casing once |
| BusStopService.Checked | service/BusStopService.go:18-39 | a repository error is returned verbatim; no record and no error gives "Bus stop not found"; otherwise the record |
| BusStopService.GetAllOf | service/BusStopService.go:46-51 | the repository's list is returned whatever its error |
| BusStopService.GetById | service/BusStopService.go:18-28 | found exactly when a stored stop has the id; otherwise "Bus stop not found" |
| BusStopService.GetByName | service/BusStopService.go:30-39 | found exactly when a stop has the name, and then the first such stop; otherwise "Bus stop not found" |
| BusStopService.GetAll | service/BusStopService.go:46-51 | every stored stop and nothing else |
| BusStopService.Add | service/BusStopService.go:41-44 | a stored name gives "Bus stop already exists" with the input unchanged; otherwise the record is the input under the assigned id (a non-blank caller id kept); success exactly when the name and that id are both new, and then exactly that row is appended and no other table changes; any other failure is a store error and changes nothing |
| BusStopService.DeleteById | service/BusStopService.go:53-56 | success exactly when the id is stored; otherwise "Bus stop not found" with nothing changed; the stops left are exactly the stored ones with another id, and no other table changes |
| BusStopService.UpdateById | service/BusStopService.go:58-61 | success exactly when the id is stored, and then the row with the id is replaced in place by the new record and every other row and table is kept; otherwise "Bus stop not found" with nothing changed |
| BusStopService.UpdateThenGet | service/BusStopService.go:18-61 | with distinct ids, a stop updated through the service is found through the service as given, and every other id finds what it found before |
| BusStopService.CheckedIsTransparent | service/BusStopService.go:18-39 | over a repository that reports absence as an error, the service's answer is the repository's |
| BusStopService.ServiceMatchesRepository | service/BusStopService.go:18-51 | the lookups agree with the SQLite repository's, absence reads "Bus stop not found", and GetAll returns the whole table |
| BusStopService.AddGetDelete | service/BusStopService.go:41-61 | a stop added through the service is found by id and name; deleting it makes the id lookup fail with "Bus stop not found" |
| RouteService.Assign | service/RouteService_test.go:245-398 | success exactly when both lookups and the repository's assign succeed; a single failed lookup's error is returned verbatim; with both failing, one of the two errors |
| RouteService.OrderMattersOnlyWhenBothFail | service/RouteService_test.go:245-398 | the two check orders give the same result unless both lookups fail |
| RouteService.Apply | service/RouteService_test.go:245-398 | the repository's assign runs only when both lookups pass; otherwise nothing changes |
| RouteService.AssignDriver | service/RouteService_test.go:245-292 | "Route not found" or "Driver not found" when only that record is missing; success exactly when both exist and the pair is new, and then exactly that pair is added; a failure changes nothing |
| RouteService.AssignBusStop | service/RouteService_test.go:294-341 | the same with "Bus stop not found" and routes_bus_stops |
| RouteService.AssignBus | service/RouteService_test.go:343-398 | the same with "Bus not found" and routes_buses |
| RouteService.AssignDriverOutcomes | service/RouteService_test.go:245-292 | "Route not found" or "Driver not found" when only that record is missing; either when both are; success exactly when both exist and the pair is new, and then exactly that pair is added |
| RouteService.AssignedDriverListed | service/RouteService_test.go:249-258 | after a successful assignment the route's drivers include the driver |
| RouteService.AssignBusOutcomes | service/RouteService_test.go:343-398 | "Bus not found" when only the bus is missing; a successful assignment lists the bus under the route |
| RouteService.AssignBusStopOutcomes | service/RouteService_test.go:294-341 | "Bus stop not found" when only the stop is missing; a successful assignment lists the stop's id, coordinates and name under the route |
| RouteService.GetById | service/RouteService_test.go:96-121 | the repository's route, or "Route not found" |
| RouteService.GetByNumber | service/RouteService_test.go:123-148 | the repository's route for the number, or "Route not found" |
| RouteService.GetAll | service/RouteService_test.go:174-197 | the repository's list with its length and members preserved, empty included |
| RouteService.Add | service/RouteService_test.go:150-172 | a stored number gives "Route already exists" with the input unchanged; otherwise the record is the input under the assigned id (a non-blank caller id kept); success exactly when the number and that id are both new, and then exactly that row is appended and no other table changes; any other failure is a store error and changes nothing |
| RouteService.DeleteById | service/RouteService_test.go:199-219 | success exactly when the id is stored; otherwise "Route not found" with nothing changed; the routes left are exactly the stored ones with another id, and the link tables and every other table are kept |
| RouteService.UpdateById | service/RouteService_test.go:221-243 | success exactly when the id is stored, and then the row with the id is replaced in place by the route as given and every other row and table is kept; otherwise "Route not found" with nothing changed |
| RouteService.WritesPassThrough | service/RouteService_test.go:150-243 | Add, DeleteById and UpdateById return exactly the repository's status, error included: UpdateById fails only with "Route not found", Add only with "Route already exists" or a store error |
| BusForm.SplitDate | frontend/src/components/BusComponent.jsx:53 | a date of the pattern splits at its two dots into day, month and year |
| BusForm.IsValidDateFormat | frontend/src/components/BusComponent.jsx:63-71 | accepted exactly when the string is two ASCII digits, a dot, two digits, a dot and four digits, with day 1..31, month 1..12 and year at least 1900 |
| BusForm.YearBoundNeverBinds | frontend/src/components/BusComponent.jsx:69 | the year's upper bound 9999 never rejects a string of the pattern |
| BusForm.ConvertDateToIso | frontend/src/components/BusComponent.jsx:49-55 | null exactly for an invalid date; otherwise the input's year, month and day digits as `YYYY-MM-DDT00:00:00Z`, 20 characters |
| BusForm.IsoRoundTrip | frontend/src/components/BusComponent.jsx:49-55 | the date reads back from its timestamp, so the conversion is injective |
| BusForm.RearrangedDateReadsBack | frontend/src/components/BusComponent.jsx:49-55 | a dotted date's year, month and day written in ISO order read back as that date |
| BusForm.DateOfIsoRoundTrip | frontend/src/components/BusComponent.jsx:49-55 | a timestamp that reads back as a valid date is exactly that date's conversion |
| BusForm.February31Accepted | frontend/src/components/BusComponent.jsx:63-71 | `31.02.2020` passes and converts to `2020-02-31T00:00:00Z`: there is no calendar check |
| BusForm.OutOfRangeRejected | frontend/src/components/BusComponent.jsx:63-71 | a one-digit day, day 00 and month 13 are rejected |
| BusForm.EarlyYearRejected | frontend/src/components/BusComponent.jsx:49-71 | a year before 1900 is rejected and converts to null |
| BusForm.FirstMissing | frontend/src/components/BusComponent.jsx:103-107 | the first of the fields, in order, that is undefined, empty or whitespace only; none exactly when all are filled |
| BusForm.ValidateFields | frontend/src/components/BusComponent.jsx:94-116 | valid exactly when every field is filled and both dates pass the date check, and then the message is empty; otherwise the first missing field's message, or the date message when all are filled |
| BusForm.MessagesIdentifyTheFault | frontend/src/components/BusComponent.jsx:94-112 | the messages of different fields differ, none is the date message, and none is empty |
| BusForm.ValidDraftConverts | frontend/src/components/BusComponent.jsx:49-116 | a draft that passes validation converts both of its dates without null |

## Left out

- Reads never fail in the model. A failing query, scan or connection
  belongs to the I/O layer. So every `GetAll` returns its table, and the
  lookups' "any failure reads as not found" path merges with "not found".
- UUID generation cannot fail in the model. Its error path in `Add` is I/O.
- The check-then-act race between a lookup and the following write is a
  concurrency issue. Every operation is modelled as atomic.
- The controllers, routers, JSON encoding, the desktop binding, `main.go`
  and `app.go` are plumbing around the modelled operations.
- The bus service and the bus repository interface are drafts that
  contradict each other. They are not part of this model.
- The source of the route service and of the SQLite driver repository is
  not part of this model. The route service is modelled from
  `service/RouteService_test.go`. The driver repository takes from
  `repository/SqliteDriverRepository_test.go` its schema (lines 20-28),
  the two lookups, "Driver already exists" for a stored passport series,
  "Driver not found" for a missing id and the update's read-back. Four
  rules are not in that test and follow the pattern of
  `repository/SqliteBusRepository.go` and
  `repository/SqliteBusStopRepository.go` instead: an id that is blank
  after `TrimSpace` is replaced by the generated one; a supplied id is
  kept; `UpdateById` rewrites every column but the id (patronymic, SNILS
  and licence series included); and a duplicate id, SNILS or licence
  series on insert or update is an opaque store error.
- ListBusRepository.GetAll: returns a value, whereas the Go method returns
  the repository's own slice. `DeleteById` and `UpdateById` then rewrite
  that slice in place, so a caller holding an earlier result can see it
  change (after a delete, shifted elements and a stale last one). Go
  aliasing is not modelled.
- `convertISOToDate` relies on the JavaScript `Date` object.
  `BusForm.DateOfIso` is a character-level inverse used only to state the
  round trip. It is not a model of that function.
- Text.ToUpper: covers ASCII, Latin-1 and basic Cyrillic, the scripts that
  register numbers use. Other scripts are left unchanged, whereas Go's
  `strings.ToUpper` applies the full Unicode case mapping.
- BusForm.IsValidDateFormat: takes a string. The form's fields are always
  strings, so JavaScript's coercion of other values is not modelled.
- RouteService.Assign: when both lookups fail, the contract allows either
  error. The order of the two checks is not visible.
- Floating-point coordinates and timestamps are opaque values compared for
  equality. No arithmetic on them is modelled.
- Cascading deletes and foreign-key checks are not modelled because the
  code has none. Deleting an entity leaves its association rows dangling.
