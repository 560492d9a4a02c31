/** Failure-carrying values shared by every repository and service of the
    bus-network administration model: optional records, results, the error
    taxonomy and the exact error messages the repositories produce. */
module Outcomes {

  /** A record that may be absent (Go's `nil`). */
  datatype Option<+T> = None | Some(value: T)

  /** The entity a "not found" / "already exists" error speaks about. */
  datatype Kind = RouteKind | BusKind | BusStopKind | DriverKind

  /** The repositories' error classes. Any failure of the relational store
      other than "no rows" (a violated PRIMARY KEY or UNIQUE constraint) is
      the single opaque `StoreError`. */
  datatype Error = NotFound(kind: Kind) | AlreadyExists(kind: Kind) | StoreError

  /** A value or the error that replaced it. */
  datatype Result<+T> = Ok(value: T) | Err(error: Error)

  /** Outcome of an operation that only reports an error (Go's `error`). */
  datatype Status = Done | Failed(error: Error)

  /** The text of `errors.New(...)` for each domain error. */
  function Message(e: Error): string
    requires !e.StoreError?
  {
    match e
    case NotFound(RouteKind) => "Route not found"
    case NotFound(BusKind) => "Bus not found"
    case NotFound(BusStopKind) => "Bus stop not found"
    case NotFound(DriverKind) => "Driver not found"
    case AlreadyExists(RouteKind) => "Route already exists"
    case AlreadyExists(BusKind) => "Bus already exists"
    case AlreadyExists(BusStopKind) => "Bus stop already exists"
    case AlreadyExists(DriverKind) => "Driver already exists"
  }

  /** Go's `(record, error)` pair as a repository interface hands it to a
      service: both halves may be nil. */
  datatype Reply<+T> = Reply(record: Option<T>, err: Option<Error>)

  /** The reply a repository that reports absence as an error produces. */
  function ReplyOf<T>(r: Result<T>): (rep: Reply<T>)
    ensures rep.err.None? <==> r.Ok?
    ensures rep.record.Some? <==> r.Ok?
  {
    match r
    case Ok(v) => Reply(Some(v), None)
    case Err(e) => Reply(None, Some(e))
  }
}
