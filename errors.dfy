/**
 * Error classification at the service boundary. A typed RpcException
 * carries a machine-checkable kind; everything else the persistence layer
 * throws is an unclassified fault that a catch block either re-wraps into a
 * generic kind or (where there is no catch) lets escape.
 */
module Errors {
  import opened Outcomes

  /** Which store an error speaks for. */
  datatype Entity = ElectionRecord | CandidateRecord

  /** The kinds of RpcException the two services throw. */
  datatype RpcError =
    | NotFound(entity: Entity)        // missing or soft-deleted row
    | CreationFailed(entity: Entity)  // insert rejected
    | UpdateFailed(entity: Entity)    // partial overwrite rejected
    | RemovalFailed(entity: Entity)   // soft delete rejected
    | DbError                         // candidate listing failed

  /** Raw faults of the persistence layer. */
  datatype DbFault =
    | UniqueViolation  // an insert reused an existing id
    | RecordMissing    // an update named an id that is not in the table
    | StoreFailure     // anything outside the two tables: lost connection, a constraint of the unseen schema

  /** What a try block can throw: a typed exception, or a raw fault. */
  datatype Fault = Rpc(error: RpcError) | Raw(fault: DbFault)

  /** The HTTP status each RpcException carries. */
  function HttpStatus(e: RpcError): (code: int)
    ensures code == 404 <==> e.NotFound?
    ensures code == 400 <==> e.CreationFailed?
    ensures code == 500 <==> (e.UpdateFailed? || e.RemovalFailed? || e.DbError?)
  {
    match e
    case NotFound(_) => 404
    case CreationFailed(_) => 400
    case _ => 500
  }

  /**
   * The catch clause shared by every guarded operation: an RpcException is
   * re-thrown unchanged, any other error becomes the operation's generic kind.
   */
  function Guard(f: Fault, generic: RpcError): (e: RpcError)
    ensures f.Rpc? ==> e == f.error
    ensures f.Raw? ==> e == generic
  {
    match f
    case Rpc(error) => error
    case Raw(_) => generic
  }

  /** A try block followed by that catch clause. */
  function Catch<T>(attempt: Result<T, Fault>, generic: RpcError): (r: Result<T, RpcError>)
    ensures r.Success? <==> attempt.Success?
    ensures r.Success? ==> r.value == attempt.value
    ensures r.Failure? ==> r.error == Guard(attempt.error, generic)
  {
    match attempt
    case Success(v) => Success(v)
    case Failure(f) => Failure(Guard(f, generic))
  }
}
