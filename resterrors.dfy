/**
 * The error record the filter returns and the remote service sends back:
 * an HTTP status, a message and an error kind. The package that defines it
 * is not part of this model; only the fields the filter reads or passes on
 * are kept.
 */
module RestErrors {

  datatype RestErr = RestErr(message: string, status: int, error: string)

  const StatusNotFound: int := 404
  const StatusInternalServerError: int := 500

  /** The locally synthesized failure: internal-server-error status and kind, with the given message. */
  function NewInternalServerError(message: string): (e: RestErr)
    ensures IsInternal(e) && e.message == message
    ensures e.status != StatusNotFound
  {
    RestErr(message, StatusInternalServerError, "internal_server_error")
  }

  predicate IsInternal(e: RestErr) {
    e.status == StatusInternalServerError && e.error == "internal_server_error"
  }
}
