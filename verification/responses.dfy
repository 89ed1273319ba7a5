/**
 * The HTTP responses the prover's front end can send: a status code and a
 * JSON body, built by `success_response`, `error_response`, or (for the
 * list fallback) an empty `SnarkList`.
 */
module Responses {

  const Ok: nat := 200
  const Created: nat := 201
  const BadRequest: nat := 400
  const NotFound: nat := 404
  const InternalServerError: nat := 500

  datatype Body =
    | SuccessBody(message: string)   // {"success": true, "message": ...}
    | ErrorBody(error: string)       // {"error": ...}
    | EmptySnarkList                 // {"snarks": [], "total": 0}

  datatype Response = Response(status: nat, body: Body)

  /** `success_response(status, message)` */
  function SuccessResponse(status: nat, message: string): Response
  {
    Response(status, SuccessBody(message))
  }

  /** `error_response(status, message)` */
  function ErrorResponse(status: nat, message: string): Response
  {
    Response(status, ErrorBody(message))
  }
}
