/** The `RemoveBgResponse` envelope the controllers return, reduced to what they put in it. */
module Http {
  import opened Lang
  import opened Entities

  const OK: nat := 200
  const BAD_REQUEST: nat := 400
  const UNAUTHORIZED: nat := 401
  const PAYMENT_REQUIRED: nat := 402
  const FORBIDDEN: nat := 403
  const NOT_FOUND: nat := 404
  const INTERNAL_SERVER_ERROR: nat := 500
  const SERVICE_UNAVAILABLE: nat := 503

  datatype Body =
    | NoBody
    | CreditBalance(balance: int)       // {"creditBalance": n}
    | Credits(credits: Option<Int32>)   // {"credits": n}
    | Image(base64: string)
    | SavedUser(user: UserDto)

  /** `success` is true exactly for the 200 responses, so it is not stored. */
  datatype Response = Response(status: nat, message: string, body: Body)

  function ErrorResponse(status: nat, message: string): Response {
    Response(status, message, NoBody)
  }

  /** A 200 response that carries only a message. */
  function Acknowledged(message: string): Response {
    Response(OK, message, NoBody)
  }
}
