/** The HTTP responses the service writes: a status code and, except for 204,
    a JSON envelope. */
module Http {
  import opened Wrappers
  import opened Models

  const StatusOK: int := 200
  const StatusCreated: int := 201
  const StatusNoContent: int := 204
  const StatusBadRequest: int := 400
  const StatusUnauthorized: int := 401
  const StatusNotFound: int := 404
  const StatusConflict: int := 409
  const StatusInternalServerError: int := 500

  /** What a success envelope carries as `data`. */
  datatype Payload =
    | Message(text: string)
    | OneUser(user: UserResponse)
    | Users(users: seq<UserResponse>)
    | TokenAndUser(token: string, user: UserResponse)

  /** `handlers.Response`: `success`, then `data` or `error`. */
  datatype Envelope = Envelope(success: bool, data: Option<Payload>, error: string)

  datatype HttpResponse = HttpResponse(status: int, body: Option<Envelope>)
}
