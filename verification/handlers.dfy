/** The HTTP handlers (`internal/handlers/handler.go`): decode and validate the
    request, call the user service, and turn its outcome into a status code and
    a JSON envelope. A request body is `None` when it does not decode as JSON;
    the `{id}` path parameter is the raw text the router extracted. */
module Handlers {
  import opened Wrappers
  import opened GoTypes
  import opened Errors
  import opened Models
  import opened Http
  import opened StrConv
  import opened Repository
  import opened Services
  import Crypto

  const InvalidBodyMessage: string := "Invalid request body"
  const InvalidIdMessage: string := "Invalid user ID"
  const ConflictMessage: string := "User with this email already exists"
  const InternalErrorMessage: string := "Internal server error"
  const BadCredentialsMessage: string := "Invalid email or password"
  const NotFoundMessage: string := "User not found"
  const RegisteredMessage: string := "User registered successfully"
  const UpdatedMessage: string := "User updated successfully"

  /** What the handlers are wired with besides the table: the password hasher,
      the token issuer, the validator's email-format rule, and the text the
      validator's error yields for a list of violations. */
  datatype Env = Env(
    hasher: Crypto.Hasher,
    issue: Issuer,
    isEmail: string -> bool,
    describe: seq<Violation> -> string)

  /** The shape every response of the service has: 204 comes without a body;
      any other status carries an envelope that is a success exactly when the
      status is below 400; a success carries data and no error, a failure
      carries no data. */
  predicate WellFormed(r: HttpResponse) {
    && (r.body.None? <==> r.status == StatusNoContent)
    && (r.body.Some? ==> (r.body.value.success <==> r.status < 400))
    && (r.body.Some? && r.body.value.success ==> r.body.value.data.Some? && r.body.value.error == "")
    && (r.body.Some? && !r.body.value.success ==> r.body.value.data.None?)
  }

  /** The response is the error envelope with `message` under `status`. */
  predicate IsError(r: HttpResponse, status: int, message: string) {
    r.status == status && r.body == Some(Envelope(false, None, message))
  }

  /** `sendError`: an envelope with `success` false and the message. It is a
      well-formed response exactly when the status is an error status. */
  function SendError(message: string, status: int): (r: HttpResponse)
    ensures IsError(r, status, message)
    ensures WellFormed(r) <==> status >= 400
  {
    HttpResponse(status, Some(Envelope(false, None, message)))
  }

  /** `sendSuccess`: an envelope with `success` true and the data. It is a
      well-formed response exactly when the status is a success status other
      than 204. */
  function SendSuccess(data: Payload, status: int): (r: HttpResponse)
    ensures r.status == status && r.body.Some? && r.body.value.success
    ensures r.body.value.data == Some(data) && r.body.value.error == ""
    ensures WellFormed(r) <==> status < 400 && status != StatusNoContent
  {
    HttpResponse(status, Some(Envelope(true, Some(data), "")))
  }

  /** The mapping get, update and delete share: an error whose text is
      "user not found" is 404, any other error 500. */
  function NotFoundOrInternal(e: Error): (r: HttpResponse)
    ensures Text(e) == Text(UserNotFound) ==> IsError(r, StatusNotFound, NotFoundMessage)
    ensures Text(e) != Text(UserNotFound) ==> IsError(r, StatusInternalServerError, InternalErrorMessage)
    ensures WellFormed(r)
  {
    if Text(e) == "user not found" then SendError(NotFoundMessage, StatusNotFound)
    else SendError(InternalErrorMessage, StatusInternalServerError)
  }

  /** `Register`: a body that does not decode or fails validation is a 400 and
      the service is not called; an error whose text is "user already exists"
      is a 409, any other error a 500; success is a 201. Only a 201 changes the
      table, and then exactly as the service did. */
  function RegisterHandler(env: Env, t: Table, body: Option<RegisterRequest>): (r: (HttpResponse, Table))
    ensures body.None? ==> r == (SendError(InvalidBodyMessage, StatusBadRequest), t)
    ensures body.Some? && RegisterViolations(body.value, env.isEmail) != []
      ==> r == (SendError(env.describe(RegisterViolations(body.value, env.isEmail)), StatusBadRequest), t)
    ensures body.Some? && RegisterViolations(body.value, env.isEmail) == [] && EmailTaken(t, body.value.email)
      ==> r == (SendError(ConflictMessage, StatusConflict), t)
    ensures body.Some? && RegisterViolations(body.value, env.isEmail) == [] && Register(t, env.hasher, body.value).result.Failure?
            && Text(Register(t, env.hasher, body.value).result.error) != Text(UserExists)
      ==> r == (SendError(InternalErrorMessage, StatusInternalServerError), t)
    ensures r.0.status == StatusCreated <==> body.Some? && RegisterViolations(body.value, env.isEmail) == [] && Register(t, env.hasher, body.value).result.Success?
    ensures r.0.status == StatusCreated ==> r == (SendSuccess(Message(RegisteredMessage), StatusCreated), Register(t, env.hasher, body.value).table)
    ensures r.0.status != StatusCreated ==> r.1 == t
    ensures r.0.status in {StatusCreated, StatusBadRequest, StatusConflict, StatusInternalServerError}
    ensures WellFormed(r.0)
  {
    match body
    case None => (SendError(InvalidBodyMessage, StatusBadRequest), t)
    case Some(req) =>
      var violations := RegisterViolations(req, env.isEmail);
      if violations != [] then (SendError(env.describe(violations), StatusBadRequest), t)
      else
        var step := Register(t, env.hasher, req);
        match step.result
        case Failure(e) =>
          if Text(e) == "user already exists" then (SendError(ConflictMessage, StatusConflict), t)
          else (SendError(InternalErrorMessage, StatusInternalServerError), t)
        case Success(_) => (SendSuccess(Message(RegisteredMessage), StatusCreated), step.table)
  }

  /** `Login`: decode and validation failures are 400; every service error,
      whatever its cause, is the same 401; success is a 200 carrying the token
      and the user. */
  function LoginHandler(env: Env, t: Table, body: Option<LoginRequest>): (r: HttpResponse)
    ensures body.None? ==> r == SendError(InvalidBodyMessage, StatusBadRequest)
    ensures body.Some? && LoginViolations(body.value, env.isEmail) != []
      ==> r == SendError(env.describe(LoginViolations(body.value, env.isEmail)), StatusBadRequest)
    ensures body.Some? && LoginViolations(body.value, env.isEmail) == [] && Login(t, env.hasher, env.issue, body.value).Failure?
      ==> IsError(r, StatusUnauthorized, BadCredentialsMessage)
    ensures r.status == StatusOK <==> body.Some? && LoginViolations(body.value, env.isEmail) == [] && Login(t, env.hasher, env.issue, body.value).Success?
    ensures r.status == StatusOK ==> var session := Login(t, env.hasher, env.issue, body.value).value;
      r == SendSuccess(TokenAndUser(session.token, session.user), StatusOK)
    ensures r.status in {StatusOK, StatusBadRequest, StatusUnauthorized}
    ensures WellFormed(r)
  {
    match body
    case None => SendError(InvalidBodyMessage, StatusBadRequest)
    case Some(req) =>
      var violations := LoginViolations(req, env.isEmail);
      if violations != [] then SendError(env.describe(violations), StatusBadRequest)
      else
        match Login(t, env.hasher, env.issue, req)
        case Failure(_) => SendError(BadCredentialsMessage, StatusUnauthorized)
        case Success(session) => SendSuccess(TokenAndUser(session.token, session.user), StatusOK)
  }

  /** A valid login request for an unknown email and one with a wrong password
      get the very same response, so the response does not reveal which
      emails are registered. */
  lemma LoginHidesCause(env: Env, t: Table, unknown: LoginRequest, wrong: LoginRequest)
    requires LoginViolations(unknown, env.isEmail) == [] && LoginViolations(wrong, env.isEmail) == []
    requires !EmailTaken(t, unknown.email)
    requires EmailTaken(t, wrong.email) && !env.hasher.check(wrong.password, Stored(t, wrong.email).password)
    ensures LoginHandler(env, t, Some(unknown)) == LoginHandler(env, t, Some(wrong))
    ensures IsError(LoginHandler(env, t, Some(unknown)), StatusUnauthorized, BadCredentialsMessage)
  {
  }

  /** `GetAllUsers`: a 200 carrying every stored user's id, name and email, in
      ascending id order. */
  method GetAllUsersHandler(t: Table) returns (r: HttpResponse)
    ensures r.status == StatusOK && WellFormed(r)
    ensures r.body.value.data.Some? && r.body.value.data.value.Users?
    ensures |r.body.value.data.value.users| == |t.rows|
    ensures forall u :: u in r.body.value.data.value.users ==> u.id in t.rows && u == UserResponse(u.id, t.rows[u.id].name, t.rows[u.id].email)
    ensures var us := r.body.value.data.value.users; forall i, j :: 0 <= i < j < |us| ==> us[i].id < us[j].id
  {
    var users := GetAllUsers(t);
    match users
    case Failure(_) =>
      assert false;
      r := SendError(InternalErrorMessage, StatusInternalServerError);
    case Success(us) =>
      forall u | u in us
        ensures u.id in t.rows && u == UserResponse(u.id, t.rows[u.id].name, t.rows[u.id].email)
      {
        var i :| 0 <= i < |us| && us[i] == u;
        assert us[i] == ToResponse(GetAll(t).value[i]);
      }
      r := SendSuccess(Users(us), StatusOK);
  }

  /** `GetUserByID`: an id that is not a base-10 int64 is a 400 before the
      service is called; a missing user is a 404; otherwise a 200 carrying the
      stored id, name and email. */
  function GetUserByIdHandler(t: Table, rawId: string): (r: HttpResponse)
    ensures ParseInt64(rawId).None? ==> r == SendError(InvalidIdMessage, StatusBadRequest)
    ensures ParseInt64(rawId).Some? && ParseInt64(rawId).value !in t.rows ==> IsError(r, StatusNotFound, NotFoundMessage)
    ensures r.status == StatusOK <==> ParseInt64(rawId).Some? && ParseInt64(rawId).value in t.rows
    ensures r.status == StatusOK ==> var id := ParseInt64(rawId).value;
      r == SendSuccess(OneUser(UserResponse(id, t.rows[id].name, t.rows[id].email)), StatusOK)
    ensures r.status in {StatusOK, StatusBadRequest, StatusNotFound, StatusInternalServerError}
    ensures WellFormed(r)
  {
    match ParseInt64(rawId)
    case None => SendError(InvalidIdMessage, StatusBadRequest)
    case Some(id) =>
      match GetUserById(t, id)
      case Failure(e) => NotFoundOrInternal(e)
      case Success(user) => SendSuccess(OneUser(user), StatusOK)
  }

  /** `GetUserByID` over the repository as written: a missing id gets a 500,
      where the corrected repository makes it the intended 404. */
  lemma MissingIdAsWritten(t: Table, id: Int64)
    requires id !in t.rows
    ensures IsError(NotFoundOrInternal(GetByIdAsWritten(t, id).error), StatusInternalServerError, InternalErrorMessage)
    ensures IsError(GetUserByIdHandler(t, FormatInt64(id)), StatusNotFound, NotFoundMessage)
  {
    ParseFormat(id);
  }

  /** Every stored user can be fetched through the decimal text of its id. */
  lemma FetchByPrintedId(t: Table, id: Int64)
    requires id in t.rows
    ensures GetUserByIdHandler(t, FormatInt64(id)) == SendSuccess(OneUser(UserResponse(id, t.rows[id].name, t.rows[id].email)), StatusOK)
  {
    ParseFormat(id);
  }

  /** `UpdateUser`: the id is parsed first, then the body is decoded and
      validated, each failure a 400 before the service is called; a missing
      user is a 404, any other service error (an email another user holds) a
      500; success is a 200. Only a 200 changes the table. */
  function UpdateUserHandler(env: Env, t: Table, rawId: string, body: Option<UpdateUserRequest>): (r: (HttpResponse, Table))
    ensures ParseInt64(rawId).None? ==> r == (SendError(InvalidIdMessage, StatusBadRequest), t)
    ensures ParseInt64(rawId).Some? && body.None? ==> r == (SendError(InvalidBodyMessage, StatusBadRequest), t)
    ensures ParseInt64(rawId).Some? && body.Some? && UpdateViolations(body.value, env.isEmail) != []
      ==> r == (SendError(env.describe(UpdateViolations(body.value, env.isEmail)), StatusBadRequest), t)
    ensures ParseInt64(rawId).Some? && body.Some? && UpdateViolations(body.value, env.isEmail) == [] && ParseInt64(rawId).value !in t.rows
      ==> r == (SendError(NotFoundMessage, StatusNotFound), t)
    ensures ParseInt64(rawId).Some? && body.Some? && UpdateViolations(body.value, env.isEmail) == []
            && ParseInt64(rawId).value in t.rows && EmailTakenByOther(t, body.value.email, ParseInt64(rawId).value)
      ==> r == (SendError(InternalErrorMessage, StatusInternalServerError), t)
    ensures r.0.status == StatusOK <==> ParseInt64(rawId).Some? && body.Some? && UpdateViolations(body.value, env.isEmail) == [] && UpdateUser(t, ParseInt64(rawId).value, body.value).result.Success?
    ensures r.0.status == StatusOK ==> r == (SendSuccess(Message(UpdatedMessage), StatusOK), UpdateUser(t, ParseInt64(rawId).value, body.value).table)
    ensures r.0.status != StatusOK ==> r.1 == t
    ensures r.0.status in {StatusOK, StatusBadRequest, StatusNotFound, StatusInternalServerError}
    ensures WellFormed(r.0)
  {
    match ParseInt64(rawId)
    case None => (SendError(InvalidIdMessage, StatusBadRequest), t)
    case Some(id) =>
      match body
      case None => (SendError(InvalidBodyMessage, StatusBadRequest), t)
      case Some(req) =>
        var violations := UpdateViolations(req, env.isEmail);
        if violations != [] then (SendError(env.describe(violations), StatusBadRequest), t)
        else
          var step := UpdateUser(t, id, req);
          match step.result
          case Failure(e) => (NotFoundOrInternal(e), t)
          case Success(_) => (SendSuccess(Message(UpdatedMessage), StatusOK), step.table)
  }

  /** A bad id decides the update response on its own: the body and the table
      play no part, and nothing changes. */
  lemma BadIdDecidesUpdate(env: Env, t1: Table, t2: Table, rawId: string, b1: Option<UpdateUserRequest>, b2: Option<UpdateUserRequest>)
    requires ParseInt64(rawId).None?
    ensures UpdateUserHandler(env, t1, rawId, b1).0 == UpdateUserHandler(env, t2, rawId, b2).0
    ensures UpdateUserHandler(env, t1, rawId, b1).1 == t1
  {
  }

  /** `DeleteUser`: a bad id is a 400, a missing user a 404; success is a 204
      with no body, and the table has lost exactly that row. */
  function DeleteUserHandler(t: Table, rawId: string): (r: (HttpResponse, Table))
    ensures ParseInt64(rawId).None? ==> r == (SendError(InvalidIdMessage, StatusBadRequest), t)
    ensures ParseInt64(rawId).Some? && ParseInt64(rawId).value !in t.rows ==> r == (SendError(NotFoundMessage, StatusNotFound), t)
    ensures r.0.status == StatusNoContent <==> ParseInt64(rawId).Some? && ParseInt64(rawId).value in t.rows
    ensures r.0.status == StatusNoContent ==> r.0.body.None? && r.1.rows.Keys == t.rows.Keys - {ParseInt64(rawId).value}
    ensures r.0.status == StatusNoContent ==> r.1 == DeleteUser(t, ParseInt64(rawId).value).table
    ensures forall k :: k in r.1.rows ==> k in t.rows && r.1.rows[k] == t.rows[k]
    ensures r.0.status != StatusNoContent ==> r.1 == t
    ensures r.0.status in {StatusNoContent, StatusBadRequest, StatusNotFound, StatusInternalServerError}
    ensures WellFormed(r.0)
  {
    match ParseInt64(rawId)
    case None => (SendError(InvalidIdMessage, StatusBadRequest), t)
    case Some(id) =>
      var step := DeleteUser(t, id);
      match step.result
      case Failure(e) => (NotFoundOrInternal(e), t)
      case Success(_) => (HttpResponse(StatusNoContent, None), step.table)
  }
}
