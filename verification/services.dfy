/** The user service (`internal/services/user.go`): the register and login use
    cases and the CRUD pass-throughs, over the repository's table. The token
    issuer is the `AuthService` the service is wired with, supplied as a
    function. */
module Services {
  import opened Wrappers
  import opened GoTypes
  import opened Errors
  import opened Models
  import opened Repository
  import Crypto

  /** `AuthService.GenerateToken(userID, email)`. */
  type Issuer = (Int64, string) -> Result<string, Error>

  /** What a successful login hands back. */
  datatype Session = Session(user: UserResponse, token: string)

  /** `Register`: builds a user from the request and hands it to `Create`
      without checks of its own; the plaintext password goes to the repository,
      which stores only its digest. */
  function Register(t: Table, hasher: Crypto.Hasher, req: RegisterRequest): (s: Step<()>)
    ensures EmailTaken(t, req.email) ==> s == Step(Failure(UserExists), t)
    ensures s.result.Failure? ==> s.table == t
    ensures !EmailTaken(t, req.email) && hasher.hash(req.password).Failure?
      ==> s.result == Failure(hasher.hash(req.password).error)
    ensures s.result.Success? <==> !EmailTaken(t, req.email) && hasher.hash(req.password).Success? && t.nextId <= MaxInt64
    ensures s.result.Success? ==> s.table.nextId == t.nextId + 1
    ensures s.result.Success? ==> s.table.rows == t.rows[t.nextId := Row(req.name, req.email, hasher.hash(req.password).value)]
  {
    Create(t, User(0, req.name, req.email, req.password), hasher)
  }

  /** The stored user (digest included) that an email designates. */
  function Stored(t: Table, email: string): User
    requires EmailTaken(t, email)
  {
    GetByEmail(t, email).value
  }

  /** The email is stored and the password verifies against its digest. */
  predicate CredentialsMatch(t: Table, hasher: Crypto.Hasher, req: LoginRequest) {
    EmailTaken(t, req.email) && hasher.check(req.password, Stored(t, req.email).password)
  }

  /** `Login`: look the user up by email and check the password against the
      stored digest; an unknown email and a wrong password both give the same
      "invalid credentials" error. Only then is a token issued, for the stored
      user's id and email; an issuer error is passed on as is. A successful
      login returns the stored user's id, name and email, and no password. */
  function Login(t: Table, hasher: Crypto.Hasher, issue: Issuer, req: LoginRequest): (r: Result<Session, Error>)
    ensures !EmailTaken(t, req.email) ==> r == Failure(InvalidCredentials)
    ensures !CredentialsMatch(t, hasher, req) ==> r == Failure(InvalidCredentials)
    ensures CredentialsMatch(t, hasher, req) ==> var u := Stored(t, req.email);
      r == match issue(u.id, u.email)
        case Failure(e) => Failure(e)
        case Success(token) => Success(Session(UserResponse(u.id, u.name, u.email), token))
  {
    var found := GetByEmail(t, req.email);
    if found.Failure? then Failure(InvalidCredentials)
    else
      var user := found.value;
      if !hasher.check(req.password, user.password) then Failure(InvalidCredentials)
      else
        var issued := issue(user.id, user.email);
        if issued.Failure? then Failure(issued.error)
        else Success(Session(ToResponse(user), issued.value))
  }

  /** A login whose credentials fail never reaches the issuer: any two issuers
      give the same answer. */
  lemma LoginIssuesOnlyAfterCheck(t: Table, hasher: Crypto.Hasher, i1: Issuer, i2: Issuer, req: LoginRequest)
    requires !CredentialsMatch(t, hasher, req)
    ensures Login(t, hasher, i1, req) == Login(t, hasher, i2, req) == Failure(InvalidCredentials)
  {
  }

  /** The loop of `GetAllUsers`: each user projected to id, name and email, in
      the same order. */
  method ProjectAll(users: seq<User>) returns (response: seq<UserResponse>)
    ensures |response| == |users|
    ensures forall i :: 0 <= i < |users| ==> response[i] == UserResponse(users[i].id, users[i].name, users[i].email)
  {
    response := [];
    var k := 0;
    while k < |users|
      invariant 0 <= k <= |users|
      invariant |response| == k
      invariant forall i :: 0 <= i < k ==> response[i] == ToResponse(users[i])
    {
      response := response + [ToResponse(users[k])];
      k := k + 1;
    }
  }

  /** `GetAllUsers`: every user the repository lists, in its order, projected
      to id, name and email. */
  method GetAllUsers(t: Table) returns (r: Result<seq<UserResponse>, Error>)
    ensures r.Success?
    ensures |r.value| == |t.rows|
    ensures forall i :: 0 <= i < |r.value| ==> r.value[i] == ToResponse(GetAll(t).value[i])
    ensures forall i, j :: 0 <= i < j < |r.value| ==> r.value[i].id < r.value[j].id
  {
    var users := GetAll(t).value;
    var response := ProjectAll(users);
    return Success(response);
  }

  /** `GetUserByID`: the stored profile of `id`, or not-found. */
  function GetUserById(t: Table, id: Int64): (r: Result<UserResponse, Error>)
    ensures r.Success? <==> id in t.rows
    ensures r.Failure? ==> r.error == UserNotFound
    ensures r.Success? ==> r.value == UserResponse(id, t.rows[id].name, t.rows[id].email)
  {
    match GetById(t, id)
    case Failure(e) => Failure(e)
    case Success(user) => Success(ToResponse(user))
  }

  /** `UpdateUser`: forwards only id, name and email, so no stored password
      changes, whatever the outcome; it succeeds exactly when the id is stored
      and no other row holds the email, and touches no other row. */
  function UpdateUser(t: Table, id: Int64, req: UpdateUserRequest): (s: Step<()>)
    ensures id !in t.rows ==> s == Step(Failure(UserNotFound), t)
    ensures s.result.Success? <==> id in t.rows && !EmailTakenByOther(t, req.email, id)
    ensures id in t.rows && EmailTakenByOther(t, req.email, id) ==> s.result == Failure(UniqueViolation)
    ensures s.result.Failure? ==> s.table == t
    ensures s.table.nextId == t.nextId
    ensures s.table.rows.Keys == t.rows.Keys
    ensures forall k :: k in t.rows && k != id ==> s.table.rows[k] == t.rows[k]
    ensures forall k :: k in t.rows ==> s.table.rows[k].passwordHash == t.rows[k].passwordHash
    ensures s.result.Success? ==> s.table.rows[id].name == req.name && s.table.rows[id].email == req.email
  {
    Update(t, User(id, req.name, req.email, ""))
  }

  /** `DeleteUser`: removes exactly the row `id`, or reports not-found. */
  function DeleteUser(t: Table, id: Int64): (s: Step<()>)
    ensures s.result.Success? <==> id in t.rows
    ensures s.result.Failure? ==> s == Step(Failure(UserNotFound), t)
    ensures s.result.Success? ==> s.table.rows.Keys == t.rows.Keys - {id}
    ensures forall k :: k in s.table.rows ==> k in t.rows && s.table.rows[k] == t.rows[k]
    ensures s.table.nextId == t.nextId
  {
    Delete(t, id)
  }
}
