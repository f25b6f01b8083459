/** The `users` table and the repository operations over it
    (`internal/repository/user.go`). The table is a map from id to row plus the
    next value of the id sequence; every operation returns its result together
    with the table after it. */
module Repository {
  import opened Wrappers
  import opened GoTypes
  import opened Errors
  import opened Models
  import Crypto

  /** A stored row: the profile and the bcrypt digest of the password. */
  datatype Row = Row(name: string, email: string, passwordHash: string)

  datatype Table = Table(rows: map<Int64, Row>, nextId: nat)

  /** What the database keeps true: ids come from an increasing sequence that
      starts at 1, and no two rows share an email. */
  ghost predicate Valid(t: Table) {
    && 1 <= t.nextId
    && (forall id :: id in t.rows ==> 1 <= id < t.nextId)
    && (forall i, j :: i in t.rows && j in t.rows && t.rows[i].email == t.rows[j].email ==> i == j)
  }

  const Empty: Table := Table(map[], 1)

  /** The outcome of an operation and the table it leaves behind. */
  datatype Step<T> = Step(result: Result<T, Error>, table: Table)

  /** The error the database reports when the email uniqueness constraint is hit. */
  const UniqueViolation: Error := Opaque("duplicate key value violates unique constraint")

  /** The error the database reports when the id sequence has run out. */
  const SequenceExhausted: Error := Opaque("nextval: reached maximum value of sequence")

  /** A row as a user, all four columns selected. */
  function FullUser(id: Int64, row: Row): User {
    User(id, row.name, row.email, row.passwordHash)
  }

  /** A row as a user when only `id, name, email` are selected: the password is
      left at its zero value. */
  function ProfileUser(id: Int64, row: Row): User {
    User(id, row.name, row.email, "")
  }

  predicate EmailTaken(t: Table, email: string) {
    exists id :: id in t.rows && t.rows[id].email == email
  }

  /** Whether a row other than `id` already has `email`. */
  predicate EmailTakenByOther(t: Table, email: string, id: Int64) {
    exists other :: other in t.rows && other != id && t.rows[other].email == email
  }

  lemma HasElement(ids: set<Int64>)
    requires ids != {}
    ensures exists id :: id in ids
  {
    if forall id :: id !in ids {
      assert false;
    }
  }

  /** `m` is an element of `ids` no greater than any other. */
  predicate IsLeast(m: Int64, ids: set<Int64>) {
    m in ids && forall x :: x in ids ==> m <= x
  }

  lemma {:induction false} LeastExists(ids: set<Int64>)
    requires ids != {}
    ensures exists m :: IsLeast(m, ids)
    decreases |ids|
  {
    HasElement(ids);
    var y :| y in ids;
    var rest := ids - {y};
    if rest == {} {
      assert ids == {y};
      assert IsLeast(y, ids);
    } else {
      LeastExists(rest);
      var m :| IsLeast(m, rest);
      var least := if y < m then y else m;
      forall x | x in ids ensures least <= x {
        if x != y {
          assert x in rest;
        }
      }
      assert IsLeast(least, ids);
    }
  }

  /** The smallest id of a non-empty set. */
  function Least(ids: set<Int64>): (m: Int64)
    requires ids != {}
    ensures m in ids && forall x :: x in ids ==> m <= x
  {
    LeastExists(ids);
    var m :| IsLeast(m, ids); m
  }

  /** `r` lists exactly the ids of `ids`, each once, in ascending order. */
  predicate ListsAscending(r: seq<Int64>, ids: set<Int64>) {
    && |r| == |ids|
    && (forall i :: 0 <= i < |r| ==> r[i] in ids)
    && (forall id :: id in ids ==> id in r)
    && (forall i, j :: 0 <= i < j < |r| ==> r[i] < r[j])
  }

  /** Putting the least id in front of an ascending listing of the others
      lists the whole set in ascending order. */
  lemma LeastInFront(m: Int64, ids: set<Int64>, rest: seq<Int64>)
    requires IsLeast(m, ids) && ListsAscending(rest, ids - {m})
    ensures ListsAscending([m] + rest, ids)
  {
    var r := [m] + rest;
    assert |ids - {m}| == |ids| - 1;
    forall i | 0 <= i < |r| ensures r[i] in ids {
      if i > 0 { assert r[i] == rest[i - 1]; }
    }
    forall id | id in ids ensures id in r {
      if id != m { assert id in ids - {m}; }
    }
    forall i, j | 0 <= i < j < |r| ensures r[i] < r[j] {
      assert r[j] == rest[j - 1] && rest[j - 1] in ids - {m};
      if i > 0 { assert r[i] == rest[i - 1]; }
    }
  }

  /** The ids of a set in ascending order, each exactly once: `ORDER BY id`. */
  function SortedIds(ids: set<Int64>): (r: seq<Int64>)
    ensures |r| == |ids|
    ensures forall i :: 0 <= i < |r| ==> r[i] in ids
    ensures forall id :: id in ids ==> id in r
    ensures forall i, j :: 0 <= i < j < |r| ==> r[i] < r[j]
    decreases |ids|
  {
    if ids == {} then []
    else
      var m := Least(ids);
      var rest := SortedIds(ids - {m});
      LeastInFront(m, ids, rest);
      [m] + rest
  }

  /** An id of `ids` whose row has `email`, if there is one. */
  function FindEmail(t: Table, ids: seq<Int64>, email: string): (r: Option<Int64>)
    requires forall i :: 0 <= i < |ids| ==> ids[i] in t.rows
    ensures r.Some? ==> r.value in t.rows && t.rows[r.value].email == email
    ensures r.None? <==> forall i :: 0 <= i < |ids| ==> t.rows[ids[i]].email != email
  {
    if |ids| == 0 then None
    else if t.rows[ids[0]].email == email then Some(ids[0])
    else
      var r := FindEmail(t, ids[1..], email);
      assert r.None? ==> forall i :: 0 <= i < |ids| ==> t.rows[ids[i]].email != email by {
        if r.None? {
          forall i | 0 < i < |ids| ensures t.rows[ids[i]].email != email {
            assert ids[i] == ids[1..][i - 1];
          }
        }
      }
      r
  }

  /** `Create`: refuse an email that is already present; otherwise hash the
      password and insert name, email and digest under the next id. The id the
      caller put in `u` and its plaintext password are never stored. */
  function Create(t: Table, u: User, hasher: Crypto.Hasher): (s: Step<()>)
    ensures EmailTaken(t, u.email) ==> s == Step(Failure(UserExists), t)
    ensures !EmailTaken(t, u.email) && hasher.hash(u.password).Failure?
      ==> s == Step(Failure(hasher.hash(u.password).error), t)
    ensures s.result.Failure? ==> s.table == t
    ensures s.result.Success? <==> !EmailTaken(t, u.email) && hasher.hash(u.password).Success? && t.nextId <= MaxInt64
    ensures s.result.Success? ==> s.table.nextId == t.nextId + 1
    ensures s.result.Success? ==> s.table.rows == t.rows[t.nextId := Row(u.name, u.email, hasher.hash(u.password).value)]
  {
    if EmailTaken(t, u.email) then Step(Failure(UserExists), t)
    else
      match hasher.hash(u.password)
      case Failure(e) => Step(Failure(e), t)
      case Success(digest) =>
        if t.nextId > MaxInt64 then Step(Failure(SequenceExhausted), t)
        else Step(Success(()), Table(t.rows[t.nextId := Row(u.name, u.email, digest)], t.nextId + 1))
  }

  /** `GetByEmail`: the row with that email, password included, or
      `ErrUserNotFound` when there is none. */
  function GetByEmail(t: Table, email: string): (r: Result<User, Error>)
    ensures r.Failure? <==> !EmailTaken(t, email)
    ensures r.Failure? ==> r.error == UserNotFound
    ensures r.Success? ==> r.value.id in t.rows && r.value == FullUser(r.value.id, t.rows[r.value.id])
    ensures r.Success? ==> r.value.email == email
  {
    var ids := SortedIds(t.rows.Keys);
    match FindEmail(t, ids, email)
    case None => Failure(UserNotFound)
    case Some(id) => Success(FullUser(id, t.rows[id]))
  }

  /** `VerifyPassword`: a missing email propagates not-found, a password that
      does not match the stored digest is "invalid password", and a match
      returns the user with the password blanked. */
  function VerifyPassword(t: Table, hasher: Crypto.Hasher, email: string, password: string): (r: Result<User, Error>)
    ensures !EmailTaken(t, email) ==> r == Failure(UserNotFound)
    ensures EmailTaken(t, email) && r.Failure? ==> r.error == InvalidPassword
    ensures r.Success? ==> r.value.id in t.rows && r.value == ProfileUser(r.value.id, t.rows[r.value.id])
    ensures r.Success? ==> r.value.email == email && hasher.check(password, t.rows[r.value.id].passwordHash)
    ensures r.Success? <==> GetByEmail(t, email).Success? && hasher.check(password, GetByEmail(t, email).value.password)
  {
    match GetByEmail(t, email)
    case Failure(e) => Failure(e)
    case Success(u) =>
      if !hasher.check(password, u.password) then Failure(InvalidPassword)
      else Success(u.(password := ""))
  }

  /** `GetById`: the row's id, name and email (the password is not selected),
      or `ErrUserNotFound`. */
  function GetById(t: Table, id: Int64): (r: Result<User, Error>)
    ensures r.Success? <==> id in t.rows
    ensures r.Failure? ==> r.error == UserNotFound
    ensures r.Success? ==> r.value.id == id && r.value.password == ""
    ensures r.Success? ==> r.value.name == t.rows[id].name && r.value.email == t.rows[id].email
  {
    if id in t.rows then Success(ProfileUser(id, t.rows[id])) else Failure(UserNotFound)
  }

  /** The error pgx's `QueryRow(...).Scan` returns when no row matches: pgx's
      own `ErrNoRows`, a different value from `database/sql`'s `ErrNoRows`. */
  const PgxNoRows: Error := Opaque("no rows in result set")

  /** `GetById` as written: its not-found branch compares the scan error with
      `sql.ErrNoRows`, a value pgx never returns, so a missing id surfaces as
      pgx's own error instead of `ErrUserNotFound`. */
  function GetByIdAsWritten(t: Table, id: Int64): (r: Result<User, Error>)
    ensures id in t.rows ==> r == GetById(t, id)
    ensures id !in t.rows ==> r == Failure(PgxNoRows) && Text(r.error) != Text(UserNotFound)
  {
    if id in t.rows then Success(ProfileUser(id, t.rows[id])) else Failure(PgxNoRows)
  }

  /** The profile of each id of `ids`, in the same order. */
  function Profiles(t: Table, ids: seq<Int64>): (us: seq<User>)
    requires forall i :: 0 <= i < |ids| ==> ids[i] in t.rows
    ensures |us| == |ids|
    ensures forall i :: 0 <= i < |us| ==> us[i] == ProfileUser(ids[i], t.rows[ids[i]])
  {
    if |ids| == 0 then [] else [ProfileUser(ids[0], t.rows[ids[0]])] + Profiles(t, ids[1..])
  }

  /** `GetAll`: every row once, in ascending id order, without passwords. */
  function GetAll(t: Table): (r: Result<seq<User>, Error>)
    ensures r.Success?
    ensures |r.value| == |t.rows|
    ensures forall i, j :: 0 <= i < j < |r.value| ==> r.value[i].id < r.value[j].id
    ensures forall i :: 0 <= i < |r.value| ==> r.value[i].id in t.rows
    ensures forall i :: 0 <= i < |r.value| ==> r.value[i] == ProfileUser(r.value[i].id, t.rows[r.value[i].id])
  {
    var ids := SortedIds(t.rows.Keys);
    var users := Profiles(t, ids);
    assert |users| == |t.rows| by {
      assert |t.rows.Keys| == |t.rows|;
    }
    Success(users)
  }

  /** `Update`: set name and email of the row with `u.id`; no matching row is
      `ErrUserNotFound`, and an email another row holds is the database's
      unique-violation error. The password column is not touched. */
  function Update(t: Table, u: User): (s: Step<()>)
    ensures u.id !in t.rows ==> s == Step(Failure(UserNotFound), t)
    ensures s.result.Failure? ==> s.table == t
    ensures s.result.Success? <==> u.id in t.rows && !EmailTakenByOther(t, u.email, u.id)
    ensures u.id in t.rows && EmailTakenByOther(t, u.email, u.id) ==> s.result == Failure(UniqueViolation)
    ensures s.result.Success? ==> s.table.nextId == t.nextId && s.table.rows.Keys == t.rows.Keys
    ensures s.result.Success? ==> s.table.rows[u.id] == Row(u.name, u.email, t.rows[u.id].passwordHash)
    ensures s.result.Success? ==> forall id :: id in t.rows && id != u.id ==> s.table.rows[id] == t.rows[id]
  {
    if u.id !in t.rows then Step(Failure(UserNotFound), t)
    else if EmailTakenByOther(t, u.email, u.id) then Step(Failure(UniqueViolation), t)
    else Step(Success(()), t.(rows := t.rows[u.id := t.rows[u.id].(name := u.name, email := u.email)]))
  }

  /** `Delete`: remove the row with `id`; no matching row is `ErrUserNotFound`. */
  function Delete(t: Table, id: Int64): (s: Step<()>)
    ensures s.result.Success? <==> id in t.rows
    ensures s.result.Failure? ==> s == Step(Failure(UserNotFound), t)
    ensures s.result.Success? ==> s.table.nextId == t.nextId && s.table.rows.Keys == t.rows.Keys - {id}
    ensures s.result.Success? ==> forall other :: other in s.table.rows ==> s.table.rows[other] == t.rows[other]
  {
    if id !in t.rows then Step(Failure(UserNotFound), t)
    else Step(Success(()), t.(rows := t.rows - {id}))
  }

  /** Every operation that writes keeps the table valid. */
  lemma WritesPreserveValid(t: Table, u: User, id: Int64, hasher: Crypto.Hasher)
    requires Valid(t)
    ensures Valid(Create(t, u, hasher).table)
    ensures Valid(Update(t, u).table)
    ensures Valid(Delete(t, id).table)
  {
  }

  /** A row just created is found again by its email, with the digest of the
      password (not the password) stored, under a fresh id; the rows that were
      there before are untouched. */
  lemma CreateThenGetByEmail(t: Table, u: User, hasher: Crypto.Hasher)
    requires Valid(t)
    requires Create(t, u, hasher).result.Success?
    ensures var t' := Create(t, u, hasher).table;
            && t.nextId !in t.rows
            && |t'.rows| == |t.rows| + 1
            && GetByEmail(t', u.email) == Success(User(t.nextId, u.name, u.email, hasher.hash(u.password).value))
            && (forall id :: id in t.rows ==> id in t'.rows && t'.rows[id] == t.rows[id])
  {
    var t' := Create(t, u, hasher).table;
    WritesPreserveValid(t, u, 0, hasher);
    var r := GetByEmail(t', u.email);
    assert t'.rows[t.nextId].email == u.email;
    assert r.Success?;
    assert r.value.id == t.nextId;
  }

  /** Creating a user whose email is already stored fails with
      `ErrUserExists` and leaves the table as it was. */
  lemma CreateTwice(t: Table, u: User, v: User, hasher: Crypto.Hasher)
    requires Create(t, u, hasher).result.Success?
    requires v.email == u.email
    ensures var t' := Create(t, u, hasher).table;
            Create(t', v, hasher) == Step(Failure(UserExists), t')
  {
    var t' := Create(t, u, hasher).table;
    assert t'.rows[t.nextId].email == v.email;
  }

  /** After a successful update, reading the row by id gives the new name and
      email; after a successful delete, the id is not found. */
  lemma WritesThenGetById(t: Table, u: User, id: Int64)
    ensures Update(t, u).result.Success? ==> GetById(Update(t, u).table, u.id) == Success(User(u.id, u.name, u.email, ""))
    ensures Delete(t, id).result.Success? ==> GetById(Delete(t, id).table, id) == Failure(UserNotFound)
  {
  }

  /** The password a caller puts in the user it passes to `Update` plays no part. */
  lemma UpdateIgnoresPassword(t: Table, u: User, password: string)
    ensures Update(t, u.(password := password)) == Update(t, u)
  {
  }

  /** Neither the blanked user `VerifyPassword` returns nor a profile read by
      id or listed by `GetAll` puts a `password` key into its JSON. */
  lemma NoDigestInJson(t: Table, hasher: Crypto.Hasher, email: string, password: string, id: Int64)
    ensures VerifyPassword(t, hasher, email, password).Success? ==> "password" !in JsonKeys(VerifyPassword(t, hasher, email, password).value)
    ensures GetById(t, id).Success? ==> "password" !in JsonKeys(GetById(t, id).value)
    ensures forall u :: u in GetAll(t).value ==> "password" !in JsonKeys(u)
  {
  }
}
