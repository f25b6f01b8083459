/** The request and response records of the service, and the field constraints
    the request validator enforces on them. */
module Models {
  import opened GoTypes

  /** A user as stored. `password` holds the bcrypt digest; it is "" when a
      query did not select that column or the password has been blanked. */
  datatype User = User(id: Int64, name: string, email: string, password: string)

  /** The public view of a user. It has no password field at all. */
  datatype UserResponse = UserResponse(id: Int64, name: string, email: string)

  datatype LoginRequest = LoginRequest(email: string, password: string)

  datatype RegisterRequest = RegisterRequest(name: string, email: string, password: string)

  /** An update names only the profile fields: it has no way to carry a password. */
  datatype UpdateUserRequest = UpdateUserRequest(name: string, email: string)

  /** The projection the service applies to every user it returns. */
  function ToResponse(u: User): UserResponse {
    UserResponse(u.id, u.name, u.email)
  }

  /** The public view keeps the identity and profile and forgets the password:
      two users that differ only in their password look the same. */
  lemma ResponseForgetsPassword(u: User, password: string)
    ensures ToResponse(u.(password := password)) == ToResponse(u)
    ensures ToResponse(u).id == u.id && ToResponse(u).name == u.name && ToResponse(u).email == u.email
  {
  }

  /** The keys of a `User` encoded as JSON: `password` is tagged `omitempty`. */
  function JsonKeys(u: User): (keys: seq<string>)
    ensures "id" in keys && "name" in keys && "email" in keys
    ensures "password" in keys <==> u.password != ""
  {
    ["id", "name", "email"] + (if u.password == "" then [] else ["password"])
  }

  /** A validator tag: `required`, `email`, `min=n`. */
  datatype Rule = Required | Email | Min(n: nat)

  /** A failed tag on a named struct field. */
  datatype Violation = Violation(field: string, rule: Rule)

  /** Whether `value` passes `rule`. `isEmail` is the validator's email-format
      check, left abstract. For strings `required` means non-empty and `min`
      counts characters. */
  predicate Satisfies(value: string, rule: Rule, isEmail: string -> bool) {
    match rule
    case Required => value != ""
    case Email => isEmail(value)
    case Min(n) => |value| >= n
  }

  /** `rules[k]` is the first of `rules` that `value` fails. */
  predicate FirstFailing(value: string, rules: seq<Rule>, k: nat, isEmail: string -> bool)
    requires k < |rules|
  {
    && !Satisfies(value, rules[k], isEmail)
    && forall j :: 0 <= j < k ==> Satisfies(value, rules[j], isEmail)
  }

  /** The validator checks a field's tags in order and stops at the first one
      that fails, so a field reports at most one violation: that first failure. */
  function CheckField(field: string, value: string, rules: seq<Rule>, isEmail: string -> bool): (v: seq<Violation>)
    ensures |v| <= 1
    ensures v == [] <==> forall i :: 0 <= i < |rules| ==> Satisfies(value, rules[i], isEmail)
    ensures v != [] ==> v[0].field == field
    ensures v != [] ==> exists k: nat :: k < |rules| && rules[k] == v[0].rule && FirstFailing(value, rules, k, isEmail)
  {
    if |rules| == 0 then []
    else if !Satisfies(value, rules[0], isEmail) then [Violation(field, rules[0])]
    else
      var rest := CheckField(field, value, rules[1..], isEmail);
      assert rest != [] ==> exists k: nat :: k < |rules| && rules[k] == rest[0].rule && FirstFailing(value, rules, k, isEmail) by {
        if rest != [] {
          var k: nat :| k < |rules| - 1 && rules[1..][k] == rest[0].rule
            && FirstFailing(value, rules[1..], k, isEmail);
          assert forall j :: 1 <= j < k + 1 ==> rules[j] == rules[1..][j - 1];
          assert FirstFailing(value, rules, k + 1, isEmail);
        }
      }
      rest
  }

  /** A field with two tags passes exactly when it passes both. */
  lemma CheckTwo(field: string, value: string, a: Rule, b: Rule, isEmail: string -> bool)
    ensures CheckField(field, value, [a, b], isEmail) == []
        <==> Satisfies(value, a, isEmail) && Satisfies(value, b, isEmail)
  {
  }

  /** `RegisterRequest`: name `required,min=2`; email `required,email`;
      password `required,min=6`. */
  function RegisterViolations(req: RegisterRequest, isEmail: string -> bool): (v: seq<Violation>)
    ensures v == [] <==> |req.name| >= 2 && req.email != "" && isEmail(req.email) && |req.password| >= 6
    ensures |v| <= 3
  {
    CheckTwo("Name", req.name, Required, Min(2), isEmail);
    CheckTwo("Email", req.email, Required, Email, isEmail);
    CheckTwo("Password", req.password, Required, Min(6), isEmail);
    CheckField("Name", req.name, [Required, Min(2)], isEmail)
    + CheckField("Email", req.email, [Required, Email], isEmail)
    + CheckField("Password", req.password, [Required, Min(6)], isEmail)
  }

  /** `LoginRequest`: email `required,email`; password `required,min=6`. */
  function LoginViolations(req: LoginRequest, isEmail: string -> bool): (v: seq<Violation>)
    ensures v == [] <==> req.email != "" && isEmail(req.email) && |req.password| >= 6
    ensures |v| <= 2
  {
    CheckTwo("Email", req.email, Required, Email, isEmail);
    CheckTwo("Password", req.password, Required, Min(6), isEmail);
    CheckField("Email", req.email, [Required, Email], isEmail)
    + CheckField("Password", req.password, [Required, Min(6)], isEmail)
  }

  /** `UpdateUserRequest`: name `required,min=2`; email `required,email`. */
  function UpdateViolations(req: UpdateUserRequest, isEmail: string -> bool): (v: seq<Violation>)
    ensures v == [] <==> |req.name| >= 2 && req.email != "" && isEmail(req.email)
    ensures |v| <= 2
  {
    CheckTwo("Name", req.name, Required, Min(2), isEmail);
    CheckTwo("Email", req.email, Required, Email, isEmail);
    CheckField("Name", req.name, [Required, Min(2)], isEmail)
    + CheckField("Email", req.email, [Required, Email], isEmail)
  }
}
