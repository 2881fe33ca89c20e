/** The authentication middleware: `requireAuth` turns a bearer token into `req.user = { id, role }`
    and `requireRole(role)` admits a user whose role is the wanted one or `admin`. Token
    verification is a parameter, and so are the two database lookups by id that infer a role when the
    token carries none. */
module Auth {
  import opened JsValues

  /** What a middleware does with the request: hand it on with `req.user`, or answer with a status. */
  datatype Gate = Next(user: Js) | Reject(status: nat)

  /** `auth.split(" ")[1]`, the empty string standing for both a missing and an empty part. */
  function TokenOf(header: string): (t: string)
    ensures t != "" ==> |Split(header, {' '})| >= 2 && t == Split(header, {' '})[1]
    ensures |Split(header, {' '})| >= 2 ==> t == Split(header, {' '})[1]
  {
    var parts := Split(header, {' '});
    if |parts| >= 2 then parts[1] else ""
  }

  /** `(payload.id || payload._id || payload.userId || payload.sub || "").toString()` */
  function IdOf(payload: Js, f: Formatters): (id: string)
    ensures Truthy(Get(payload, "id")) ==> id == ToStr(Get(payload, "id"), f)
    ensures !Truthy(Get(payload, "id")) && Truthy(Get(payload, "_id")) ==> id == ToStr(Get(payload, "_id"), f)
    ensures !Truthy(Get(payload, "id")) && !Truthy(Get(payload, "_id")) && Truthy(Get(payload, "userId")) ==>
      id == ToStr(Get(payload, "userId"), f)
    ensures !Truthy(Get(payload, "id")) && !Truthy(Get(payload, "_id")) && !Truthy(Get(payload, "userId")) ==>
      id == (if Truthy(Get(payload, "sub")) then ToStr(Get(payload, "sub"), f) else "")
  {
    ToStr(Or(Get(payload, "id"), Or(Get(payload, "_id"), Or(Get(payload, "userId"), Or(Get(payload, "sub"), Str(""))))), f)
  }

  /** `(payload.role || payload.userRole || payload.type || "").toString().toLowerCase()`, where
      an empty role becomes `undefined`. */
  function RoleOf(payload: Js, f: Formatters): (role: Js)
    ensures role == Undef || (role.Str? && role.s != "" && ToLower(role.s) == role.s)
    ensures Truthy(Get(payload, "role")) ==> role == LowerOrUndef(ToStr(Get(payload, "role"), f))
    ensures !Truthy(Get(payload, "role")) && Truthy(Get(payload, "userRole")) ==>
      role == LowerOrUndef(ToStr(Get(payload, "userRole"), f))
    ensures !Truthy(Get(payload, "role")) && !Truthy(Get(payload, "userRole")) ==>
      role == (if Truthy(Get(payload, "type")) then LowerOrUndef(ToStr(Get(payload, "type"), f)) else Undef)
  {
    LowerOrUndef(ToStr(Or(Get(payload, "role"), Or(Get(payload, "userRole"), Or(Get(payload, "type"), Str("")))), f))
  }

  function LowerOrUndef(s: string): (r: Js)
    ensures r == Undef || (r.Str? && r.s != "" && ToLower(r.s) == r.s)
  {
    var l := ToLower(s);
    ToLowerIdempotent(s);
    if l == "" then Undef else Str(l)
  }

  /** The answer of a `findById` lookup: a document, none, or a thrown error. */
  datatype DbAnswer = Found | Missing | Failed

  /** The role inferred for a token without one: `doctor` when the id names a doctor, else
      `patient` when it names a user, else (none found, or a lookup failed) `undefined`. */
  function InferRole(id: string, doctors: string -> DbAnswer, users: string -> DbAnswer): (role: Js)
    ensures role in {Undef, Str("doctor"), Str("patient")}
    ensures role == Str("doctor") <==> doctors(id) == Found
    ensures role == Str("patient") <==> doctors(id) == Missing && users(id) == Found
  {
    match doctors(id)
    case Found => Str("doctor")
    case Failed => Undef
    case Missing => if users(id) == Found then Str("patient") else Undef
  }

  /** The role `requireAuth` stores: the token's, else the inferred one. */
  function SessionRole(p: Js, f: Formatters, doctors: string -> DbAnswer, users: string -> DbAnswer): (role: Js)
    ensures role == Undef || (role.Str? && role.s != "" && ToLower(role.s) == role.s)
    ensures RoleOf(p, f).Str? ==> role == RoleOf(p, f)
    ensures RoleOf(p, f) == Undef ==> role == InferRole(IdOf(p, f), doctors, users)
  {
    var role := RoleOf(p, f);
    if role.Str? then role else InferRole(IdOf(p, f), doctors, users)
  }

  /** `requireAuth`. `user` is `req.user` as it arrives, `authorization` the header (None when
      absent), `verify` stands for `jwt.verify` (None when verification throws), and `doctors` and
      `users` for the `findById` lookups of the two collections. */
  function RequireAuth(user: Js, authorization: Option<string>, verify: string -> Option<Js>,
                       doctors: string -> DbAnswer, users: string -> DbAnswer, f: Formatters): (g: Gate)
    ensures Truthy(user) ==> g == Next(user)
    ensures !Truthy(user) && (authorization == None || authorization == Some("")) ==> g == Reject(401)
    ensures !Truthy(user) && authorization.Some? && TokenOf(authorization.value) == "" ==> g == Reject(401)
    ensures (!Truthy(user) && authorization.Some? && TokenOf(authorization.value) != "" &&
      verify(TokenOf(authorization.value)) == None) ==> g == Reject(401)
    ensures g.Next? && !Truthy(user) ==>
      var p := verify(TokenOf(authorization.value)).value;
      g.user == Obj([Field("id", Str(IdOf(p, f))), Field("role", SessionRole(p, f, doctors, users))])
    ensures g.Next? || g == Reject(401)
  {
    if Truthy(user) then Next(user)
    else if authorization == None || authorization.value == "" then Reject(401)
    else
      var token := TokenOf(authorization.value);
      if token == "" then Reject(401)
      else match verify(token)
        case None => Reject(401)
        case Some(p) =>
          // reading a property of null or undefined throws, and the handler answers 401
          if p == Null || p == Undef then Reject(401)
          else Next(Obj([Field("id", Str(IdOf(p, f))), Field("role", SessionRole(p, f, doctors, users))]))
  }

  /** `(req.user.role || "").toString().toLowerCase()` */
  function UserRole(user: Js, f: Formatters): string {
    ToLower(ToStr(Or(Get(user, "role"), Str("")), f))
  }

  /** `requireRole(role)` applied to a request carrying `user`. */
  function RequireRole(wanted: string, user: Js, f: Formatters): (g: Gate)
    ensures !Truthy(user) <==> g == Reject(401)
    ensures g.Next? <==> Truthy(user) && (UserRole(user, f) == ToLower(wanted) || UserRole(user, f) == "admin")
    ensures g.Next? ==> g.user == user
    ensures g.Next? || g == Reject(401) || g == Reject(403)
  {
    if !Truthy(user) then Reject(401)
    else
      var r := UserRole(user, f);
      if r == ToLower(wanted) || r == "admin" then Next(user) else Reject(403)
  }

  /** `requireAuth` followed by `requireRole(wanted)` on a request with no user yet admits a valid
      token exactly when the role it carries, lower-cased, is the wanted role (lower-cased) or
      "admin"; a token without a role is judged by the inferred role (`doctor` or `patient`), and
      when none is inferred it passes only `requireRole("")`. */
  lemma AuthThenRole(authorization: string, verify: string -> Option<Js>,
                     doctors: string -> DbAnswer, users: string -> DbAnswer, f: Formatters, wanted: string)
    requires RequireAuth(Undef, Some(authorization), verify, doctors, users, f).Next?
    ensures var u := RequireAuth(Undef, Some(authorization), verify, doctors, users, f).user;
      var p := verify(TokenOf(authorization)).value;
      var role := if RoleOf(p, f).Str? then RoleOf(p, f) else InferRole(IdOf(p, f), doctors, users);
      RequireRole(wanted, u, f).Next? <==>
        if role.Str? then role.s == ToLower(wanted) || role.s == "admin"
        else wanted == ""
  {
    var p := verify(TokenOf(authorization)).value;
    var role := SessionRole(p, f, doctors, users);
    assert RequireAuth(Undef, Some(authorization), verify, doctors, users, f).user ==
      Obj([Field("id", Str(IdOf(p, f))), Field("role", role)]);
    StoredRole(IdOf(p, f), role, f);
    if role.Undef? {
      assert ToLower(wanted) == "" <==> wanted == "";
    }
  }

  /** The role `requireRole` reads back from the user `requireAuth` stores. */
  lemma StoredRole(id: string, role: Js, f: Formatters)
    requires role == Undef || (role.Str? && ToLower(role.s) == role.s)
    ensures UserRole(Obj([Field("id", Str(id)), Field("role", role)]), f) == if role.Str? then role.s else ""
  {
    var fs := [Field("id", Str(id)), Field("role", role)];
    assert fs[0].key != "role" && fs[1..] == [Field("role", role)];
    assert Lookup(fs[1..], "role") == role;
  }

  /** A token without a role whose id names a doctor passes `requireRole("doctor")` and not
      `requireRole("patient")`. */
  lemma RolelessDoctor(authorization: string, verify: string -> Option<Js>,
                       doctors: string -> DbAnswer, users: string -> DbAnswer, f: Formatters)
    requires RequireAuth(Undef, Some(authorization), verify, doctors, users, f).Next?
    requires var p := verify(TokenOf(authorization)).value; RoleOf(p, f) == Undef && doctors(IdOf(p, f)) == Found
    ensures var u := RequireAuth(Undef, Some(authorization), verify, doctors, users, f).user;
      RequireRole("doctor", u, f).Next? && !RequireRole("patient", u, f).Next?
  {
    AuthThenRole(authorization, verify, doctors, users, f, "doctor");
    AuthThenRole(authorization, verify, doctors, users, f, "patient");
  }
}
