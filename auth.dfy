/** The two Express gates: `protect` reads a bearer token, verifies it and
    attaches the user; `admin` lets through only an admin user. Token
    verification is a parameter: `verify` maps every token that verifies
    to the `id` claim it carries, and a token outside it throws. */
module Auth {
  import opened Js
  import opened Sql
  import Users
  import opened Http

  /** What a gate does: call `next()` with the request user, or answer. */
  datatype Gate = Next(user: ReqUser) | Deny(status: int, message: string)

  const UnauthorizedNote := "Unauthorized access"
  const UserNotFoundNote := "User not found"
  const AdminRequiredNote := "Admin access required"

  predicate StartsWith(s: string, prefix: string) {
    |prefix| <= |s| && s[..|prefix|] == prefix
  }

  /** The token `protect` takes from the header: only a header starting
      with `Bearer`, and then the second space-separated field. */
  function BearerToken(header: Option<string>): (t: Option<string>)
    ensures t.Some? ==> header.Some? && StartsWith(header.value, "Bearer")
    ensures t.Some? ==> |SplitSpace(header.value)| >= 2 && t.value == SplitSpace(header.value)[1]
    ensures header.Some? && StartsWith(header.value, "Bearer") && |SplitSpace(header.value)| >= 2 ==> t.Some?
  {
    match header
    case None => None
    case Some(h) =>
      if StartsWith(h, "Bearer") && |SplitSpace(h)| >= 2 then Some(SplitSpace(h)[1]) else None
  }

  function ReqUserOf(u: Users.UserRow): (r: ReqUser)
    ensures r.id == u.id && r.username == u.username && r.isAdmin == (u.isAdmin == 1)
  {
    ReqUser(u.id, u.username, u.password, u.isAdmin == 1, u.lastSeen, u.createdAt, u.updatedAt)
  }

  /** `protect`: 401 without a token (an empty field counts as none) or
      when verification or the lookup throws, 404 when the verified id
      names no user, otherwise `next()` with the user. */
  function Protect(header: Option<string>, verify: map<string, JsVal>, users: seq<Users.UserRow>, fault: Option<DbError>): (g: Gate)
    ensures g.Next? <==> BearerToken(header).Some? && BearerToken(header).value != ""
                         && BearerToken(header).value in verify && fault.None?
                         && Users.FindById(users, RowKey(verify[BearerToken(header).value])).Some?
    ensures g.Next? ==> g.user == ReqUserOf(Users.FindById(users, RowKey(verify[BearerToken(header).value])).value)
    ensures g.Deny? ==> g.status == 401 || g.status == 404
    ensures (g.Deny? && g.status == 404) <==>
              (BearerToken(header).Some? && BearerToken(header).value != ""
               && BearerToken(header).value in verify && fault.None?
               && Users.FindById(users, RowKey(verify[BearerToken(header).value])).None?)
  {
    var token := BearerToken(header);
    if token.None? || token.value == "" then Deny(401, UnauthorizedNote)
    else if token.value !in verify then Deny(401, UnauthorizedNote)
    else if fault.Some? then Deny(401, UnauthorizedNote)
    else match Users.FindById(users, RowKey(verify[token.value]))
      case None => Deny(404, UserNotFoundNote)
      case Some(u) => Next(ReqUserOf(u))
  }

  /** `admin`: `next()` iff `req.user` exists with a truthy `isAdmin`. */
  function Admin(user: Option<ReqUser>): (g: Gate)
    ensures g.Next? <==> user.Some? && user.value.isAdmin
    ensures g.Next? ==> g.user == user.value
    ensures g.Deny? ==> g == Deny(403, AdminRequiredNote)
  {
    if user.Some? && user.value.isAdmin then Next(user.value) else Deny(403, AdminRequiredNote)
  }

  /** `protect, admin` in front of a handler. */
  function AdminRoute(header: Option<string>, verify: map<string, JsVal>, users: seq<Users.UserRow>, fault: Option<DbError>): (g: Gate)
    ensures g.Next? <==> Protect(header, verify, users, fault).Next? && Protect(header, verify, users, fault).user.isAdmin
    ensures g.Next? ==> g.user == Protect(header, verify, users, fault).user
    ensures Protect(header, verify, users, fault).Deny? ==> g == Protect(header, verify, users, fault)
    ensures Protect(header, verify, users, fault).Next? && g.Deny? ==> g == Deny(403, AdminRequiredNote)
  {
    match Protect(header, verify, users, fault)
    case Deny(s, m) => Deny(s, m)
    case Next(u) => Admin(Some(u))
  }

  /** An admin route reaches its handler exactly when the token verifies
      to a stored user whose `isAdmin` column is 1. */
  lemma AdminRouteGate(header: Option<string>, verify: map<string, JsVal>, users: seq<Users.UserRow>, fault: Option<DbError>)
    ensures var g := AdminRoute(header, verify, users, fault);
            g.Next? <==> Protect(header, verify, users, fault).Next?
                         && Users.FindById(users, RowKey(verify[BearerToken(header).value])).value.isAdmin == 1
  {
  }

  /** A header of another scheme, or `Bearer` with nothing after it, is
      refused with 401. */
  lemma MalformedHeaders(verify: map<string, JsVal>, users: seq<Users.UserRow>, fault: Option<DbError>)
    ensures Protect(None, verify, users, fault) == Deny(401, UnauthorizedNote)
    ensures Protect(Some("Basic abc"), verify, users, fault) == Deny(401, UnauthorizedNote)
    ensures Protect(Some("Bearer"), verify, users, fault) == Deny(401, UnauthorizedNote)
  {
    assert !StartsWith("Basic abc", "Bearer") by {
      assert "Basic abc"[..6][1] != "Bearer"[1];
    }
    SplitNoSpace("Bearer");
  }

  /** The token is the second field of `Bearer <token>`. */
  lemma BearerTokenExample()
    ensures BearerToken(Some("Bearer t")) == Some("t")
  {
    SplitFirstSpace("Bearer", "t");
    SplitNoSpace("t");
    assert "Bearer t" == "Bearer" + " " + "t";
    assert "Bearer t"[..6] == "Bearer";
  }
}
