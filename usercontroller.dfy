/** The REST handlers for users. Listings never carry the password
    column and report `isAdmin` as `isAdmin === 1`. `updateUser` works
    step by step and may change the role before it refuses a password
    change; deleting a user is not supported. */
module UserController {
  import opened Js
  import opened Sql
  import opened Seqs
  import Users
  import opened Http

  const UserNotFoundNote := "User not found"
  const UsernameChangeNote := "Username change is not currently supported"
  const PasswordChangeNote := "Password change is not currently supported"
  const DeletionNote := "User deletion is not currently supported"

  /** `User.getAll()` (no password column, table order) mapped with
      `isAdmin === 1`. */
  function ViewsOf(rows: seq<Users.UserRow>): (r: seq<UserView>)
    ensures |r| == |rows|
    ensures forall i :: 0 <= i < |rows| ==> r[i] == ViewOf(rows[i])
  {
    if rows == [] then [] else [ViewOf(rows[0])] + ViewsOf(rows[1..])
  }

  /** `GET /api/users` */
  function GetUsers(rows: seq<Users.UserRow>, fault: Option<DbError>): (resp: Response)
    ensures fault.Some? ==> resp == Fail500(fault.value.message)
    ensures fault.None? ==>
              && resp.status == 200 && resp.success && resp.body.UserList?
              && resp.body.userCount == |resp.body.users| == |rows|
  {
    if fault.Some? then Fail500(fault.value.message)
    else Response(200, true, UserList(|rows|, ViewsOf(rows)))
  }

  /** Every user is listed once, in table order, with `count` the number of
      users and `isAdmin` true exactly for the column value 1. */
  lemma GetUsersListing(rows: seq<Users.UserRow>)
    ensures var b := GetUsers(rows, None).body;
            && b.UserList? && b.userCount == |b.users| == |rows|
            && forall i :: 0 <= i < |rows| ==>
                 b.users[i].id == rows[i].id && b.users[i].username == rows[i].username
                 && (b.users[i].isAdmin <==> rows[i].isAdmin == 1)
  {
  }

  /** `GET /api/users/:id` */
  function GetUserById(rows: seq<Users.UserRow>, id: string, fault: Option<DbError>): (resp: Response)
    ensures fault.None? && Users.FindById(rows, RowKey(Str(id))).Some? ==>
              resp.status == 200 && resp.body.OneUser?
              && resp.body.user.id == Users.FindById(rows, RowKey(Str(id))).value.id
    ensures fault.None? && Users.FindById(rows, RowKey(Str(id))).None? ==>
              resp == Response(404, false, Note(UserNotFoundNote))
  {
    if fault.Some? then Fail500(fault.value.message)
    else match Users.FindById(rows, RowKey(Str(id)))
      case None => Response(404, false, Note(UserNotFoundNote))
      case Some(u) => Response(200, true, OneUser(ViewOf(u)))
  }

  /** The path id `String(n)` of a stored user finds exactly that user. */
  lemma GetUserByDecimalId(rows: seq<Users.UserRow>, nextId: int, i: nat)
    requires Users.ValidUsers(rows, nextId) && i < |rows|
    ensures GetUserById(rows, DecimalString(rows[i].id), None) == Response(200, true, OneUser(ViewOf(rows[i])))
  {
    RowKeyDecimal(rows[i].id);
    Users.FindByIdAt(rows, nextId, i);
  }

  /** `PUT /api/users/:id`. A missing user answers 404 and a different,
      truthy username 400, both before any write; a defined `isAdmin` then
      sets the role; only after that does a truthy password answer 400, so
      the role change stays. Otherwise the user is read back and answered
      without its password. Each of the three awaited calls (the lookup,
      `updateRole`, the read-back) may reject, which answers 500 with the
      error's message; a rejected read-back comes after the role change. */
  method UpdateUser(table: Users.UserTable, id: string, username: JsVal, password: JsVal, isAdmin: JsVal, now: nat,
                    lookupFault: Option<DbError>, updateFault: Option<DbError>, readFault: Option<DbError>)
    returns (resp: Response)
    requires table.Valid()
    modifies table`rows
    ensures table.Valid()
    ensures lookupFault.Some? ==>
              resp == Fail500(lookupFault.value.message) && table.rows == old(table.rows)
    ensures lookupFault.None? && Users.FindById(old(table.rows), RowKey(Str(id))).None? ==>
              resp == Response(404, false, Note(UserNotFoundNote)) && table.rows == old(table.rows)
    ensures lookupFault.None? && Users.FindById(old(table.rows), RowKey(Str(id))).Some? ==>
              var u := Users.FindById(old(table.rows), RowKey(Str(id))).value;
              if Truthy(username) && !StrictEq(username, Str(u.username)) then
                resp == Response(400, false, Note(UsernameChangeNote)) && table.rows == old(table.rows)
              else if isAdmin != Undefined && updateFault.Some? then
                resp == Fail500(updateFault.value.message) && table.rows == old(table.rows)
              else
                && table.rows == (if isAdmin != Undefined then Users.UpdateRoleRows(old(table.rows), u.id, Truthy(isAdmin), now)
                                  else old(table.rows))
                && resp == if Truthy(password) then Response(400, false, Note(PasswordChangeNote))
                           else if readFault.Some? then Fail500(readFault.value.message)
                           else Response(200, true, OneUser(ViewOf(Users.FindById(table.rows, Some(u.id)).value)))
  {
    if lookupFault.Some? {
      return Fail500(lookupFault.value.message);
    }
    var found := Users.FindById(table.rows, RowKey(Str(id)));
    if found.None? {
      return Response(404, false, Note(UserNotFoundNote));
    }
    var user := found.value;
    if Truthy(username) && !StrictEq(username, Str(user.username)) {
      return Response(400, false, Note(UsernameChangeNote));
    }
    if isAdmin != Undefined {
      Users.UpdateRoleFind(table.rows, table.nextId, user.id, Truthy(isAdmin), now, user.id);
      var r := table.UpdateRole(user.id, Truthy(isAdmin), now, updateFault);
      if r.Failure? {
        return Fail500(r.error.message);
      }
    }
    if Truthy(password) {
      return Response(400, false, Note(PasswordChangeNote));
    }
    if readFault.Some? {
      return Fail500(readFault.value.message);
    }
    var updatedUser := Users.FindById(table.rows, Some(user.id)).value;
    resp := Response(200, true, OneUser(ViewOf(updatedUser)));
  }

  /** What `updateUser` leaves: the role is `isAdmin ? 1 : 0` whenever
      `isAdmin` is given and the username passes, whatever the password;
      the answer's `isAdmin` is that role. */
  lemma UpdateUserRole(rows: seq<Users.UserRow>, nextId: int, u: Users.UserRow, isAdmin: JsVal, now: nat)
    requires Users.ValidUsers(rows, nextId) && u in rows && isAdmin != Undefined
    ensures var after := Users.UpdateRoleRows(rows, u.id, Truthy(isAdmin), now);
            && Users.FindById(after, Some(u.id)).Some?
            && Users.FindById(after, Some(u.id)).value.isAdmin == (if Truthy(isAdmin) then 1 else 0)
            && (ViewOf(Users.FindById(after, Some(u.id)).value).isAdmin <==> Truthy(isAdmin))
            && Users.ValidUsers(after, nextId)
  {
    var i :| 0 <= i < |rows| && rows[i] == u;
    Users.FindByIdAt(rows, nextId, i);
    Users.UpdateRoleFind(rows, nextId, u.id, Truthy(isAdmin), now, u.id);
    Users.UpdateRoleKeepsValid(rows, nextId, u.id, Truthy(isAdmin), now);
  }

  /** `DELETE /api/users/:id`: always refused; no table is touched. */
  function DeleteUser(): (resp: Response)
    ensures resp.status == 400 && !resp.success
  {
    Response(400, false, Note(DeletionNote))
  }

  /** The `searchUsers` filter. */
  predicate Matches(callerId: int, query: string, u: Users.UserRow) {
    u.id != callerId && Includes(ToLower(u.username), ToLower(query))
  }

  function SummaryOf(u: Users.UserRow): UserSummary {
    UserSummary(u.id, u.username, u.isAdmin == 1, u.lastSeen)
  }

  function SummariesOf(rows: seq<Users.UserRow>): (r: seq<UserSummary>)
    ensures |r| == |rows|
    ensures forall i :: 0 <= i < |rows| ==> r[i] == SummaryOf(rows[i])
  {
    if rows == [] then [] else [SummaryOf(rows[0])] + SummariesOf(rows[1..])
  }

  /** `GET /api/users/search/:username` */
  function SearchUsers(rows: seq<Users.UserRow>, caller: ReqUser, query: string, fault: Option<DbError>): (resp: Response)
    ensures fault.Some? ==> resp == Fail500(fault.value.message)
    ensures fault.None? ==>
              && resp.status == 200 && resp.success && resp.body.SearchResult?
              && resp.body.resultCount == |resp.body.results| <= |rows|
  {
    if fault.Some? then Fail500(fault.value.message)
    else
      var found := Filter(rows, u => Matches(caller.id, query, u));
      Response(200, true, SearchResult(|found|, SummariesOf(found)))
  }

  /** A user is in the result exactly when it is not the caller and its
      lower-cased name contains the lower-cased query; results keep table
      order and `count` is their number. */
  lemma SearchUsersExact(rows: seq<Users.UserRow>, nextId: int, caller: ReqUser, query: string)
    requires Users.ValidUsers(rows, nextId)
    ensures var b := SearchUsers(rows, caller, query, None).body;
            && b.SearchResult? && b.resultCount == |b.results| == Count(rows, u => Matches(caller.id, query, u))
            && (forall u :: u in rows ==> (SummaryOf(u) in b.results <==> Matches(caller.id, query, u)))
            && (forall r :: r in b.results ==> r.id != caller.id)
            && (forall i, j :: 0 <= i < j < |b.results| ==> b.results[i].id < b.results[j].id)
  {
    var p := (u: Users.UserRow) => Matches(caller.id, query, u);
    var found := Filter(rows, p);
    var b := SearchUsers(rows, caller, query, None).body;
    assert b == SearchResult(|found|, SummariesOf(found));
    FilterLength(rows, p);
    FilterIsSubsequence(rows, p);
    FilterSorted(rows, p);
    assert IdsIncreasing(found);
    forall u | u in rows ensures SummaryOf(u) in b.results <==> p(u) {
      SummaryMember(rows, nextId, p, u);
    }
    forall r | r in b.results ensures r.id != caller.id {
      var k :| 0 <= k < |found| && b.results[k] == r;
      assert found[k] in found;
    }
  }

  /** A user's summary is among the summaries of the filtered users
      exactly when the user passes the filter. */
  lemma SummaryMember(rows: seq<Users.UserRow>, nextId: int, p: Users.UserRow -> bool, u: Users.UserRow)
    requires Users.ValidUsers(rows, nextId) && u in rows
    ensures SummaryOf(u) in SummariesOf(Filter(rows, p)) <==> p(u)
  {
    var found := Filter(rows, p);
    var results := SummariesOf(found);
    if SummaryOf(u) in results {
      var k :| 0 <= k < |found| && SummaryOf(found[k]) == SummaryOf(u);
      assert found[k] in found;
      assert found[k] in rows;
    }
    if p(u) {
      assert u in found;
      var k :| 0 <= k < |found| && found[k] == u;
      assert results[k] == SummaryOf(u);
    }
  }

  predicate IdsIncreasing(us: seq<Users.UserRow>) {
    forall i, j :: 0 <= i < j < |us| ==> us[i].id < us[j].id
  }

  lemma {:induction false} FilterSorted(rows: seq<Users.UserRow>, p: Users.UserRow -> bool)
    requires IdsIncreasing(rows)
    ensures IdsIncreasing(Filter(rows, p))
  {
    if rows != [] {
      var tail := rows[1..];
      assert IdsIncreasing(tail) by {
        forall i, j | 0 <= i < j < |tail| ensures tail[i].id < tail[j].id {
          assert tail[i] == rows[i + 1] && tail[j] == rows[j + 1];
        }
      }
      FilterSorted(tail, p);
      var rest := Filter(tail, p);
      if p(rows[0]) {
        var f := Filter(rows, p);
        assert f == [rows[0]] + rest;
        forall i, j | 0 <= i < j < |f| ensures f[i].id < f[j].id {
          assert f[j] == rest[j - 1];
          if i > 0 {
            assert f[i] == rest[i - 1];
          } else {
            assert rest[j - 1] in tail;
            var k :| 0 <= k < |tail| && tail[k] == rest[j - 1];
            assert rows[k + 1] == rest[j - 1];
          }
        }
      }
    }
  }
}
