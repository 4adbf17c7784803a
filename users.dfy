/** The users table that the rest of the system reads: the directory the
    socket server, the auth middleware and the controllers consult, and
    the two writes the core performs on it (`updateRole`, `create`). The
    password column holds an already-hashed string: hashing is outside the
    model. */
module Users {
  import opened Js
  import opened Sql

  datatype UserRow = UserRow(
    id: int,
    username: string,
    password: string,
    isAdmin: int,
    lastSeen: nat,
    createdAt: nat,
    updatedAt: nat)

  /** The object `User.create` resolves: `{ id: this.lastID, username,
      isAdmin, createdAt, updatedAt }`. */
  datatype NewUser = NewUser(id: int, username: string, isAdmin: int, createdAt: nat, updatedAt: nat)

  /** The destructuring default `isAdmin = 0`. */
  function RoleOrDefault(isAdmin: Option<int>): (role: int)
    ensures isAdmin.None? ==> role == 0
    ensures isAdmin.Some? ==> role == isAdmin.value
  {
    if isAdmin.Some? then isAdmin.value else 0
  }

  /** Row ids are positive and strictly increasing (rowid order) and
      below the next id to hand out; usernames are UNIQUE. */
  ghost predicate ValidUsers(rows: seq<UserRow>, nextId: int) {
    1 <= nextId
    && (forall i :: 0 <= i < |rows| ==> 1 <= rows[i].id < nextId)
    && (forall i, j :: 0 <= i < j < |rows| ==> rows[i].id < rows[j].id)
    && (forall i, j :: 0 <= i < j < |rows| ==> rows[i].username != rows[j].username)
  }

  /** `SELECT * FROM users WHERE id = ?` (row, or undefined). */
  function FindById(rows: seq<UserRow>, id: Option<int>): (r: Option<UserRow>)
    ensures r.Some? ==> r.value in rows && id == Some(r.value.id)
    ensures r.None? ==> id.None? || forall u :: u in rows ==> u.id != id.value
  {
    if id.None? || rows == [] then None
    else if rows[0].id == id.value then Some(rows[0])
    else FindById(rows[1..], id)
  }

  /** `SELECT * FROM users WHERE username = ?` */
  function FindByUsername(rows: seq<UserRow>, name: string): (r: Option<UserRow>)
    ensures r.Some? ==> r.value in rows && r.value.username == name
    ensures r.None? ==> forall u :: u in rows ==> u.username != name
  {
    if rows == [] then None
    else if rows[0].username == name then Some(rows[0])
    else FindByUsername(rows[1..], name)
  }

  /** `UPDATE users SET isAdmin = ?, updatedAt = ? WHERE id = ?` with
      `isAdmin ? 1 : 0`. */
  function UpdateRoleRows(rows: seq<UserRow>, id: int, isAdmin: bool, now: nat): (r: seq<UserRow>)
    ensures |r| == |rows|
    ensures forall i :: 0 <= i < |rows| ==>
              r[i] == if rows[i].id == id
                      then rows[i].(isAdmin := if isAdmin then 1 else 0, updatedAt := now)
                      else rows[i]
  {
    if rows == [] then []
    else [if rows[0].id == id then rows[0].(isAdmin := if isAdmin then 1 else 0, updatedAt := now) else rows[0]]
         + UpdateRoleRows(rows[1..], id, isAdmin, now)
  }

  /** The users table as the server process holds it open. */
  class UserTable {
    var rows: seq<UserRow>
    var nextId: int
    /** Whether the database connection is still open. */
    var open: bool

    ghost predicate Valid()
      reads this
    {
      ValidUsers(rows, nextId)
    }

    constructor (initial: seq<UserRow>, next: int)
      requires ValidUsers(initial, next)
      ensures Valid() && rows == initial && nextId == next && open
    {
      rows := initial;
      nextId := next;
      open := true;
    }

    /** `User.updateRole(id, isAdmin)`: the result is `changes > 0`; a
        failed statement rejects and writes nothing. */
    method UpdateRole(id: int, isAdmin: bool, now: nat, fault: Option<DbError>) returns (r: Result<bool>)
      requires Valid()
      modifies this`rows
      ensures Valid()
      ensures fault.Some? ==> r == Failure(fault.value) && rows == old(rows)
      ensures fault.None? ==> rows == UpdateRoleRows(old(rows), id, isAdmin, now)
      ensures fault.None? ==> r == Success(FindById(old(rows), Some(id)).Some?)
    {
      if fault.Some? {
        return Failure(fault.value);
      }
      r := Success(FindById(rows, Some(id)).Some?);
      UpdateRoleKeepsValid(rows, nextId, id, isAdmin, now);
      rows := UpdateRoleRows(rows, id, isAdmin, now);
    }

    /** `User.create`: INSERT with the hashed password and `isAdmin`
        (0 when the caller leaves it out); a taken username violates the
        UNIQUE constraint and inserts nothing, as does a failed statement.
        It resolves to the inserted id, the username, the role and the two
        timestamps, never the password. */
    method Create(username: string, hashedPassword: string, isAdmin: Option<int>, now: nat, fault: Option<DbError>)
      returns (r: Result<NewUser>)
      requires Valid()
      modifies this`rows, this`nextId
      ensures Valid()
      ensures fault.Some? || FindByUsername(old(rows), username).Some? ==>
                r.Failure? && rows == old(rows) && nextId == old(nextId)
      ensures fault.Some? ==> r == Failure(fault.value)
      ensures fault.None? && FindByUsername(old(rows), username).None? ==>
                var role := RoleOrDefault(isAdmin);
                && r == Success(NewUser(old(nextId), username, role, now, now))
                && rows == old(rows) + [UserRow(old(nextId), username, hashedPassword, role, now, now, now)]
                && nextId == old(nextId) + 1
    {
      if fault.Some? {
        return Failure(fault.value);
      }
      if FindByUsername(rows, username).Some? {
        r := Failure(DbError("SQLITE_CONSTRAINT: UNIQUE constraint failed: users.username"));
        return;
      }
      var role := RoleOrDefault(isAdmin);
      rows := rows + [UserRow(nextId, username, hashedPassword, role, now, now, now)];
      r := Success(NewUser(nextId, username, role, now, now));
      nextId := nextId + 1;
    }

    /** `db.close()` */
    method Close()
      modifies this`open
      ensures !open
    {
      open := false;
    }
  }

  lemma {:induction false} UpdateRoleKeepsValid(rows: seq<UserRow>, nextId: int, id: int, isAdmin: bool, now: nat)
    requires ValidUsers(rows, nextId)
    ensures ValidUsers(UpdateRoleRows(rows, id, isAdmin, now), nextId)
  {
  }

  /** After `updateRole(id, b)` the user with that id, if any, has role
      `b ? 1 : 0`; nobody else changes. */
  lemma UpdateRoleFind(rows: seq<UserRow>, nextId: int, id: int, isAdmin: bool, now: nat, other: int)
    requires ValidUsers(rows, nextId)
    ensures var r := UpdateRoleRows(rows, id, isAdmin, now);
            && (FindById(rows, Some(id)).Some? ==>
                  FindById(r, Some(id)) == Some(FindById(rows, Some(id)).value.(isAdmin := if isAdmin then 1 else 0, updatedAt := now)))
            && (FindById(rows, Some(id)).None? ==> FindById(r, Some(id)).None?)
            && (other != id ==> FindById(r, Some(other)) == FindById(rows, Some(other)))
  {
    UpdateRoleFindAt(rows, id, isAdmin, now, id);
    UpdateRoleFindAt(rows, id, isAdmin, now, other);
  }

  lemma {:induction false} UpdateRoleFindAt(rows: seq<UserRow>, id: int, isAdmin: bool, now: nat, x: int)
    ensures var r := UpdateRoleRows(rows, id, isAdmin, now);
            FindById(r, Some(x)) == if x == id && FindById(rows, Some(x)).Some?
                                    then Some(FindById(rows, Some(x)).value.(isAdmin := if isAdmin then 1 else 0, updatedAt := now))
                                    else FindById(rows, Some(x))
  {
    if rows != [] {
      UpdateRoleFindAt(rows[1..], id, isAdmin, now, x);
      assert UpdateRoleRows(rows, id, isAdmin, now)[1..] == UpdateRoleRows(rows[1..], id, isAdmin, now);
    }
  }

  /** In a well-formed table the row found under an id is the row at
      any index with that id. */
  lemma {:induction false} FindByIdAt(rows: seq<UserRow>, nextId: int, i: nat)
    requires ValidUsers(rows, nextId) && i < |rows|
    ensures FindById(rows, Some(rows[i].id)) == Some(rows[i])
  {
    if i > 0 {
      FindByIdAt(rows[1..], nextId, i - 1);
    }
  }

  lemma {:induction false} FindByUsernameIndex(rows: seq<UserRow>, name: string)
    requires FindByUsername(rows, name).Some?
    ensures exists i :: 0 <= i < |rows| && rows[i] == FindByUsername(rows, name).value
  {
    if rows[0].username != name {
      FindByUsernameIndex(rows[1..], name);
      var i :| 0 <= i < |rows[1..]| && rows[1..][i] == FindByUsername(rows, name).value;
      assert rows[i + 1] == rows[1..][i];
    }
  }

  /** In a well-formed table the row found under a username is the row at
      any index with that username. */
  lemma {:induction false} FindByUsernameAt(rows: seq<UserRow>, nextId: int, i: nat)
    requires ValidUsers(rows, nextId) && i < |rows|
    ensures FindByUsername(rows, rows[i].username) == Some(rows[i])
  {
    if i > 0 {
      assert rows[0].username != rows[i].username;
      FindByUsernameAt(rows[1..], nextId, i - 1);
    }
  }

  /** The username of a user id, as an inner JOIN on `users` reads it. */
  function UsernameOf(rows: seq<UserRow>, id: int): (r: Option<string>)
    ensures r.Some? <==> FindById(rows, Some(id)).Some?
    ensures r.Some? ==> r.value == FindById(rows, Some(id)).value.username
  {
    match FindById(rows, Some(id))
    case Some(u) => Some(u.username)
    case None => None
  }
}
