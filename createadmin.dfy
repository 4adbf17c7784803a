/** The `create-admin.js` script: with a username and a password on the
    command line it promotes an existing user to admin, leaves an existing
    admin alone, or creates a new admin, and closes the database whatever
    happens. The password arrives already hashed. */
module CreateAdmin {
  import opened Js
  import opened Sql
  import Users

  /** What the script does with its arguments. */
  datatype Invocation = Usage | Run(username: string, password: string)

  /** `args[0]` and `args[1]`; a missing or empty one prints the usage and
      exits with status 1. */
  function ParseArgs(args: seq<string>): (r: Invocation)
    ensures r.Usage? <==> |args| < 2 || args[0] == "" || args[1] == ""
    ensures r.Run? ==> r.username == args[0] && r.password == args[1]
  {
    if |args| < 2 || args[0] == "" || args[1] == "" then Usage else Run(args[0], args[1])
  }

  /** The exit status of a usage error. */
  const UsageExit := 1

  datatype Outcome = Promoted | AlreadyAdmin | Created | Failed(error: DbError)

  /** The table `createAdminUser` leaves and what it reports. */
  datatype AdminStep = AdminStep(rows: seq<Users.UserRow>, nextId: int, outcome: Outcome)

  /** Promote-or-create: an existing user whose `isAdmin` is not 1 gets
      `updateRole(id, true)` (its password stays); an existing admin is
      untouched; otherwise a new user with `isAdmin` 1 is inserted. */
  function AdminRows(rows: seq<Users.UserRow>, nextId: int, username: string, hashed: string, now: nat): (s: AdminStep)
    ensures !s.outcome.Failed?
    ensures s.outcome == Created <==> Users.FindByUsername(rows, username).None?
    ensures s.outcome == AlreadyAdmin <==>
              Users.FindByUsername(rows, username).Some? && Users.FindByUsername(rows, username).value.isAdmin == 1
    ensures s.outcome != Created ==> s.nextId == nextId && |s.rows| == |rows|
    ensures s.outcome == Created ==> s.nextId == nextId + 1 && |s.rows| == |rows| + 1 && s.rows[..|rows|] == rows
    ensures s.outcome == AlreadyAdmin ==> s.rows == rows
  {
    match Users.FindByUsername(rows, username)
    case Some(u) =>
      if u.isAdmin != 1 then AdminStep(Users.UpdateRoleRows(rows, u.id, true, now), nextId, Promoted)
      else AdminStep(rows, nextId, AlreadyAdmin)
    case None =>
      AdminStep(rows + [Users.UserRow(nextId, username, hashed, 1, now, now, now)], nextId + 1, Created)
  }

  /** `createAdminUser` with its three awaited calls allowed to reject: the
      lookup, then `updateRole` (when promoting) or `create` (when
      inserting). A rejection is caught and the statement that failed wrote
      nothing. */
  function AdminRun(rows: seq<Users.UserRow>, nextId: int, username: string, hashed: string, now: nat,
                    lookupFault: Option<DbError>, updateFault: Option<DbError>, createFault: Option<DbError>): (s: AdminStep)
    ensures s.outcome.Failed? ==> s.rows == rows && s.nextId == nextId
    ensures s.outcome.Failed? <==>
              || lookupFault.Some?
              || (AdminRows(rows, nextId, username, hashed, now).outcome == Promoted && updateFault.Some?)
              || (AdminRows(rows, nextId, username, hashed, now).outcome == Created && createFault.Some?)
    ensures lookupFault.Some? ==> s.outcome == Failed(lookupFault.value)
    ensures !s.outcome.Failed? ==> s == AdminRows(rows, nextId, username, hashed, now)
  {
    if lookupFault.Some? then AdminStep(rows, nextId, Failed(lookupFault.value))
    else
      var s := AdminRows(rows, nextId, username, hashed, now);
      if s.outcome == Promoted && updateFault.Some? then AdminStep(rows, nextId, Failed(updateFault.value))
      else if s.outcome == Created && createFault.Some? then AdminStep(rows, nextId, Failed(createFault.value))
      else s
  }

  /** `createAdminUser(username, password)` over the open table; a
      rejection is caught; `db.close()` runs in `finally`. */
  method CreateAdminUser(table: Users.UserTable, username: string, hashed: string, now: nat,
                         lookupFault: Option<DbError>, updateFault: Option<DbError>, createFault: Option<DbError>)
    returns (outcome: Outcome)
    requires table.Valid()
    modifies table
    ensures table.Valid() && !table.open
    ensures var s := AdminRun(old(table.rows), old(table.nextId), username, hashed, now, lookupFault, updateFault, createFault);
            table.rows == s.rows && table.nextId == s.nextId && outcome == s.outcome
  {
    if lookupFault.Some? {
      outcome := Failed(lookupFault.value);
    } else {
      var existing := Users.FindByUsername(table.rows, username);
      if existing.Some? {
        if existing.value.isAdmin != 1 {
          var r := table.UpdateRole(existing.value.id, true, now, updateFault);
          outcome := if r.Failure? then Failed(r.error) else Promoted;
        } else {
          outcome := AlreadyAdmin;
        }
      } else {
        var created := table.Create(username, hashed, Some(1), now, createFault);
        outcome := if created.Failure? then Failed(created.error) else Created;
      }
    }
    table.Close();
  }

  /** The whole script: a usage error exits 1 before the database is
      touched (it stays open, as nothing was done with it); otherwise
      `createAdminUser` runs. */
  method Script(table: Users.UserTable, args: seq<string>, hashed: string, now: nat,
                lookupFault: Option<DbError>, updateFault: Option<DbError>, createFault: Option<DbError>)
    returns (exitCode: Option<int>, outcome: Option<Outcome>)
    requires table.Valid()
    modifies table
    ensures table.Valid()
    ensures ParseArgs(args).Usage? ==>
              exitCode == Some(UsageExit) && outcome.None?
              && table.rows == old(table.rows) && table.nextId == old(table.nextId) && table.open == old(table.open)
    ensures ParseArgs(args).Run? ==> exitCode.None? && outcome.Some? && !table.open
    ensures ParseArgs(args).Run? ==>
              var s := AdminRun(old(table.rows), old(table.nextId), args[0], hashed, now, lookupFault, updateFault, createFault);
              table.rows == s.rows && table.nextId == s.nextId && outcome == Some(s.outcome)
  {
    var inv := ParseArgs(args);
    if inv.Usage? {
      return Some(UsageExit), None;
    }
    var o := CreateAdminUser(table, inv.username, hashed, now, lookupFault, updateFault, createFault);
    return None, Some(o);
  }

  // ---------------------------------------------------------------------
  // Properties

  /** Afterwards the named user exists and is an admin, the table is well
      formed, and at most one user was added. */
  lemma AdminRowsAdmin(rows: seq<Users.UserRow>, nextId: int, username: string, hashed: string, now: nat)
    requires Users.ValidUsers(rows, nextId)
    ensures var s := AdminRows(rows, nextId, username, hashed, now);
            && Users.ValidUsers(s.rows, s.nextId)
            && Users.FindByUsername(s.rows, username).Some?
            && Users.FindByUsername(s.rows, username).value.isAdmin == 1
            && |s.rows| <= |rows| + 1
            && (s.outcome == Created <==> Users.FindByUsername(rows, username).None?)
  {
    var s := AdminRows(rows, nextId, username, hashed, now);
    match Users.FindByUsername(rows, username)
    case None => {
      var row := Users.UserRow(nextId, username, hashed, 1, now, now, now);
      assert s.rows[|rows|] == row;
      Users.FindByUsernameAt(s.rows, s.nextId, |rows|);
    }
    case Some(u) => {
      Users.FindByUsernameIndex(rows, username);
      var i :| 0 <= i < |rows| && rows[i] == u;
      if u.isAdmin != 1 {
        Users.UpdateRoleKeepsValid(rows, nextId, u.id, true, now);
        assert s.rows[i] == u.(isAdmin := 1, updatedAt := now);
        Users.FindByUsernameAt(s.rows, nextId, i);
      }
    }
  }

  /** Running the script twice leaves the table as running it once: the
      second run finds an admin and does nothing. */
  lemma AdminRowsIdempotent(rows: seq<Users.UserRow>, nextId: int, username: string, hashed: string,
                            again: string, t1: nat, t2: nat)
    requires Users.ValidUsers(rows, nextId)
    ensures var s1 := AdminRows(rows, nextId, username, hashed, t1);
            var s2 := AdminRows(s1.rows, s1.nextId, username, again, t2);
            s2.rows == s1.rows && s2.nextId == s1.nextId && s2.outcome == AlreadyAdmin
  {
    AdminRowsAdmin(rows, nextId, username, hashed, t1);
  }

  /** An existing user keeps its password and id; only the role and
      `updatedAt` change. */
  lemma PromoteKeepsPassword(rows: seq<Users.UserRow>, nextId: int, username: string, hashed: string, now: nat)
    requires Users.ValidUsers(rows, nextId)
    requires Users.FindByUsername(rows, username).Some?
    ensures var u := Users.FindByUsername(rows, username).value;
            var s := AdminRows(rows, nextId, username, hashed, now);
            && |s.rows| == |rows| && s.nextId == nextId
            && Users.FindById(s.rows, Some(u.id)).Some?
            && Users.FindById(s.rows, Some(u.id)).value.password == u.password
            && Users.FindById(s.rows, Some(u.id)).value.username == username
  {
    var u := Users.FindByUsername(rows, username).value;
    var s := AdminRows(rows, nextId, username, hashed, now);
    Users.FindByUsernameIndex(rows, username);
    var i :| 0 <= i < |rows| && rows[i] == u;
    Users.FindByIdAt(rows, nextId, i);
    if u.isAdmin != 1 {
      assert s.rows == Users.UpdateRoleRows(rows, u.id, true, now);
      Users.UpdateRoleFind(rows, nextId, u.id, true, now, u.id);
      assert Users.FindById(s.rows, Some(u.id)) == Some(u.(isAdmin := 1, updatedAt := now));
    } else {
      assert s.rows == rows;
    }
  }
}
