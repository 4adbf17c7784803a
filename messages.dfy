/** The public-message table: rows waiting for moderation (`approved = 0`)
    and approved rows (`approved = 1`), the joined read-back that nests the
    sender and the approver as `{id, username}`, and the four statements
    the server runs on it. */
module Messages {
  import opened Js
  import opened Sql
  import opened Seqs
  import Users

  /** A row of `messages`. `sender`, `content` and `approvedBy` hold the
      stored SQL value (`Null` for NULL); `approvedAt` is absent until
      approval. */
  datatype MessageRow = MessageRow(
    id: int,
    sender: JsVal,
    content: JsVal,
    approved: int,
    approvedBy: JsVal,
    approvedAt: Option<nat>,
    createdAt: nat,
    updatedAt: nat)

  /** Ids are positive, strictly increasing and below the next id
      (AUTOINCREMENT); `approved` is 0 or 1; `sender` and `content` are
      NOT NULL. */
  ghost predicate ValidMessages(rows: seq<MessageRow>, nextId: int) {
    1 <= nextId
    && (forall i :: 0 <= i < |rows| ==> 1 <= rows[i].id < nextId)
    && (forall i, j :: 0 <= i < j < |rows| ==> rows[i].id < rows[j].id)
    && (forall i :: 0 <= i < |rows| ==> rows[i].approved == 0 || rows[i].approved == 1)
    && (forall i :: 0 <= i < |rows| ==> rows[i].sender != Null && rows[i].content != Null)
  }

  /** `{id, username}`; the username is absent when a LEFT JOIN found no
      user (it reads as `null`). */
  datatype UserRef = UserRef(id: JsVal, username: Option<string>)

  /** `m.*` with `u.username AS senderUsername` from the inner JOIN and
      `ua.username AS approvedByUsername` from the LEFT JOIN. */
  datatype Joined = Joined(row: MessageRow, senderUsername: string, approvedByUsername: Option<string>)

  /** The message object the server hands out: every column of the row,
      with `sender` and `approvedBy` nested. It has no `senderUsername` or
      `approvedByUsername` key. */
  datatype Formatted = Formatted(
    id: int,
    sender: UserRef,
    content: JsVal,
    approved: int,
    approvedBy: Option<UserRef>,
    approvedAt: Option<nat>,
    createdAt: nat,
    updatedAt: nat)

  // ---------------------------------------------------------------------
  // _formatMessage

  function FormatRow(j: Joined): (f: Formatted)
    ensures f.id == j.row.id && f.content == j.row.content && f.approved == j.row.approved
    ensures f.approvedAt == j.row.approvedAt && f.createdAt == j.row.createdAt && f.updatedAt == j.row.updatedAt
    ensures f.sender == UserRef(j.row.sender, Some(j.senderUsername))
    ensures f.approvedBy.Some? <==> Truthy(j.row.approvedBy)
    ensures f.approvedBy.Some? ==> f.approvedBy.value == UserRef(j.row.approvedBy, j.approvedByUsername)
  {
    Formatted(
      j.row.id,
      UserRef(j.row.sender, Some(j.senderUsername)),
      j.row.content,
      j.row.approved,
      if Truthy(j.row.approvedBy) then Some(UserRef(j.row.approvedBy, j.approvedByUsername)) else None,
      j.row.approvedAt,
      j.row.createdAt,
      j.row.updatedAt)
  }

  /** `_formatMessage(row)`: no row gives `null`. */
  function FormatMessage(j: Option<Joined>): (r: Option<Formatted>)
    ensures r.None? <==> j.None?
    ensures j.Some? ==> r == Some(FormatRow(j.value))
  {
    match j
    case None => None
    case Some(x) => Some(FormatRow(x))
  }

  /** The columns of `messages` read back from a formatted message. */
  function RowOf(f: Formatted): MessageRow {
    MessageRow(f.id, f.sender.id, f.content, f.approved,
               if f.approvedBy.Some? then f.approvedBy.value.id else Null,
               f.approvedAt, f.createdAt, f.updatedAt)
  }

  /** Formatting loses no column: the row can be read back from the
      formatted message, unless `approvedBy` holds a falsy non-NULL value
      (which formats as `null` too). */
  lemma FormatKeepsColumns(j: Joined)
    requires Truthy(j.row.approvedBy) || j.row.approvedBy == Null
    ensures RowOf(FormatRow(j)) == j.row
    ensures FormatRow(j).sender.username == Some(j.senderUsername)
  {
  }

  // ---------------------------------------------------------------------
  // Joins

  /** The row joined with its sender (inner JOIN) and approver (LEFT
      JOIN); a row whose sender is no user drops out of the join. */
  function JoinRow(row: MessageRow, users: seq<Users.UserRow>): (r: Option<Joined>)
    ensures r.Some? <==> Users.FindById(users, RowKey(row.sender)).Some?
    ensures r.Some? ==> r.value.row == row
  {
    match Users.FindById(users, RowKey(row.sender))
    case None => None
    case Some(s) =>
      var approver := Users.FindById(users, RowKey(row.approvedBy));
      Some(Joined(row, s.username, if approver.Some? then Some(approver.value.username) else None))
  }

  function JoinAll(rows: seq<MessageRow>, users: seq<Users.UserRow>): (r: seq<Joined>)
    ensures |r| <= |rows|
    ensures forall j :: j in r ==> j.row in rows && JoinRow(j.row, users) == Some(j)
    ensures forall row :: row in rows && JoinRow(row, users).Some? ==> JoinRow(row, users).value in r
  {
    if rows == [] then []
    else
      (if JoinRow(rows[0], users).Some? then [JoinRow(rows[0], users).value] else [])
      + JoinAll(rows[1..], users)
  }

  /** The row with the given id. */
  function FindRow(rows: seq<MessageRow>, id: Option<int>): (r: Option<MessageRow>)
    ensures r.Some? ==> r.value in rows && id == Some(r.value.id)
    ensures r.None? ==> id.None? || forall row :: row in rows ==> row.id != id.value
  {
    if id.None? || rows == [] then None
    else if rows[0].id == id.value then Some(rows[0])
    else FindRow(rows[1..], id)
  }

  /** `SELECT m.*, ... JOIN ... WHERE m.id = ?` */
  function JoinedById(rows: seq<MessageRow>, users: seq<Users.UserRow>, id: Option<int>): (r: Option<Joined>)
    ensures r.Some? <==> FindRow(rows, id).Some? && JoinRow(FindRow(rows, id).value, users).Some?
    ensures r.Some? ==> r.value.row == FindRow(rows, id).value
  {
    match FindRow(rows, id)
    case None => None
    case Some(row) => JoinRow(row, users)
  }

  // ---------------------------------------------------------------------
  // getAll

  const DefaultLimit: nat := 100
  const DefaultOffset: nat := 0

  /** The `WHERE m.approved = ?` test for `approved` (none when it is
      `undefined`). */
  predicate ApprovalMatches(approved: JsVal, j: Joined) {
    approved == Undefined || j.row.approved == if Truthy(approved) then 1 else 0
  }

  function FormatAll(js: seq<Joined>): (r: seq<Formatted>)
    ensures |r| == |js|
    ensures forall i :: 0 <= i < |js| ==> r[i] == FormatRow(js[i])
  {
    if js == [] then [] else [FormatRow(js[0])] + FormatAll(js[1..])
  }

  function CreatedAt(j: Joined): int { j.row.createdAt }

  /** The joined rows `getAll` selects, before LIMIT/OFFSET: filtered,
      newest first. */
  function Selected(rows: seq<MessageRow>, users: seq<Users.UserRow>, approved: JsVal): seq<Joined> {
    SortByDesc(Filter(JoinAll(rows, users), j => ApprovalMatches(approved, j)), CreatedAt)
  }

  /** `Message.getAll({approved, limit, offset})` */
  function GetAll(rows: seq<MessageRow>, users: seq<Users.UserRow>, approved: JsVal, limit: nat, offset: nat): (r: seq<Formatted>)
    ensures |r| <= limit
  {
    FormatAll(Page(Selected(rows, users, approved), limit, offset))
  }

  /** Every message `getAll` returns passes the approval filter and
      comes from a stored row whose sender is a user. */
  lemma GetAllFilter(rows: seq<MessageRow>, users: seq<Users.UserRow>, approved: JsVal, limit: nat, offset: nat, i: nat)
    requires i < |GetAll(rows, users, approved, limit, offset)|
    ensures var f := GetAll(rows, users, approved, limit, offset)[i];
            && (approved != Undefined ==> f.approved == if Truthy(approved) then 1 else 0)
            && exists row :: row in rows && row.id == f.id && Users.FindById(users, RowKey(row.sender)).Some?
  {
    var sel := Selected(rows, users, approved);
    var page := Page(sel, limit, offset);
    assert page[i] in sel;
    var filtered := Filter(JoinAll(rows, users), j => ApprovalMatches(approved, j));
    assert multiset(sel) == multiset(filtered);
    assert page[i] in multiset(filtered);
    assert page[i] in filtered;
    assert page[i].row in rows;
  }

  /** `getAll` lists newest `createdAt` first. */
  lemma GetAllOrder(rows: seq<MessageRow>, users: seq<Users.UserRow>, approved: JsVal, limit: nat, offset: nat)
    ensures var r := GetAll(rows, users, approved, limit, offset);
            forall i, j :: 0 <= i < j < |r| ==> r[i].createdAt >= r[j].createdAt
  {
    var sel := Selected(rows, users, approved);
    SortByDescSorted(Filter(JoinAll(rows, users), j => ApprovalMatches(approved, j)), CreatedAt);
    var page := Page(sel, limit, offset);
    if offset < |sel| {
      var end := if limit < |sel| - offset then offset + limit else |sel|;
      assert page == sel[offset..end];
      forall i, j | 0 <= i < j < |page| ensures CreatedAt(page[i]) >= CreatedAt(page[j]) {
        assert page[i] == sel[offset + i] && page[j] == sel[offset + j];
      }
    }
  }

  /** With the first page large enough, `getAll` misses no joined row
      that passes the filter. */
  lemma GetAllComplete(rows: seq<MessageRow>, users: seq<Users.UserRow>, approved: JsVal, limit: nat, row: MessageRow)
    requires row in rows && Users.FindById(users, RowKey(row.sender)).Some?
    requires ApprovalMatches(approved, JoinRow(row, users).value)
    requires |rows| <= limit
    ensures FormatRow(JoinRow(row, users).value) in GetAll(rows, users, approved, limit, 0)
  {
    var j := JoinRow(row, users).value;
    var filtered := Filter(JoinAll(rows, users), j => ApprovalMatches(approved, j));
    assert j in filtered;
    var sel := Selected(rows, users, approved);
    assert j in multiset(filtered);
    assert j in sel;
    assert Page(sel, limit, 0) == sel;
    var k :| 0 <= k < |sel| && sel[k] == j;
    assert GetAll(rows, users, approved, limit, 0)[k] == FormatRow(j);
  }

  // ---------------------------------------------------------------------
  // The statements

  /** The table after an INSERT, the next id, and the statement's result. */
  datatype Step<R> = Step(rows: seq<MessageRow>, nextId: int, result: R)

  /** The table after an UPDATE or DELETE, and the statement's result. */
  datatype Update<R> = Update(rows: seq<MessageRow>, result: R)

  /** `Message.create({sender, content})`: INSERT with `approved` and
      `approvedBy` left to their defaults (0 and NULL), then the joined
      read-back of the new row (`null` when its sender is no user). A NULL
      sender or content violates NOT NULL and inserts nothing; `fault` is
      any other failure of the INSERT, which also inserts nothing.
      `readFault` is a failure of the read-back: the row is written and
      the call rejects all the same. */
  function CreateStep(rows: seq<MessageRow>, nextId: int, users: seq<Users.UserRow>,
                      sender: JsVal, content: JsVal, now: nat,
                      fault: Option<DbError>, readFault: Option<DbError>): (s: Step<Result<Option<Formatted>>>)
    ensures fault.Some? ==> s.result == Failure(fault.value)
    ensures !(fault.None? && Bind(sender) != Null && Bind(content) != Null) ==>
              s.result.Failure? && s.rows == rows && s.nextId == nextId
    ensures fault.None? && Bind(sender) != Null && Bind(content) != Null ==>
              && s.rows == rows + [MessageRow(nextId, IntegerAffinity(sender), Bind(content), 0, Null, None, now, now)]
              && s.nextId == nextId + 1
    ensures s.result.Success? <==> fault.None? && Bind(sender) != Null && Bind(content) != Null && readFault.None?
    ensures fault.None? && Bind(sender) != Null && Bind(content) != Null && readFault.Some? ==>
              s.result == Failure(readFault.value)
  {
    if fault.Some? then Step(rows, nextId, Failure(fault.value))
    else if Bind(sender) == Null then
      Step(rows, nextId, Failure(DbError("SQLITE_CONSTRAINT: NOT NULL constraint failed: messages.sender")))
    else if Bind(content) == Null then
      Step(rows, nextId, Failure(DbError("SQLITE_CONSTRAINT: NOT NULL constraint failed: messages.content")))
    else
      var row := MessageRow(nextId, IntegerAffinity(sender), Bind(content), 0, Null, None, now, now);
      var rows' := rows + [row];
      if readFault.Some? then Step(rows', nextId + 1, Failure(readFault.value))
      else Step(rows', nextId + 1, Success(FormatMessage(JoinedById(rows', users, Some(nextId)))))
  }

  /** The row approval writes. */
  function Approved(row: MessageRow, approver: JsVal, now: nat): MessageRow {
    row.(approved := 1, approvedBy := approver, approvedAt := Some(now), updatedAt := now)
  }

  /** `UPDATE messages SET approved = 1, approvedBy = ?, approvedAt = ?,
      updatedAt = ? WHERE id = ?` */
  function ApproveRows(rows: seq<MessageRow>, id: int, approver: JsVal, now: nat): (r: seq<MessageRow>)
    ensures |r| == |rows|
    ensures forall i :: 0 <= i < |rows| ==> r[i] == if rows[i].id == id then Approved(rows[i], approver, now) else rows[i]
  {
    if rows == [] then []
    else [if rows[0].id == id then Approved(rows[0], approver, now) else rows[0]] + ApproveRows(rows[1..], id, approver, now)
  }

  /** `Message.approve(id, approvedBy)`: the UPDATE does not look at
      `approved`, so an approved row is approved again; no changed row
      gives `null`, otherwise the joined read-back. `fault` is a failure of
      the UPDATE, which writes nothing; `readFault` a failure of the
      read-back, after the row is approved. */
  function ApproveStep(rows: seq<MessageRow>, users: seq<Users.UserRow>, id: JsVal, approvedBy: JsVal, now: nat,
                       fault: Option<DbError>, readFault: Option<DbError>): (s: Update<Result<Option<Formatted>>>)
    ensures fault.Some? ==> s.rows == rows && s.result == Failure(fault.value)
    ensures fault.None? && FindRow(rows, RowKey(id)).None? ==> s.rows == rows && s.result == Success(None)
    ensures fault.None? && FindRow(rows, RowKey(id)).Some? ==>
              && s.rows == ApproveRows(rows, FindRow(rows, RowKey(id)).value.id, IntegerAffinity(approvedBy), now)
              && (s.result.Failure? <==> readFault.Some?)
              && (readFault.Some? ==> s.result == Failure(readFault.value))
  {
    if fault.Some? then Update(rows, Failure(fault.value))
    else match FindRow(rows, RowKey(id))
      case None => Update(rows, Success(None))
      case Some(row) =>
        var rows' := ApproveRows(rows, row.id, IntegerAffinity(approvedBy), now);
        if readFault.Some? then Update(rows', Failure(readFault.value))
        else Update(rows', Success(FormatMessage(JoinedById(rows', users, Some(row.id)))))
  }

  /** The rows `DELETE FROM messages WHERE id = ? AND approved = 0`
      removes. */
  predicate Deletable(id: Option<int>, row: MessageRow) {
    id == Some(row.id) && row.approved == 0
  }

  /** `Message.reject(id)`: the result is `changes > 0`. */
  function RejectStep(rows: seq<MessageRow>, id: JsVal, fault: Option<DbError>): (s: Update<Result<bool>>)
    ensures s.result.Failure? <==> fault.Some?
    ensures fault.Some? ==> s.rows == rows
  {
    if fault.Some? then Update(rows, Failure(fault.value))
    else
      var key := RowKey(id);
      Update(Filter(rows, row => !Deletable(key, row)), Success(Count(rows, row => Deletable(key, row)) > 0))
  }

  // ---------------------------------------------------------------------
  // Properties of the statements

  lemma {:induction false} ApproveRowsValid(rows: seq<MessageRow>, nextId: int, id: int, approver: JsVal, now: nat)
    requires ValidMessages(rows, nextId)
    ensures ValidMessages(ApproveRows(rows, id, approver, now), nextId)
  {
  }

  lemma {:induction false} FilterValid(rows: seq<MessageRow>, nextId: int, p: MessageRow -> bool)
    requires ValidMessages(rows, nextId)
    ensures ValidMessages(Filter(rows, p), nextId)
    decreases |rows|
  {
    if rows != [] {
      FilterValid(rows[1..], nextId, p);
      var t := Filter(rows[1..], p);
      if p(rows[0]) {
        var r := Filter(rows, p);
        assert r == [rows[0]] + t;
        forall j | 0 <= j < |t| ensures rows[0].id < t[j].id {
          assert t[j] in rows[1..];
        }
      }
    }
  }

  /** Create keeps the table well formed, and a failed statement writes
      nothing. */
  lemma CreateValid(rows: seq<MessageRow>, nextId: int, users: seq<Users.UserRow>,
                    sender: JsVal, content: JsVal, now: nat, fault: Option<DbError>, readFault: Option<DbError>)
    requires ValidMessages(rows, nextId)
    ensures var s := CreateStep(rows, nextId, users, sender, content, now, fault, readFault);
            ValidMessages(s.rows, s.nextId)
  {
    var s := CreateStep(rows, nextId, users, sender, content, now, fault, readFault);
    if fault.None? && Bind(sender) != Null && Bind(content) != Null {
      var row := MessageRow(nextId, IntegerAffinity(sender), Bind(content), 0, Null, None, now, now);
      assert s.rows == rows + [row] && s.nextId == nextId + 1;
      AppendValid(rows, nextId, row);
    } else {
      assert s.rows == rows && s.nextId == nextId;
    }
  }

  /** Appending a pending row with the next id and both NOT NULL columns
      keeps the table well formed. */
  lemma AppendValid(rows: seq<MessageRow>, nextId: int, row: MessageRow)
    requires ValidMessages(rows, nextId) && row.id == nextId
    requires row.approved == 0 && row.sender != Null && row.content != Null
    ensures ValidMessages(rows + [row], nextId + 1)
  {
    var r := rows + [row];
    forall i, j | 0 <= i < j < |r| ensures r[i].id < r[j].id {
      if j < |rows| {
        assert r[i] == rows[i] && r[j] == rows[j];
      } else {
        assert r[i] == rows[i] && r[j] == row;
      }
    }
    forall i | 0 <= i < |r|
      ensures 1 <= r[i].id < nextId + 1 && (r[i].approved == 0 || r[i].approved == 1)
      ensures r[i].sender != Null && r[i].content != Null
    {
      if i < |rows| {
        assert r[i] == rows[i];
      }
    }
  }

  /** A created message is pending: `approved = 0`, no approver. It is
      returned formatted with the new id, or as `null` exactly when its
      sender is no user (the insert has happened all the same). */
  lemma CreateResult(rows: seq<MessageRow>, nextId: int, users: seq<Users.UserRow>,
                     sender: JsVal, content: JsVal, now: nat)
    requires ValidMessages(rows, nextId)
    requires Bind(sender) != Null && Bind(content) != Null
    ensures var s := CreateStep(rows, nextId, users, sender, content, now, None, None);
            && s.result.Success?
            && (s.result.value.Some? <==> Users.FindById(users, RowKey(sender)).Some?)
            && (s.result.value.Some? ==>
                  var f := s.result.value.value;
                  && f.id == nextId && f.approved == 0 && f.approvedBy.None?
                  && f.sender.id == IntegerAffinity(sender) && f.content == Bind(content))
  {
    var row := MessageRow(nextId, IntegerAffinity(sender), Bind(content), 0, Null, None, now, now);
    var rows' := rows + [row];
    FindRowLast(rows, nextId, row);
    IntegerAffinityKey(sender);
  }

  lemma {:induction false} FindRowLast(rows: seq<MessageRow>, nextId: int, row: MessageRow)
    requires ValidMessages(rows, nextId) && row.id == nextId
    ensures FindRow(rows + [row], Some(nextId)) == Some(row)
  {
    if rows != [] {
      assert (rows + [row])[1..] == rows[1..] + [row];
      FindRowLast(rows[1..], nextId, row);
    }
  }

  /** In a well-formed table the row found under an id is the only one
      with that id. */
  lemma {:induction false} FindRowUnique(rows: seq<MessageRow>, nextId: int, i: nat)
    requires ValidMessages(rows, nextId) && i < |rows|
    ensures FindRow(rows, Some(rows[i].id)) == Some(rows[i])
  {
    if i > 0 {
      FindRowUnique(rows[1..], nextId, i - 1);
    }
  }

  /** The row under the id after an approval is the approved row. */
  lemma {:induction false} FindApproved(rows: seq<MessageRow>, id: int, approver: JsVal, now: nat, x: Option<int>)
    ensures FindRow(ApproveRows(rows, id, approver, now), x) ==
            if FindRow(rows, x).Some? && FindRow(rows, x).value.id == id
            then Some(Approved(FindRow(rows, x).value, approver, now)) else FindRow(rows, x)
  {
    if rows != [] && x.Some? {
      assert ApproveRows(rows, id, approver, now)[1..] == ApproveRows(rows[1..], id, approver, now);
      FindApproved(rows[1..], id, approver, now, x);
    }
  }

  /** `approve` gives `null` exactly when no row has the id or the row's
      sender is no user; otherwise it has set `approved = 1`, the approver
      and `approvedAt` on that row, whatever its earlier state. A `null`
      for a missing id writes nothing. */
  lemma ApproveResult(rows: seq<MessageRow>, nextId: int, users: seq<Users.UserRow>,
                      id: JsVal, approver: JsVal, now: nat)
    requires ValidMessages(rows, nextId)
    ensures var s := ApproveStep(rows, users, id, approver, now, None, None);
            && s.result.Success?
            && (FindRow(rows, RowKey(id)).None? ==> s.result.value.None? && s.rows == rows)
            && (FindRow(rows, RowKey(id)).Some? ==>
                  var row := FindRow(rows, RowKey(id)).value;
                  && FindRow(s.rows, RowKey(id)) == Some(Approved(row, IntegerAffinity(approver), now))
                  && (s.result.value.None? <==> Users.FindById(users, RowKey(row.sender)).None?)
                  && (s.result.value.Some? ==>
                        s.result.value.value.approved == 1 && s.result.value.value.id == row.id
                        && s.result.value.value.approvedAt == Some(now)))
  {
    if FindRow(rows, RowKey(id)).Some? {
      var row := FindRow(rows, RowKey(id)).value;
      FindApproved(rows, row.id, IntegerAffinity(approver), now, RowKey(id));
      FindApproved(rows, row.id, IntegerAffinity(approver), now, Some(row.id));
    }
  }

  /** Approving an already-approved row succeeds again and the later
      approver overwrites the earlier one. */
  lemma ApproveTwice(rows: seq<MessageRow>, nextId: int, users: seq<Users.UserRow>,
                     id: JsVal, first: JsVal, second: JsVal, t1: nat, t2: nat)
    requires ValidMessages(rows, nextId)
    requires FindRow(rows, RowKey(id)).Some?
    ensures var s1 := ApproveStep(rows, users, id, first, t1, None, None);
            var s2 := ApproveStep(s1.rows, users, id, second, t2, None, None);
            FindRow(s2.rows, RowKey(id)) ==
              Some(Approved(FindRow(rows, RowKey(id)).value, IntegerAffinity(second), t2))
  {
    var row := FindRow(rows, RowKey(id)).value;
    var s1 := ApproveStep(rows, users, id, first, t1, None, None);
    FindApproved(rows, row.id, IntegerAffinity(first), t1, RowKey(id));
    var row1 := FindRow(s1.rows, RowKey(id)).value;
    FindApproved(s1.rows, row1.id, IntegerAffinity(second), t2, RowKey(id));
  }

  /** `approve` changes no row but the one with the id. */
  lemma ApproveOthers(rows: seq<MessageRow>, users: seq<Users.UserRow>,
                      id: JsVal, approver: JsVal, now: nat,
                      fault: Option<DbError>, readFault: Option<DbError>, i: nat)
    requires i < |rows| && RowKey(id) != Some(rows[i].id)
    ensures var s := ApproveStep(rows, users, id, approver, now, fault, readFault);
            |s.rows| == |rows| && s.rows[i] == rows[i]
  {
  }

  /** `reject` deletes exactly the row with the id when it is unapproved
      and answers whether it did; approved rows and rows with other ids
      stay. */
  lemma RejectResult(rows: seq<MessageRow>, nextId: int, id: JsVal)
    requires ValidMessages(rows, nextId)
    ensures var s := RejectStep(rows, id, None);
            && ValidMessages(s.rows, nextId)
            && (s.result.value <==> FindRow(rows, RowKey(id)).Some? && FindRow(rows, RowKey(id)).value.approved == 0)
            && (forall row :: row in s.rows <==> row in rows && !Deletable(RowKey(id), row))
            && (s.result.value ==> |s.rows| == |rows| - 1)
            && (!s.result.value ==> s.rows == rows)
  {
    var key := RowKey(id);
    var p := (row: MessageRow) => Deletable(key, row);
    var q := (row: MessageRow) => !Deletable(key, row);
    FilterValid(rows, nextId, q);
    CountZero(rows, p);
    CountAtMostOne(rows, nextId, key);
    FilterLength(rows, q);
    CountComplement(rows, p, q);
    if FindRow(rows, key).Some? && FindRow(rows, key).value.approved == 0 {
      assert p(FindRow(rows, key).value);
      var k :| 0 <= k < |rows| && rows[k] == FindRow(rows, key).value;
      assert p(rows[k]);
    } else {
      forall k | 0 <= k < |rows| ensures !p(rows[k]) {
        if p(rows[k]) {
          FindRowUnique(rows, nextId, k);
        }
      }
      FilterNone(rows, q);
    }
  }

  lemma {:induction false} CountAtMostOne(rows: seq<MessageRow>, nextId: int, key: Option<int>)
    requires ValidMessages(rows, nextId)
    ensures Count(rows, row => Deletable(key, row)) <= 1
    decreases |rows|
  {
    if rows != [] {
      CountAtMostOne(rows[1..], nextId, key);
      if Deletable(key, rows[0]) {
        CountZero(rows[1..], row => Deletable(key, row));
        forall k | 0 <= k < |rows[1..]| ensures !Deletable(key, rows[1..][k]) {
          assert rows[1..][k] == rows[k + 1];
        }
      }
    }
  }

  lemma {:induction false} CountComplement<T>(s: seq<T>, p: T -> bool, q: T -> bool)
    requires forall x :: q(x) == !p(x)
    ensures Count(s, p) + Count(s, q) == |s|
  {
    if s != [] { CountComplement(s[1..], p, q); }
  }

  lemma {:induction false} FilterNone<T>(s: seq<T>, q: T -> bool)
    requires forall k :: 0 <= k < |s| ==> q(s[k])
    ensures Filter(s, q) == s
  {
    if s != [] {
      FilterNone(s[1..], q);
      assert q(s[0]);
    }
  }

  /** Once rejected, a message is gone: rejecting it again answers false
      and approving it answers `null`. */
  lemma RejectFinal(rows: seq<MessageRow>, nextId: int, users: seq<Users.UserRow>,
                    id: JsVal, approver: JsVal, now: nat)
    requires ValidMessages(rows, nextId)
    requires RejectStep(rows, id, None).result.value
    ensures var s := RejectStep(rows, id, None);
            && RejectStep(s.rows, id, None).result == Success(false)
            && ApproveStep(s.rows, users, id, approver, now, None, None).result == Success(None)
  {
    RejectResult(rows, nextId, id);
    var s := RejectStep(rows, id, None);
    RejectResult(s.rows, nextId, id);
  }

  // ---------------------------------------------------------------------
  // The table as the server holds it

  class MessageTable {
    var rows: seq<MessageRow>
    var nextId: int

    ghost predicate Valid()
      reads this
    {
      ValidMessages(rows, nextId)
    }

    constructor ()
      ensures Valid() && rows == [] && nextId == 1
    {
      rows := [];
      nextId := 1;
    }

    method Create(users: seq<Users.UserRow>, sender: JsVal, content: JsVal, now: nat,
                  fault: Option<DbError>, readFault: Option<DbError>)
      returns (r: Result<Option<Formatted>>)
      requires Valid()
      modifies this
      ensures Valid()
      ensures var s := CreateStep(old(rows), old(nextId), users, sender, content, now, fault, readFault);
              rows == s.rows && nextId == s.nextId && r == s.result
    {
      var rows0, nextId0 := rows, nextId;
      var s := CreateStep(rows0, nextId0, users, sender, content, now, fault, readFault);
      CreateValid(rows0, nextId0, users, sender, content, now, fault, readFault);
      rows, nextId, r := s.rows, s.nextId, s.result;
    }

    method Approve(users: seq<Users.UserRow>, id: JsVal, approvedBy: JsVal, now: nat,
                   fault: Option<DbError>, readFault: Option<DbError>)
      returns (r: Result<Option<Formatted>>)
      requires Valid()
      modifies this`rows
      ensures Valid()
      ensures var s := ApproveStep(old(rows), users, id, approvedBy, now, fault, readFault);
              rows == s.rows && r == s.result
    {
      var s := ApproveStep(rows, users, id, approvedBy, now, fault, readFault);
      if fault.None? && FindRow(rows, RowKey(id)).Some? {
        ApproveRowsValid(rows, nextId, FindRow(rows, RowKey(id)).value.id, IntegerAffinity(approvedBy), now);
      }
      rows, r := s.rows, s.result;
    }

    method Reject(id: JsVal, fault: Option<DbError>) returns (r: Result<bool>)
      requires Valid()
      modifies this`rows
      ensures Valid()
      ensures var s := RejectStep(old(rows), id, fault);
              rows == s.rows && r == s.result
    {
      var s := RejectStep(rows, id, fault);
      if fault.None? {
        RejectResult(rows, nextId, id);
      }
      rows, r := s.rows, s.result;
    }
  }
}
