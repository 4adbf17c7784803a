/** The dashboard's approve and delete buttons reach the message table
    twice: once through the socket handler (`approve_message` /
    `reject_message`, which passes the raw id and the socket's user-id
    string) and once through the REST route (which passes the path string
    and the authenticated user's id). Nothing coordinates the two, and
    they may reach the table in either order. */
module Moderation {
  import opened Js
  import opened Sql
  import Users
  import opened Messages
  import MessageController
  import Http
  import ClientMessages

  /** The message with id `n` exists and its sender is a user. */
  predicate Approvable(rows: seq<MessageRow>, users: seq<Users.UserRow>, n: int) {
    FindRow(rows, Some(n)).Some? && Users.FindById(users, RowKey(FindRow(rows, Some(n)).value.sender)).Some?
  }

  /** Socket first: both calls succeed, and the row ends up approved by
      the admin, stored as the number the socket's id string names. */
  lemma SocketThenRestApprove(rows: seq<MessageRow>, nextId: int, users: seq<Users.UserRow>,
                              n: int, admin: Http.ReqUser, t1: nat, t2: nat)
    requires ValidMessages(rows, nextId) && Approvable(rows, users, n)
    ensures var s := ApproveStep(rows, users, Num(n), Str(DecimalString(admin.id)), t1, None, None);
            var u := MessageController.ApproveMessage(s.rows, users, DecimalString(n), admin, t2, None, None);
            && s.result.Success? && s.result.value.Some?
            && u.result.status == 200
            && FindRow(u.rows, Some(n)).Some?
            && FindRow(u.rows, Some(n)).value.approvedBy == Num(admin.id)
            && FindRow(u.rows, Some(n)).value.approvedAt == Some(t2)
  {
    RowKeyDecimal(n);
    RowKeyDecimal(admin.id);
    ApproveResult(rows, nextId, users, Num(n), Str(DecimalString(admin.id)), t1);
    var s := ApproveStep(rows, users, Num(n), Str(DecimalString(admin.id)), t1, None, None);
    var row := FindRow(rows, Some(n)).value;
    assert s.rows == ApproveRows(rows, row.id, IntegerAffinity(Str(DecimalString(admin.id))), t1);
    ApproveRowsValid(rows, nextId, row.id, IntegerAffinity(Str(DecimalString(admin.id))), t1);
    MessageController.ApproveMessageResponse(s.rows, nextId, users, DecimalString(n), admin, t2);
  }

  /** REST first: both calls succeed as well; the socket handler then
      broadcasts an approval of a message that was already approved. */
  lemma RestThenSocketApprove(rows: seq<MessageRow>, nextId: int, users: seq<Users.UserRow>,
                              n: int, admin: Http.ReqUser, t1: nat, t2: nat)
    requires ValidMessages(rows, nextId) && Approvable(rows, users, n)
    ensures var u := MessageController.ApproveMessage(rows, users, DecimalString(n), admin, t1, None, None);
            var s := ApproveStep(u.rows, users, Num(n), Str(DecimalString(admin.id)), t2, None, None);
            && u.result.status == 200
            && s.result.Success? && s.result.value.Some?
            && s.result.value.value.approved == 1
            && FindRow(s.rows, Some(n)).value.approvedBy == Num(admin.id)
  {
    RowKeyDecimal(n);
    RowKeyDecimal(admin.id);
    MessageController.ApproveMessageResponse(rows, nextId, users, DecimalString(n), admin, t1);
    var u := MessageController.ApproveMessage(rows, users, DecimalString(n), admin, t1, None, None);
    var row := FindRow(rows, Some(n)).value;
    assert u.rows == ApproveRows(rows, row.id, Num(admin.id), t1);
    ApproveRowsValid(rows, nextId, row.id, Num(admin.id), t1);
    ApproveResult(u.rows, nextId, users, Num(n), Str(DecimalString(admin.id)), t2);
  }

  /** Socket first: the socket handler deletes the pending message and the
      REST delete then answers 404, which `axios` turns into a thrown
      error, so the dashboard keeps the entry (and no `message_rejected`
      ever removes it). */
  lemma SocketThenRestDelete(rows: seq<MessageRow>, nextId: int, n: int)
    requires ValidMessages(rows, nextId)
    requires FindRow(rows, Some(n)).Some? && FindRow(rows, Some(n)).value.approved == 0
    ensures var s := RejectStep(rows, Num(n), None);
            var u := MessageController.DeleteMessage(s.rows, DecimalString(n), None);
            && s.result == Success(true)
            && u.result.status == 404 && u.rows == s.rows
            && ClientMessages.Throws(Some(u.result))
  {
    RowKeyDecimal(n);
    RejectResult(rows, nextId, Num(n));
    var s := RejectStep(rows, Num(n), None);
    RejectFinal(rows, nextId, [], Num(n), Null, 0);
    MessageController.DeleteMessageResponse(s.rows, nextId, DecimalString(n));
  }

  /** REST first: the REST delete succeeds and the socket handler's
      `Message.reject` then finds nothing and reports `message_error`. */
  lemma RestThenSocketDelete(rows: seq<MessageRow>, nextId: int, n: int)
    requires ValidMessages(rows, nextId)
    requires FindRow(rows, Some(n)).Some? && FindRow(rows, Some(n)).value.approved == 0
    ensures var u := MessageController.DeleteMessage(rows, DecimalString(n), None);
            var s := RejectStep(u.rows, Num(n), None);
            && u.result == Http.Response(200, true, Http.Note(MessageController.DeletedNote))
            && ClientMessages.Succeeded(Some(u.result))
            && s.result == Success(false)
  {
    RowKeyDecimal(n);
    MessageController.DeleteMessageResponse(rows, nextId, DecimalString(n));
    RejectFinal(rows, nextId, [], Str(DecimalString(n)), Null, 0);
    RejectResult(rows, nextId, Str(DecimalString(n)));
    var u := MessageController.DeleteMessage(rows, DecimalString(n), None);
    RejectResult(u.rows, nextId, Num(n));
  }
}
