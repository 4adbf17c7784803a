/** The REST handlers for public messages. Each calls the message table
    once and turns its result into a response: a list with its `count`,
    201 for a created message, 404 for an approve that found nothing or a
    delete that deleted nothing, and 500 with the error's message for a
    failed statement. Routes pass ids as path strings. */
module MessageController {
  import opened Js
  import opened Sql
  import Users
  import opened Messages
  import opened Http

  const NotFoundNote := "Message not found"
  const DeletedNote := "Message deleted"

  /** The answer to a `getAll` call. */
  function ListResponse(r: Result<seq<Formatted>>): Response {
    match r
    case Failure(e) => Fail500(e.message)
    case Success(ms) => Response(200, true, MessageList(|ms|, ms))
  }

  /** `GET /api/messages`: `Message.getAll({approved: 1})`. */
  function GetPublicMessages(rows: seq<MessageRow>, users: seq<Users.UserRow>, fault: Option<DbError>): (resp: Response)
    ensures fault.Some? ==> resp == Fail500(fault.value.message)
    ensures fault.None? ==>
              && resp.status == 200 && resp.success && resp.body.MessageList?
              && resp.body.count == |resp.body.messages| <= DefaultLimit
  {
    ListResponse(if fault.Some? then Failure(fault.value)
                 else Success(GetAll(rows, users, Num(1), DefaultLimit, DefaultOffset)))
  }

  /** `GET /api/messages/pending`: `Message.getAll({approved: 0})`. */
  function GetPendingMessages(rows: seq<MessageRow>, users: seq<Users.UserRow>, fault: Option<DbError>): (resp: Response)
    ensures fault.Some? ==> resp == Fail500(fault.value.message)
    ensures fault.None? ==>
              && resp.status == 200 && resp.success && resp.body.MessageList?
              && resp.body.count == |resp.body.messages| <= DefaultLimit
  {
    ListResponse(if fault.Some? then Failure(fault.value)
                 else Success(GetAll(rows, users, Num(0), DefaultLimit, DefaultOffset)))
  }

  /** The public list holds only approved messages, at most 100, newest
      first, with `count` its length; a failed read answers 500. */
  lemma PublicMessagesApproved(rows: seq<MessageRow>, users: seq<Users.UserRow>, fault: Option<DbError>)
    ensures var resp := GetPublicMessages(rows, users, fault);
            && (fault.Some? ==> resp == Fail500(fault.value.message))
            && (fault.None? ==>
                  && resp.status == 200 && resp.success && resp.body.MessageList?
                  && resp.body.count == |resp.body.messages| <= DefaultLimit
                  && (forall i :: 0 <= i < |resp.body.messages| ==> resp.body.messages[i].approved == 1)
                  && (forall i, j :: 0 <= i < j < |resp.body.messages| ==>
                        resp.body.messages[i].createdAt >= resp.body.messages[j].createdAt))
  {
    if fault.None? {
      var ms := GetAll(rows, users, Num(1), DefaultLimit, DefaultOffset);
      forall i | 0 <= i < |ms| ensures ms[i].approved == 1 {
        GetAllFilter(rows, users, Num(1), DefaultLimit, DefaultOffset, i);
      }
      GetAllOrder(rows, users, Num(1), DefaultLimit, DefaultOffset);
    }
  }

  /** The pending list holds only unapproved messages, with `count` its
      length. */
  lemma PendingMessagesUnapproved(rows: seq<MessageRow>, users: seq<Users.UserRow>, fault: Option<DbError>)
    ensures var resp := GetPendingMessages(rows, users, fault);
            && (fault.Some? ==> resp == Fail500(fault.value.message))
            && (fault.None? ==>
                  && resp.status == 200 && resp.success && resp.body.MessageList?
                  && resp.body.count == |resp.body.messages| <= DefaultLimit
                  && (forall i :: 0 <= i < |resp.body.messages| ==> resp.body.messages[i].approved == 0))
  {
    if fault.None? {
      var ms := GetAll(rows, users, Num(0), DefaultLimit, DefaultOffset);
      forall i | 0 <= i < |ms| ensures ms[i].approved == 0 {
        GetAllFilter(rows, users, Num(0), DefaultLimit, DefaultOffset, i);
      }
    }
  }

  /** While the table holds at most 100 rows, an approved message whose
      sender is a user is in the public list. */
  lemma PublicMessagesComplete(rows: seq<MessageRow>, users: seq<Users.UserRow>, row: MessageRow)
    requires row in rows && row.approved == 1 && Users.FindById(users, RowKey(row.sender)).Some?
    requires |rows| <= DefaultLimit
    ensures FormatRow(JoinRow(row, users).value) in GetPublicMessages(rows, users, None).body.messages
  {
    GetAllComplete(rows, users, Num(1), DefaultLimit, row);
  }

  /** `POST /api/messages`: `Message.create({content, sender: req.user.id})`,
      answered with 201. A rejected INSERT answers 500 and writes nothing;
      a rejected read-back answers 500 too, with the row already stored. */
  function CreateMessage(rows: seq<MessageRow>, nextId: int, users: seq<Users.UserRow>, user: ReqUser,
                         content: JsVal, now: nat, fault: Option<DbError>, readFault: Option<DbError>): (s: Step<Response>)
    ensures fault.Some? ==> s.result == Fail500(fault.value.message) && s.rows == rows && s.nextId == nextId
    ensures s.result.status == 201 <==> fault.None? && Bind(content) != Null && readFault.None?
    ensures s.result.status != 201 ==> s.result.status == 500 && !s.result.success
    ensures fault.None? && Bind(content) != Null ==>
              && s.rows == rows + [MessageRow(nextId, Num(user.id), Bind(content), 0, Null, None, now, now)]
              && s.nextId == nextId + 1
    ensures fault.None? && Bind(content) != Null && readFault.Some? ==> s.result == Fail500(readFault.value.message)
  {
    var s := CreateStep(rows, nextId, users, Num(user.id), content, now, fault, readFault);
    Step(s.rows, s.nextId,
         match s.result
         case Failure(e) => Fail500(e.message)
         case Success(m) => Response(201, true, OneMessage(m)))
  }

  /** The new message's sender is always the authenticated user and it is
      answered with 201; content that binds to NULL (missing from the body)
      is refused by the NOT NULL constraint with a 500 and no row. */
  lemma CreateMessageSender(rows: seq<MessageRow>, nextId: int, users: seq<Users.UserRow>,
                            user: ReqUser, content: JsVal, now: nat)
    requires ValidMessages(rows, nextId)
    ensures var s := CreateMessage(rows, nextId, users, user, content, now, None, None);
            && (Bind(content) == Null ==>
                  s.result == Fail500("SQLITE_CONSTRAINT: NOT NULL constraint failed: messages.content")
                  && s.rows == rows)
            && (Bind(content) != Null ==>
                  && s.result.status == 201 && s.result.success
                  && s.rows == rows + [MessageRow(nextId, Num(user.id), Bind(content), 0, Null, None, now, now)]
                  && ((exists u :: u in users && u.id == user.id) ==>
                        s.result.body.message.Some?
                        && s.result.body.message.value.sender.id == Num(user.id)
                        && s.result.body.message.value.approved == 0))
  {
    var s := CreateMessage(rows, nextId, users, user, content, now, None, None);
    if Bind(content) != Null {
      CreateResult(rows, nextId, users, Num(user.id), content, now);
      var step := CreateStep(rows, nextId, users, Num(user.id), content, now, None, None);
      assert s.result == Response(201, true, OneMessage(step.result.value));
    }
  }

  function ApprovalResponse(r: Result<Option<Formatted>>): Response {
    match r
    case Failure(e) => Fail500(e.message)
    case Success(None) => Response(404, false, Note(NotFoundNote))
    case Success(Some(m)) => Response(200, true, OneMessage(Some(m)))
  }

  /** `PUT /api/messages/:id/approve`: `Message.approve(id, req.user.id)`.
      A rejected UPDATE answers 500 and writes nothing; a rejected
      read-back answers 500 after the row is approved. */
  function ApproveMessage(rows: seq<MessageRow>, users: seq<Users.UserRow>, id: string, user: ReqUser, now: nat,
                          fault: Option<DbError>, readFault: Option<DbError>): (u: Update<Response>)
    ensures fault.Some? ==> u.result == Fail500(fault.value.message) && u.rows == rows
    ensures fault.None? && FindRow(rows, RowKey(Str(id))).None? ==>
              u.result == Response(404, false, Note(NotFoundNote)) && u.rows == rows
    ensures u.result.status == 500 <==> fault.Some? || (FindRow(rows, RowKey(Str(id))).Some? && readFault.Some?)
    ensures u.result.status == 200 || u.result.status == 404 || u.result.status == 500
    ensures fault.None? && FindRow(rows, RowKey(Str(id))).Some? ==>
              u.rows == ApproveRows(rows, FindRow(rows, RowKey(Str(id))).value.id, Num(user.id), now)
  {
    var s := ApproveStep(rows, users, Str(id), Num(user.id), now, fault, readFault);
    Update(s.rows, ApprovalResponse(s.result))
  }

  /** 404 exactly when no row has the id or the row's sender is no user
      (the row is approved all the same); otherwise 200 with the message
      approved by the caller. A pending or an approved row alike is
      approved: nothing guards against a second approval. */
  lemma ApproveMessageResponse(rows: seq<MessageRow>, nextId: int, users: seq<Users.UserRow>,
                               id: string, user: ReqUser, now: nat)
    requires ValidMessages(rows, nextId)
    ensures var u := ApproveMessage(rows, users, id, user, now, None, None);
            var found := FindRow(rows, RowKey(Str(id)));
            && (u.result.status == 404 <==>
                  found.None? || Users.FindById(users, RowKey(found.value.sender)).None?)
            && (u.result.status == 404 ==> u.result == Response(404, false, Note(NotFoundNote)))
            && (u.result.status != 404 ==>
                  && u.result.status == 200
                  && u.result.body.message.value.approved == 1
                  && u.result.body.message.value.id == found.value.id)
            && (found.Some? ==>
                  FindRow(u.rows, RowKey(Str(id))) == Some(Approved(found.value, Num(user.id), now)))
  {
    ApproveResult(rows, nextId, users, Str(id), Num(user.id), now);
  }

  /** Two approvals of the same message both answer 200 when the first
      does, and the second approver is the one recorded. */
  lemma ApproveMessageTwice(rows: seq<MessageRow>, nextId: int, users: seq<Users.UserRow>,
                            id: string, first: ReqUser, second: ReqUser, t1: nat, t2: nat)
    requires ValidMessages(rows, nextId)
    requires ApproveMessage(rows, users, id, first, t1, None, None).result.status == 200
    ensures var u1 := ApproveMessage(rows, users, id, first, t1, None, None);
            var u2 := ApproveMessage(u1.rows, users, id, second, t2, None, None);
            && u2.result.status == 200
            && FindRow(u2.rows, RowKey(Str(id))).Some?
            && FindRow(u2.rows, RowKey(Str(id))).value.approvedBy == Num(second.id)
  {
    var key := RowKey(Str(id));
    ApproveMessageResponse(rows, nextId, users, id, first, t1);
    var row := FindRow(rows, key).value;
    var u1 := ApproveMessage(rows, users, id, first, t1, None, None);
    assert u1.rows == ApproveRows(rows, row.id, Num(first.id), t1);
    ApproveRowsValid(rows, nextId, row.id, Num(first.id), t1);
    ApproveMessageResponse(u1.rows, nextId, users, id, second, t2);
  }

  /** `DELETE /api/messages/:id`: `Message.reject(id)`. */
  function DeleteMessage(rows: seq<MessageRow>, id: string, fault: Option<DbError>): (u: Update<Response>)
    ensures fault.Some? ==> u.result == Fail500(fault.value.message) && u.rows == rows
    ensures fault.None? ==> u.result.status == 200 || u.result.status == 404
    ensures u.result.success <==> u.result.status == 200
  {
    var s := RejectStep(rows, Str(id), fault);
    Update(s.rows,
           match s.result
           case Failure(e) => Fail500(e.message)
           case Success(false) => Response(404, false, Note(NotFoundNote))
           case Success(true) => Response(200, true, Note(DeletedNote)))
  }

  /** 404 exactly when no pending row has the id, and then nothing is
      deleted; otherwise that row alone is gone and the answer is
      'Message deleted'. */
  lemma DeleteMessageResponse(rows: seq<MessageRow>, nextId: int, id: string)
    requires ValidMessages(rows, nextId)
    ensures var u := DeleteMessage(rows, id, None);
            var found := FindRow(rows, RowKey(Str(id)));
            && (u.result.status == 404 <==> found.None? || found.value.approved != 0)
            && (u.result.status == 404 ==> u.result == Response(404, false, Note(NotFoundNote)) && u.rows == rows)
            && (u.result.status != 404 ==>
                  u.result == Response(200, true, Note(DeletedNote)) && |u.rows| == |rows| - 1
                  && found.value !in u.rows)
  {
    RejectResult(rows, nextId, Str(id));
  }
}
