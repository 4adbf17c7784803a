/** The real-time layer: the presence map `onlineUsers`, the in-flight set
    `processingMessages`, the per-connection `userId`/`isAdmin` fields and
    the socket event handlers that read and change them. Every emit
    appends an event to `log`.

    A handler that awaits is split at its awaits. A step that issues a
    store call performs the call on the table at that point and returns
    what the await will produce; the continuation is a separate method that
    takes that value, so other steps may run in between. An awaited read
    (`User.findById`) is a parameter of the continuation: the caller
    supplies the directory's answer at the time of the read. `finally` is
    the last statement of whichever step returns. */
module Socket {
  import opened Js
  import opened Sql
  import JsMap
  import Users
  import Messages
  import PrivateMessages

  /** An entry of `onlineUsers`. */
  datatype Presence = Presence(socketId: string, username: string, isAdmin: bool, id: int)

  /** An element of the `online_users` list. */
  datatype OnlineUser = OnlineUser(id: int, username: string, isAdmin: bool)

  /** Who an emit goes to: `io.emit` (every socket), `socket.emit` and
      `io.to(socketId)` (one socket, whose own room has its id), or
      `io.to(entry)` with a presence entry object for a room name. */
  datatype Target = Everyone | ToSocket(socketId: string) | ToEntry(entry: Presence)

  /** Socket `sid` receives an event sent to `t`. Rooms are named by
      strings; no socket is in a room named by an object. */
  predicate Reaches(t: Target, sid: string) {
    match t
    case Everyone => true
    case ToSocket(s) => s == sid
    case ToEntry(_) => false
  }

  datatype Payload =
    | OnlineUsers(users: seq<OnlineUser>)
    | Pending(message: Option<Messages.Formatted>)
    | Approved(approved: Messages.Formatted)
    | MessageId(id: JsVal)
    | ErrorBody(error: string)
    | Private(privateMessage: PrivateMessages.PrivateMessage)

  datatype Event = Event(target: Target, name: string, payload: Payload)

  /** The argument of `send_public_message` and `send_private_message`:
      `null`/`undefined`, on which reading a property throws, or an object
      whose missing properties read as `undefined`. */
  datatype MessageArg = NoMessage | MessageObject(sender: JsVal, recipient: JsVal, content: JsVal)

  /** What the `catch` receives when `message.sender` is read on a missing
      argument. */
  const MissingArgError := DbError("TypeError: Cannot read properties of null (reading 'sender')")

  const OnlineUsersEvent := "online_users"
  const PendingApprovalEvent := "pending_approval"
  const SentForApprovalEvent := "message_sent_for_approval"
  const MessageErrorEvent := "message_error"
  const ReceivePrivateEvent := "receive_private_message"
  const PrivateSentEvent := "private_message_sent"
  const ApprovedMessageEvent := "approved_message"
  const ApprovedAdminEvent := "message_approved_admin_notification"
  const RejectedAdminEvent := "message_rejected_admin_notification"

  const UnauthorizedError := "Unauthorized: Not an admin or user ID missing on socket."
  const SendPublicError := "Error sending message"
  const InvalidPartiesError := "Invalid sender or recipient"
  const PrivateFailedError := "Failed to send message"
  const SendPrivateError := "Error sending private message"
  const ApproveNotFoundError := "Message not found, already approved, or approval failed."
  const ApproveServerError := "Server error while approving message."
  const RejectNotFoundError := "Message not found, already processed, or rejection failed."
  const RejectServerError := "Server error while rejecting message."

  /** Every event name the server emits. */
  const ServerEvents: set<string> := {
    OnlineUsersEvent, PendingApprovalEvent, SentForApprovalEvent, MessageErrorEvent,
    ReceivePrivateEvent, PrivateSentEvent, ApprovedMessageEvent, ApprovedAdminEvent, RejectedAdminEvent }

  /** `Array.from(onlineUsers.values()).map(u => ({id, username, isAdmin}))` */
  function OnlineList(m: JsMap.OrderedMap<string, Presence>): (r: seq<OnlineUser>)
    requires JsMap.Valid(m)
    ensures |r| == |m.order|
    ensures forall i :: 0 <= i < |r| ==>
              var p := m.entries[m.order[i]]; r[i] == OnlineUser(p.id, p.username, p.isAdmin)
  {
    ListOf(JsMap.Values(m))
  }

  function ListOf(ps: seq<Presence>): (r: seq<OnlineUser>)
    ensures |r| == |ps|
    ensures forall i :: 0 <= i < |r| ==> r[i] == OnlineUser(ps[i].id, ps[i].username, ps[i].isAdmin)
  {
    if ps == [] then [] else [OnlineUser(ps[0].id, ps[0].username, ps[0].isAdmin)] + ListOf(ps[1..])
  }

  /** The events of `onlineUsers.forEach(a => if (a.isAdmin && a.socketId)
      io.to(a.socketId).emit(name, payload))`, in map order. */
  function AdminNotices(order: seq<string>, entries: map<string, Presence>, name: string, payload: Payload): seq<Event>
    requires forall k :: k in order ==> k in entries
  {
    if order == [] then []
    else
      var p := entries[order[|order| - 1]];
      AdminNotices(order[..|order| - 1], entries, name, payload)
      + if p.isAdmin && p.socketId != "" then [Event(ToSocket(p.socketId), name, payload)] else []
  }

  /** The admin fan-out reaches a socket exactly when an admin entry of
      the map has that socket id, and every event in it carries the given
      name and payload. */
  lemma {:induction false} AdminNoticesReach(order: seq<string>, entries: map<string, Presence>, name: string, payload: Payload, sid: string)
    requires forall k :: k in order ==> k in entries
    ensures forall e :: e in AdminNotices(order, entries, name, payload) ==> e.name == name && e.payload == payload && e.target.ToSocket?
    ensures (exists e :: e in AdminNotices(order, entries, name, payload) && Reaches(e.target, sid))
            <==> exists k :: k in order && entries[k].isAdmin && entries[k].socketId == sid && sid != ""
  {
    if order != [] {
      var init, last := order[..|order| - 1], order[|order| - 1];
      assert order == init + [last];
      assert forall k :: k in init ==> k in order;
      AdminNoticesReach(init, entries, name, payload, sid);
      var p := entries[last];
      if exists k :: k in order && entries[k].isAdmin && entries[k].socketId == sid && sid != "" {
        var k :| k in order && entries[k].isAdmin && entries[k].socketId == sid && sid != "";
        if k == last {
          var e := Event(ToSocket(p.socketId), name, payload);
          assert e in AdminNotices(order, entries, name, payload);
        } else {
          assert k in init;
        }
      }
    }
  }

  /** A socket connection: its id and the fields the handlers set on it
      (`undefined` until `user_connected` finds the user). */
  class Connection {
    const id: string
    var userId: Option<string>
    var isAdmin: bool

    constructor (id: string)
      ensures this.id == id && userId.None? && !isAdmin
    {
      this.id := id;
      userId := None;
      isAdmin := false;
    }
  }

  /** Every `receive_private_message` in the log is addressed to a presence
      entry, as `io.to(onlineUsers.get(...))` addresses it. */
  ghost predicate PrivateToEntries(log: seq<Event>) {
    forall i :: 0 <= i < |log| && log[i].name == ReceivePrivateEvent ==> log[i].target.ToEntry?
  }

  /** Every event in the log has a name from `ServerEvents`. */
  ghost predicate KnownNames(log: seq<Event>) {
    forall i :: 0 <= i < |log| ==> log[i].name in ServerEvents
  }

  /** The process-wide state of the socket server and the tables it uses. */
  class Server {
    var online: JsMap.OrderedMap<string, Presence>
    var processing: set<JsVal>
    var log: seq<Event>
    const users: Users.UserTable
    const messages: Messages.MessageTable
    const privates: PrivateMessages.PrivateMessageTable

    ghost predicate Valid()
      reads this, users, messages, privates
    {
      JsMap.Valid(online) && users.Valid() && messages.Valid() && privates.Valid()
      && PrivateToEntries(log) && KnownNames(log)
    }

    constructor (users: Users.UserTable, messages: Messages.MessageTable, privates: PrivateMessages.PrivateMessageTable)
      requires users.Valid() && messages.Valid() && privates.Valid()
      ensures Valid()
      ensures this.users == users && this.messages == messages && this.privates == privates
      ensures online == JsMap.Empty() && processing == {} && log == []
    {
      this.users := users;
      this.messages := messages;
      this.privates := privates;
      online := JsMap.Empty();
      processing := {};
      log := [];
    }

    /** Appends one event. */
    method Emit(target: Target, name: string, payload: Payload)
      requires Valid() && name in ServerEvents && (name == ReceivePrivateEvent ==> target.ToEntry?)
      modifies this`log
      ensures Valid()
      ensures log == old(log) + [Event(target, name, payload)]
    {
      log := log + [Event(target, name, payload)];
    }

    /** The `forEach` over `onlineUsers` that notifies every admin entry. */
    method NotifyAdmins(name: string, payload: Payload)
      requires Valid() && name in ServerEvents && name != ReceivePrivateEvent
      modifies this`log
      ensures Valid()
      ensures log == old(log) + AdminNotices(online.order, online.entries, name, payload)
    {
      var i := 0;
      while i < |online.order|
        invariant 0 <= i <= |online.order|
        invariant log == old(log) + AdminNotices(online.order[..i], online.entries, name, payload)
        invariant Valid()
      {
        var entry := online.entries[online.order[i]];
        assert online.order[..i + 1][..i] == online.order[..i];
        if entry.isAdmin && entry.socketId != "" {
          Emit(ToSocket(entry.socketId), name, payload);
        }
        i := i + 1;
      }
      assert online.order[..i] == online.order;
    }

    /** `user_connected`, continuing after `User.findById(userId)` answered
        `found` (a falsy `userId` returns before the lookup). */
    method UserConnected(sock: Connection, userId: JsVal, found: Result<Option<Users.UserRow>>)
      requires Valid()
      modifies this`online, this`log, sock
      ensures Valid()
      ensures !Truthy(userId) || found.Failure? || found.value.None? ==>
                && online == old(online) && log == old(log)
                && sock.userId == old(sock.userId) && sock.isAdmin == old(sock.isAdmin)
      ensures Truthy(userId) && found.Success? && found.value.Some? ==>
                var u := found.value.value;
                && sock.userId == Some(DecimalString(u.id))
                && sock.isAdmin == (u.isAdmin == 1)
                && online == JsMap.Set(old(online), DecimalString(u.id), Presence(sock.id, u.username, u.isAdmin == 1, u.id))
                && log == old(log) + [Event(Everyone, OnlineUsersEvent, OnlineUsers(OnlineList(online)))]
    {
      if !Truthy(userId) {
        return;
      }
      if found.Failure? || found.value.None? {
        return;
      }
      var u := found.value.value;
      sock.userId := Some(DecimalString(u.id));
      sock.isAdmin := u.isAdmin == 1;
      online := JsMap.Set(online, DecimalString(u.id), Presence(sock.id, u.username, sock.isAdmin, u.id));
      Emit(Everyone, OnlineUsersEvent, OnlineUsers(OnlineList(online)));
    }

    /** `send_public_message` up to its await: `Message.create` with the
        argument's sender and content, unchecked. A missing argument throws
        while the create's argument is built, so nothing is written and the
        `catch` runs as for a rejected create. */
    method SendPublicBegin(message: MessageArg, now: nat, fault: Option<DbError>, readFault: Option<DbError>)
      returns (created: Result<Option<Messages.Formatted>>)
      requires Valid()
      modifies messages
      ensures Valid()
      ensures message.NoMessage? ==>
                created == Failure(MissingArgError)
                && messages.rows == old(messages.rows) && messages.nextId == old(messages.nextId)
      ensures message.MessageObject? ==>
                var s := Messages.CreateStep(old(messages.rows), old(messages.nextId), users.rows,
                                             message.sender, message.content, now, fault, readFault);
                messages.rows == s.rows && messages.nextId == s.nextId && created == s.result
    {
      if message.NoMessage? {
        return Failure(MissingArgError);
      }
      created := messages.Create(users.rows, message.sender, message.content, now, fault, readFault);
    }

    /** `send_public_message` after `Message.create` answered `created`:
        `pending_approval` to every admin entry, then the new id to the
        sender. A `null` message is still sent to the admins, and reading
        its `id` then throws into the `catch`. A failed create sends only
        `message_error`. */
    method SendPublicResume(sock: Connection, created: Result<Option<Messages.Formatted>>)
      requires Valid()
      modifies this`log
      ensures Valid()
      ensures created.Failure? ==>
                log == old(log) + [Event(ToSocket(sock.id), MessageErrorEvent, ErrorBody(SendPublicError))]
      ensures created.Success? ==>
                var notices := AdminNotices(online.order, online.entries, PendingApprovalEvent, Pending(created.value));
                log == old(log) + notices +
                  if created.value.Some?
                  then [Event(ToSocket(sock.id), SentForApprovalEvent, MessageId(Num(created.value.value.id)))]
                  else [Event(ToSocket(sock.id), MessageErrorEvent, ErrorBody(SendPublicError))]
    {
      if created.Failure? {
        Emit(ToSocket(sock.id), MessageErrorEvent, ErrorBody(SendPublicError));
        return;
      }
      NotifyAdmins(PendingApprovalEvent, Pending(created.value));
      if created.value.None? {
        Emit(ToSocket(sock.id), MessageErrorEvent, ErrorBody(SendPublicError));
      } else {
        Emit(ToSocket(sock.id), SentForApprovalEvent, MessageId(Num(created.value.value.id)));
      }
    }

    /** `send_private_message` after both `User.findById` lookups answered:
        a missing argument throws before the first lookup, a missing sender
        or recipient is refused, otherwise `PrivateMessage.create` is called
        (there is no check that the two differ). The result is what the
        create's await produces, if it ran. */
    method SendPrivateBegin(sock: Connection, message: MessageArg,
                            senderFound: Result<Option<Users.UserRow>>, recipientFound: Result<Option<Users.UserRow>>,
                            now: nat, fault: Option<DbError>, readFault: Option<DbError>)
      returns (created: Option<Result<Option<PrivateMessages.PrivateMessage>>>)
      requires Valid()
      modifies this`log, privates
      ensures Valid()
      ensures message.NoMessage? || senderFound.Failure? || recipientFound.Failure? ==>
                && created.None? && privates.rows == old(privates.rows) && privates.nextId == old(privates.nextId)
                && log == old(log) + [Event(ToSocket(sock.id), MessageErrorEvent, ErrorBody(SendPrivateError))]
      ensures message.MessageObject? && senderFound.Success? && recipientFound.Success?
              && (senderFound.value.None? || recipientFound.value.None?) ==>
                && created.None? && privates.rows == old(privates.rows) && privates.nextId == old(privates.nextId)
                && log == old(log) + [Event(ToSocket(sock.id), MessageErrorEvent, ErrorBody(InvalidPartiesError))]
      ensures message.MessageObject? && senderFound.Success? && recipientFound.Success?
              && senderFound.value.Some? && recipientFound.value.Some? ==>
                var s := PrivateMessages.CreateStep(old(privates.rows), old(privates.nextId), users.rows,
                                                    message.sender, message.recipient, message.content, now, fault, readFault);
                && created == Some(s.result) && privates.rows == s.rows && privates.nextId == s.nextId
                && log == old(log)
    {
      if message.NoMessage? || senderFound.Failure? || recipientFound.Failure? {
        Emit(ToSocket(sock.id), MessageErrorEvent, ErrorBody(SendPrivateError));
        return None;
      }
      if senderFound.value.None? || recipientFound.value.None? {
        Emit(ToSocket(sock.id), MessageErrorEvent, ErrorBody(InvalidPartiesError));
        return None;
      }
      var r := privates.Create(users.rows, message.sender, message.recipient, message.content, now, fault, readFault);
      created := Some(r);
    }

    /** `send_private_message` after `PrivateMessage.create` answered: the
        message goes to `io.to(onlineUsers.get(String(recipient)))` when the
        recipient has an entry, and always back to the sender. */
    method SendPrivateResume(sock: Connection, recipient: JsVal, created: Result<Option<PrivateMessages.PrivateMessage>>)
      requires Valid()
      modifies this`log
      ensures Valid()
      ensures created.Failure? ==>
                log == old(log) + [Event(ToSocket(sock.id), MessageErrorEvent, ErrorBody(SendPrivateError))]
      ensures created == Success(None) ==>
                log == old(log) + [Event(ToSocket(sock.id), MessageErrorEvent, ErrorBody(PrivateFailedError))]
      ensures created.Success? && created.value.Some? ==>
                var m := created.value.value;
                match KeyString(recipient)
                case None => log == old(log) + [Event(ToSocket(sock.id), MessageErrorEvent, ErrorBody(SendPrivateError))]
                case Some(key) =>
                  log == old(log)
                         + (if JsMap.Get(online, key).Some? then [Event(ToEntry(JsMap.Get(online, key).value), ReceivePrivateEvent, Private(m))] else [])
                         + [Event(ToSocket(sock.id), PrivateSentEvent, Private(m))]
    {
      if created.Failure? {
        Emit(ToSocket(sock.id), MessageErrorEvent, ErrorBody(SendPrivateError));
        return;
      }
      if created.value.None? {
        Emit(ToSocket(sock.id), MessageErrorEvent, ErrorBody(PrivateFailedError));
        return;
      }
      var m := created.value.value;
      var key := KeyString(recipient);
      if key.None? {
        Emit(ToSocket(sock.id), MessageErrorEvent, ErrorBody(SendPrivateError));
        return;
      }
      var entry := JsMap.Get(online, key.value);
      if entry.Some? {
        Emit(ToEntry(entry.value), ReceivePrivateEvent, Private(m));
      }
      Emit(ToSocket(sock.id), PrivateSentEvent, Private(m));
    }

    /** `approve_message` up to its await. An unauthorized socket gets
        `message_error`; an id already in flight returns silently; both
        early returns pass through `finally`, which deletes the id from the
        in-flight set. Otherwise the id is marked and `Message.approve` is
        called with the socket's user id. */
    method ApproveBegin(sock: Connection, messageId: JsVal, now: nat, fault: Option<DbError>, readFault: Option<DbError>)
      returns (pending: Option<Result<Option<Messages.Formatted>>>)
      requires Valid()
      modifies this`processing, this`log, messages
      ensures Valid()
      ensures sock.userId.None? || !sock.isAdmin ==>
                && pending.None? && messages.rows == old(messages.rows)
                && processing == old(processing) - {messageId}
                && log == old(log) + [Event(ToSocket(sock.id), MessageErrorEvent, ErrorBody(UnauthorizedError))]
      ensures sock.userId.Some? && sock.isAdmin && messageId in old(processing) ==>
                && pending.None? && messages.rows == old(messages.rows)
                && processing == old(processing) - {messageId}
                && log == old(log)
      ensures sock.userId.Some? && sock.isAdmin && messageId !in old(processing) ==>
                var s := Messages.ApproveStep(old(messages.rows), users.rows, messageId, Str(sock.userId.value), now, fault, readFault);
                && pending == Some(s.result) && messages.rows == s.rows
                && processing == old(processing) + {messageId}
                && log == old(log)
      ensures messages.nextId == old(messages.nextId)
    {
      if sock.userId.None? || !sock.isAdmin {
        Emit(ToSocket(sock.id), MessageErrorEvent, ErrorBody(UnauthorizedError));
        processing := processing - {messageId};
        return None;
      }
      if messageId in processing {
        processing := processing - {messageId};
        return None;
      }
      processing := processing + {messageId};
      var adminId := sock.userId.value;
      var r := messages.Approve(users.rows, messageId, Str(adminId), now, fault, readFault);
      pending := Some(r);
    }

    /** `approve_message` after `Message.approve` answered: success is
        broadcast to every socket and then announced to the admin entries;
        `null` gets `message_error` to the acting socket alone; `finally`
        deletes the id from the in-flight set. */
    method ApproveResume(sock: Connection, messageId: JsVal, approved: Result<Option<Messages.Formatted>>)
      requires Valid()
      modifies this`processing, this`log
      ensures Valid()
      ensures processing == old(processing) - {messageId}
      ensures approved.Failure? ==>
                log == old(log) + [Event(ToSocket(sock.id), MessageErrorEvent, ErrorBody(ApproveServerError))]
      ensures approved == Success(None) ==>
                log == old(log) + [Event(ToSocket(sock.id), MessageErrorEvent, ErrorBody(ApproveNotFoundError))]
      ensures approved.Success? && approved.value.Some? ==>
                log == old(log) + [Event(Everyone, ApprovedMessageEvent, Approved(approved.value.value))]
                       + AdminNotices(online.order, online.entries, ApprovedAdminEvent, MessageId(messageId))
    {
      if approved.Failure? {
        Emit(ToSocket(sock.id), MessageErrorEvent, ErrorBody(ApproveServerError));
      } else if approved.value.Some? {
        Emit(Everyone, ApprovedMessageEvent, Approved(approved.value.value));
        NotifyAdmins(ApprovedAdminEvent, MessageId(messageId));
      } else {
        Emit(ToSocket(sock.id), MessageErrorEvent, ErrorBody(ApproveNotFoundError));
      }
      processing := processing - {messageId};
    }

    /** `reject_message` up to its await, with the same guard as
        `approve_message`; `Message.reject` is called once the id is
        marked. */
    method RejectBegin(sock: Connection, messageId: JsVal, fault: Option<DbError>)
      returns (pending: Option<Result<bool>>)
      requires Valid()
      modifies this`processing, this`log, messages
      ensures Valid()
      ensures sock.userId.None? || !sock.isAdmin ==>
                && pending.None? && messages.rows == old(messages.rows)
                && processing == old(processing) - {messageId}
                && log == old(log) + [Event(ToSocket(sock.id), MessageErrorEvent, ErrorBody(UnauthorizedError))]
      ensures sock.userId.Some? && sock.isAdmin && messageId in old(processing) ==>
                && pending.None? && messages.rows == old(messages.rows)
                && processing == old(processing) - {messageId}
                && log == old(log)
      ensures sock.userId.Some? && sock.isAdmin && messageId !in old(processing) ==>
                var s := Messages.RejectStep(old(messages.rows), messageId, fault);
                && pending == Some(s.result) && messages.rows == s.rows
                && processing == old(processing) + {messageId}
                && log == old(log)
      ensures messages.nextId == old(messages.nextId)
    {
      if sock.userId.None? || !sock.isAdmin {
        Emit(ToSocket(sock.id), MessageErrorEvent, ErrorBody(UnauthorizedError));
        processing := processing - {messageId};
        return None;
      }
      if messageId in processing {
        processing := processing - {messageId};
        return None;
      }
      processing := processing + {messageId};
      var r := messages.Reject(messageId, fault);
      pending := Some(r);
    }

    /** `reject_message` after `Message.reject` answered: a deletion is
        announced to the admin entries only, nothing to the sender;
        `finally` deletes the id from the in-flight set. */
    method RejectResume(sock: Connection, messageId: JsVal, rejected: Result<bool>)
      requires Valid()
      modifies this`processing, this`log
      ensures Valid()
      ensures processing == old(processing) - {messageId}
      ensures rejected.Failure? ==>
                log == old(log) + [Event(ToSocket(sock.id), MessageErrorEvent, ErrorBody(RejectServerError))]
      ensures rejected == Success(false) ==>
                log == old(log) + [Event(ToSocket(sock.id), MessageErrorEvent, ErrorBody(RejectNotFoundError))]
      ensures rejected == Success(true) ==>
                log == old(log) + AdminNotices(online.order, online.entries, RejectedAdminEvent, MessageId(messageId))
    {
      if rejected.Failure? {
        Emit(ToSocket(sock.id), MessageErrorEvent, ErrorBody(RejectServerError));
      } else if rejected.value {
        NotifyAdmins(RejectedAdminEvent, MessageId(messageId));
      } else {
        Emit(ToSocket(sock.id), MessageErrorEvent, ErrorBody(RejectNotFoundError));
      }
      processing := processing - {messageId};
    }

    /** `disconnect`: an identified socket deletes the entry under its user
        id, whichever socket that entry now names, and the new list is
        broadcast; an unidentified socket changes nothing. */
    method Disconnect(sock: Connection)
      requires Valid()
      modifies this`online, this`log
      ensures Valid()
      ensures sock.userId.None? ==> online == old(online) && log == old(log)
      ensures sock.userId.Some? ==>
                && online == JsMap.Delete(old(online), sock.userId.value)
                && log == old(log) + [Event(Everyone, OnlineUsersEvent, OnlineUsers(OnlineList(online)))]
    {
      if sock.userId.Some? {
        online := JsMap.Delete(online, sock.userId.value);
        Emit(Everyone, OnlineUsersEvent, OnlineUsers(OnlineList(online)));
      }
    }

    /** Three admins approve the same message while the first call is
        still awaiting `Message.approve`: the second call finds the id in
        flight and returns, but its `finally` removes the first call's
        marker, so the third call passes the guard and reaches the table
        as well. */
    method DuplicateApproveInFlight(first: Connection, second: Connection, third: Connection,
                                    messageId: JsVal, t1: nat, t3: nat)
      returns (p1: Option<Result<Option<Messages.Formatted>>>,
               p2: Option<Result<Option<Messages.Formatted>>>,
               p3: Option<Result<Option<Messages.Formatted>>>)
      requires Valid() && messageId !in processing
      requires first.userId.Some? && first.isAdmin && second.userId.Some? && second.isAdmin
      requires third.userId.Some? && third.isAdmin
      modifies this`processing, this`log, messages
      ensures Valid()
      ensures p1.Some? && p2.None? && p3.Some?
      ensures log == old(log) && processing == old(processing) + {messageId}
    {
      p1 := ApproveBegin(first, messageId, t1, None, None);
      p2 := ApproveBegin(second, messageId, t1, None, None);
      assert messageId !in processing;
      p3 := ApproveBegin(third, messageId, t3, None, None);
    }
  }

  /** No socket ever receives `receive_private_message`: every such event
      is addressed to an object, which names no room. */
  lemma PrivateNeverDelivered(log: seq<Event>, i: nat, sid: string)
    requires PrivateToEntries(log) && i < |log| && log[i].name == ReceivePrivateEvent
    ensures !Reaches(log[i].target, sid)
  {
  }

  /** The server never emits `message_rejected`. */
  lemma NoMessageRejected(log: seq<Event>, i: nat)
    requires KnownNames(log) && i < |log|
    ensures log[i].name != "message_rejected"
  {
  }
}
