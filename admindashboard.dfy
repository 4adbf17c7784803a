/** The admin dashboard (`AdminDashboard.js`): the list of messages
    awaiting approval, the user list with the admin toggle, and the
    approve and delete buttons, each of which emits the socket event and
    also calls the REST route. */
module AdminDashboard {
  import opened Js
  import opened ClientMessages
  import Http
  import Socket

  /** The socket events the dashboard listens for. */
  datatype DashboardEvent =
    | PendingApproval(message: ClientMessage)
    | MessageRejected(messageId: JsVal)
    | ApprovedMessage(message: ClientMessage)
    | Ignored

  function Dispatch(e: Socket.Event): (d: DashboardEvent)
    ensures d.MessageRejected? ==> e.name == MessageRejectedEvent
    ensures d.PendingApproval? ==> e.name == Socket.PendingApprovalEvent
  {
    if e.name == Socket.PendingApprovalEvent && e.payload.Pending? && e.payload.message.Some? then
      PendingApproval(FromServer(e.payload.message.value))
    else if e.name == MessageRejectedEvent && e.payload.MessageId? then MessageRejected(e.payload.id)
    else if e.name == Socket.ApprovedMessageEvent && e.payload.Approved? then ApprovedMessage(FromServer(e.payload.approved))
    else Ignored
  }

  /** No event of the server reaches the dashboard's `message_rejected`
      listener. */
  lemma RejectionNeverDispatched(log: seq<Socket.Event>, i: nat)
    requires Socket.KnownNames(log) && i < |log|
    ensures !Dispatch(log[i]).MessageRejected?
  {
    Socket.NoMessageRejected(log, i);
  }

  const LoadError := "Error loading data"

  /** `users.map(u => u.id === userId ? {...u, isAdmin: !isAdmin} : u)` */
  function ToggleUsers(users: seq<Http.UserView>, userId: JsVal, isAdmin: bool): (r: seq<Http.UserView>)
    ensures |r| == |users|
  {
    if users == [] then []
    else [if StrictEq(Num(users[0].id), userId) then users[0].(isAdmin := !isAdmin) else users[0]]
         + ToggleUsers(users[1..], userId, isAdmin)
  }

  /** The user with the id gets `isAdmin` set to the negation of the flag
      the button passed; every other user is unchanged. */
  lemma {:induction false} ToggleUsersExact(users: seq<Http.UserView>, userId: JsVal, isAdmin: bool)
    ensures var r := ToggleUsers(users, userId, isAdmin);
            forall i :: 0 <= i < |users| ==>
              r[i] == if StrictEq(Num(users[i].id), userId) then users[i].(isAdmin := !isAdmin) else users[i]
  {
    if users != [] {
      ToggleUsersExact(users[1..], userId, isAdmin);
      var r := ToggleUsers(users, userId, isAdmin);
      forall i | 1 <= i < |users| ensures r[i] == ToggleUsers(users[1..], userId, isAdmin)[i - 1] {
      }
    }
  }

  /** When the button passes the user's current flag, as the page does,
      the toggle flips that user's role and no other. */
  lemma ToggleFlips(users: seq<Http.UserView>, i: nat)
    requires i < |users|
    requires forall j :: 0 <= j < |users| && j != i ==> users[j].id != users[i].id
    ensures var r := ToggleUsers(users, Num(users[i].id), users[i].isAdmin);
            && r[i].isAdmin == !users[i].isAdmin && r[i].id == users[i].id && r[i].username == users[i].username
            && forall j :: 0 <= j < |users| && j != i ==> r[j] == users[j]
  {
    ToggleUsersExact(users, Num(users[i].id), users[i].isAdmin);
  }

  /** The dashboard's state; `connected` says whether the mount effect has
      created the socket, which it does for an admin only. */
  class AdminPage {
    const user: ClientUser
    const connected: bool
    var pending: seq<ClientMessage>
    var users: seq<Http.UserView>
    var error: string
    var sent: seq<Request>

    constructor (user: ClientUser, mounted: bool)
      ensures this.user == user && connected == (mounted && user.isAdmin)
      ensures pending == [] && users == [] && error == ""
      ensures sent == if connected then [Emit(UserConnectedEvent, UserIdArg(Num(user.id)))] else []
    {
      this.user := user;
      connected := mounted && user.isAdmin;
      pending := [];
      users := [];
      error := "";
      sent := if mounted && user.isAdmin then [Emit(UserConnectedEvent, UserIdArg(Num(user.id)))] else [];
    }

    /** The listeners: a pending message is appended with no duplicate
        check; a rejection and an approval filter the list. */
    method Receive(e: DashboardEvent)
      modifies this`pending
      ensures e.PendingApproval? ==> pending == old(pending) + [e.message]
      ensures e.MessageRejected? ==> pending == DropId(old(pending), e.messageId)
      ensures e.ApprovedMessage? ==> pending == DropApproved(old(pending), e.message)
      ensures e.Ignored? ==> pending == old(pending)
    {
      match e
      case PendingApproval(m) => pending := pending + [m];
      case MessageRejected(id) => pending := DropId(pending, id);
      case ApprovedMessage(m) => pending := DropApproved(pending, m);
      case Ignored =>
    }

    /** `fetchData` after `GET /api/messages/pending` settled: the list is
        replaced by the fetched one. A failed request sets the error and
        ends the fetch; otherwise `next` says the users are fetched next. */
    method FetchPendingResume(reply: Reply) returns (next: bool)
      modifies this`pending, this`error
      ensures next <==> !Throws(reply)
      ensures Throws(reply) ==> error == LoadError && pending == old(pending)
      ensures !Throws(reply) ==>
                error == old(error)
                && pending == if reply.value.success && reply.value.body.MessageList?
                              then FromServerAll(reply.value.body.messages) else old(pending)
    {
      if Throws(reply) {
        error := LoadError;
        return false;
      }
      if reply.value.success && reply.value.body.MessageList? {
        pending := FromServerAll(reply.value.body.messages);
      }
      return true;
    }

    /** `fetchData` after `GET /api/users` settled. */
    method FetchUsersResume(reply: Reply)
      modifies this`users, this`error
      ensures Throws(reply) ==> error == LoadError && users == old(users)
      ensures !Throws(reply) ==>
                error == old(error)
                && users == if reply.value.success && reply.value.body.UserList?
                            then reply.value.body.users else old(users)
    {
      if Throws(reply) {
        error := LoadError;
        return;
      }
      if reply.value.success && reply.value.body.UserList? {
        users := reply.value.body.users;
      }
    }

    /** `handleApproveMessage` up to its await: without a socket nothing
        happens; otherwise `approve_message` is emitted and then
        `PUT /api/messages/:id/approve` is sent. */
    method ApproveBegin(messageId: JsVal) returns (started: bool)
      modifies this`sent
      ensures started == connected
      ensures !connected ==> sent == old(sent)
      ensures connected ==>
                sent == old(sent) + [Emit(ApproveEvent, MessageIdArg(messageId)),
                                     Put("/api/messages/" + TemplateString(messageId) + "/approve", None)]
    {
      if !connected {
        return false;
      }
      sent := sent + [Emit(ApproveEvent, MessageIdArg(messageId))];
      sent := sent + [Put("/api/messages/" + TemplateString(messageId) + "/approve", None)];
      return true;
    }

    /** After the REST reply: the entry is removed only when the request
        succeeded; an error is only logged. */
    method ApproveResume(messageId: JsVal, reply: Reply)
      modifies this`pending
      ensures pending == if Succeeded(reply) then DropId(old(pending), messageId) else old(pending)
    {
      if Succeeded(reply) {
        pending := DropId(pending, messageId);
      }
    }

    /** `handleDeleteMessage` up to its await: `reject_message` and then
        `DELETE /api/messages/:id`. */
    method DeleteBegin(messageId: JsVal) returns (started: bool)
      modifies this`sent
      ensures started == connected
      ensures !connected ==> sent == old(sent)
      ensures connected ==>
                sent == old(sent) + [Emit(RejectEvent, MessageIdArg(messageId)),
                                     Delete("/api/messages/" + TemplateString(messageId))]
    {
      if !connected {
        return false;
      }
      sent := sent + [Emit(RejectEvent, MessageIdArg(messageId))];
      sent := sent + [Delete("/api/messages/" + TemplateString(messageId))];
      return true;
    }

    method DeleteResume(messageId: JsVal, reply: Reply)
      modifies this`pending
      ensures pending == if Succeeded(reply) then DropId(old(pending), messageId) else old(pending)
    {
      if Succeeded(reply) {
        pending := DropId(pending, messageId);
      }
    }

    /** `handleToggleAdmin` up to its await: `PUT /api/users/:id` with
        `{isAdmin: !isAdmin}`. */
    method ToggleAdminBegin(userId: JsVal, isAdmin: bool)
      modifies this`sent
      ensures sent == old(sent) + [Put("/api/users/" + TemplateString(userId), Some(!isAdmin))]
    {
      sent := sent + [Put("/api/users/" + TemplateString(userId), Some(!isAdmin))];
    }

    /** After the reply: on success the matching user's flag is set to
        `!isAdmin`. */
    method ToggleAdminResume(userId: JsVal, isAdmin: bool, reply: Reply)
      modifies this`users
      ensures users == if Succeeded(reply) then ToggleUsers(old(users), userId, isAdmin) else old(users)
    {
      if Succeeded(reply) {
        users := ToggleUsers(users, userId, isAdmin);
      }
    }
  }
}
