/** The public chat page (`Chat.js`): the approved message list, the
    pending list (the user's own drafts, and for an admin the messages
    awaiting approval), the set of ids an admin action is in flight for,
    and the input box. Socket listeners and click handlers are methods on
    the page; the list reducers they apply are functions. */
module Chat {
  import opened Js
  import opened Seqs
  import opened ClientMessages
  import Socket

  /** The socket events the page listens for, decoded from what arrives. */
  datatype ChatEvent =
    | ApprovedMessage(message: ClientMessage)
    | PendingApproval(message: ClientMessage)
    | MessageRejected(messageId: JsVal)
    | MessageError
    | OnlineUsers(users: seq<Socket.OnlineUser>)
    | Ignored

  /** Which listener a server event reaches: listeners are chosen by event
      name. A `pending_approval` of `null` is not decoded. */
  function Dispatch(e: Socket.Event): (c: ChatEvent)
    ensures c.ApprovedMessage? ==> e.name == Socket.ApprovedMessageEvent
    ensures c.MessageRejected? ==> e.name == MessageRejectedEvent
    ensures c.MessageError? <==> e.name == Socket.MessageErrorEvent
  {
    if e.name == Socket.ApprovedMessageEvent && e.payload.Approved? then ApprovedMessage(FromServer(e.payload.approved))
    else if e.name == Socket.PendingApprovalEvent && e.payload.Pending? && e.payload.message.Some? then
      PendingApproval(FromServer(e.payload.message.value))
    else if e.name == MessageRejectedEvent && e.payload.MessageId? then MessageRejected(e.payload.id)
    else if e.name == Socket.MessageErrorEvent then MessageError
    else if e.name == Socket.OnlineUsersEvent && e.payload.OnlineUsers? then OnlineUsers(e.payload.users)
    else Ignored
  }

  /** The server announces rejections as
      `message_rejected_admin_notification`, so no event it emits ever
      reaches the page's `message_rejected` listener. */
  lemma RejectionNeverDispatched(log: seq<Socket.Event>, i: nat)
    requires Socket.KnownNames(log) && i < |log|
    ensures !Dispatch(log[i]).MessageRejected?
  {
    Socket.NoMessageRejected(log, i);
  }

  /** `message.sender.id === user.id || message.sender._id === user.id` */
  predicate IsOwn(m: ClientMessage, userId: int) {
    StrictEq(m.sender.id, Num(userId)) || StrictEq(m.sender.objectId, Num(userId))
  }

  // ---------------------------------------------------------------------
  // The pending fetch

  /** `msg.id || msg._id`, the key the pending fetch compares. */
  function FetchKey(m: ClientMessage): JsVal {
    Or(m.id, m.objectId)
  }

  function FetchKeys(list: seq<ClientMessage>): set<JsVal> {
    set m | m in list :: FetchKey(m)
  }

  /** What the pending fetch appends to the current list `prev`: the
      fetched entries whose key is not among the keys of `captured`, the
      pending list of the render that started the fetch. */
  function MergeFetched(captured: seq<ClientMessage>, prev: seq<ClientMessage>, fetched: seq<ClientMessage>): (r: seq<ClientMessage>)
    ensures |prev| <= |r| <= |prev| + |fetched|
    ensures r[..|prev|] == prev
    ensures forall x :: x in fetched && FetchKey(x) !in FetchKeys(captured) ==> x in r
    ensures forall x :: x in r ==> x in prev || x in fetched
  {
    prev + Filter(fetched, f => FetchKey(f) !in FetchKeys(captured))
  }

  /** The current list stays in front; after it come exactly the fetched
      entries whose key was not in the captured list, in fetched order. */
  lemma MergeFetchedExact(captured: seq<ClientMessage>, prev: seq<ClientMessage>, fetched: seq<ClientMessage>)
    ensures var r := MergeFetched(captured, prev, fetched);
            && |prev| <= |r| <= |prev| + |fetched|
            && r[..|prev|] == prev
            && (forall x :: x in r[|prev|..] <==> x in fetched && FetchKey(x) !in FetchKeys(captured))
            && multiset(r[|prev|..]) <= multiset(fetched)
  {
    var p := (f: ClientMessage) => FetchKey(f) !in FetchKeys(captured);
    var r := MergeFetched(captured, prev, fetched);
    assert r[|prev|..] == Filter(fetched, p);
    FilterIsSubsequence(fetched, p);
  }

  lemma {:induction false} FilterNothing(s: seq<ClientMessage>, p: ClientMessage -> bool)
    requires forall x :: x in s ==> p(x)
    ensures Filter(s, p) == s
  {
    if s != [] {
      FilterNothing(s[1..], p);
    }
  }

  /** The fetch runs when the page mounts, when the captured pending list
      is empty: nothing is filtered, so a message that already arrived by
      `pending_approval` is appended a second time. */
  lemma MergeFetchedAtMount(prev: seq<ClientMessage>, fetched: seq<ClientMessage>)
    ensures MergeFetched([], prev, fetched) == prev + fetched
  {
    assert FetchKeys([]) == {};
    FilterNothing(fetched, f => FetchKey(f) !in FetchKeys([]));
  }

  /** The page's state. `connected` says whether the mount effect has
      created the socket; `sent` records what the page emitted. */
  class ChatPage {
    const user: ClientUser
    const connected: bool
    var messages: seq<ClientMessage>
    var pending: seq<ClientMessage>
    var processing: set<JsVal>
    var online: seq<Socket.OnlineUser>
    var newMessage: string
    var sent: seq<Request>

    /** Mounting: empty lists, and `user_connected` with the user's id once
        the socket exists. */
    constructor (user: ClientUser, connected: bool)
      ensures this.user == user && this.connected == connected
      ensures messages == [] && pending == [] && processing == {} && online == [] && newMessage == ""
      ensures sent == if connected then [Emit(UserConnectedEvent, UserIdArg(Num(user.id)))] else []
    {
      this.user := user;
      this.connected := connected;
      messages := [];
      pending := [];
      processing := {};
      online := [];
      newMessage := "";
      sent := if connected then [Emit(UserConnectedEvent, UserIdArg(Num(user.id)))] else [];
    }

    /** The `approved_message` listener: the message is appended unless an
        entry matches it; for the user's own message the pending entries
        it matches are dropped; its `id` and `_id` leave the in-flight set. */
    method OnApprovedMessage(m: ClientMessage)
      modifies this`messages, this`pending, this`processing
      ensures messages == AppendNew(old(messages), m)
      ensures pending == if IsOwn(m, user.id) then DropApproved(old(pending), m) else old(pending)
      ensures processing == old(processing) - {m.id, m.objectId}
      ensures m.id !in processing
    {
      messages := AppendNew(messages, m);
      if IsOwn(m, user.id) {
        pending := DropApproved(pending, m);
      }
      processing := processing - {m.id, m.objectId};
    }

    /** The `pending_approval` listener, registered for admins only. */
    method OnPendingApproval(m: ClientMessage)
      modifies this`pending
      ensures pending == if user.isAdmin then AppendNew(old(pending), m) else old(pending)
    {
      if user.isAdmin {
        pending := AppendNew(pending, m);
      }
    }

    /** The `message_rejected` listener. */
    method OnMessageRejected(messageId: JsVal)
      modifies this`pending, this`processing
      ensures pending == DropId(old(pending), messageId)
      ensures processing == old(processing) - {messageId}
    {
      pending := DropId(pending, messageId);
      processing := processing - {messageId};
    }

    /** The `message_error` listener forgets every in-flight id. */
    method OnMessageError()
      modifies this`processing
      ensures processing == {}
    {
      processing := {};
    }

    /** Hands a decoded event to its listener. */
    method Receive(e: ChatEvent)
      modifies this`messages, this`pending, this`processing, this`online
      ensures e.ApprovedMessage? ==>
                && messages == AppendNew(old(messages), e.message)
                && pending == (if IsOwn(e.message, user.id) then DropApproved(old(pending), e.message) else old(pending))
                && processing == old(processing) - {e.message.id, e.message.objectId}
                && online == old(online)
      ensures e.PendingApproval? ==>
                && messages == old(messages) && processing == old(processing) && online == old(online)
                && pending == (if user.isAdmin then AppendNew(old(pending), e.message) else old(pending))
      ensures e.MessageRejected? ==>
                && messages == old(messages) && online == old(online)
                && pending == DropId(old(pending), e.messageId) && processing == old(processing) - {e.messageId}
      ensures e.MessageError? ==>
                messages == old(messages) && pending == old(pending) && online == old(online) && processing == {}
      ensures e.OnlineUsers? ==>
                messages == old(messages) && pending == old(pending) && processing == old(processing) && online == e.users
      ensures e.Ignored? ==>
                messages == old(messages) && pending == old(pending) && processing == old(processing) && online == old(online)
    {
      match e
      case ApprovedMessage(m) => OnApprovedMessage(m);
      case PendingApproval(m) => OnPendingApproval(m);
      case MessageRejected(id) => OnMessageRejected(id);
      case MessageError => OnMessageError();
      case OnlineUsers(us) => online := us;
      case Ignored =>
    }

    /** `fetchMessages` after `GET /api/messages` settled: a successful
        reply replaces the message list; a failure is only logged. */
    method FetchMessagesResume(reply: Reply)
      modifies this`messages
      ensures Succeeded(reply) && reply.value.body.MessageList? ==>
                messages == FromServerAll(reply.value.body.messages)
      ensures !(Succeeded(reply) && reply.value.body.MessageList?) ==> messages == old(messages)
    {
      if Succeeded(reply) && reply.value.body.MessageList? {
        messages := FromServerAll(reply.value.body.messages);
      }
    }

    /** `fetchPendingMessages` (started for an admin only) after
        `GET /api/messages/pending` settled; `captured` is the pending list
        of the render that started it. */
    method FetchPendingResume(captured: seq<ClientMessage>, reply: Reply)
      modifies this`pending
      ensures user.isAdmin && Succeeded(reply) && reply.value.body.MessageList? ==>
                pending == MergeFetched(captured, old(pending), FromServerAll(reply.value.body.messages))
      ensures !(user.isAdmin && Succeeded(reply) && reply.value.body.MessageList?) ==> pending == old(pending)
    {
      if user.isAdmin && Succeeded(reply) && reply.value.body.MessageList? {
        pending := MergeFetched(captured, pending, FromServerAll(reply.value.body.messages));
      }
    }

    /** `sendMessage`: a blank input does nothing. Otherwise the trimmed
        text is emitted with the user's id as sender, one pending entry
        with a temporary id, the user as sender and `isPending` set is
        appended, and the input is cleared. Without a socket the emit
        throws and nothing changes. */
    method SendMessage(tempId: string)
      modifies this`pending, this`newMessage, this`sent
      ensures Draft(old(newMessage)).None? || !connected ==>
                pending == old(pending) && newMessage == old(newMessage) && sent == old(sent)
      ensures Draft(old(newMessage)).Some? && connected ==>
                var text := Draft(old(newMessage)).value;
                && sent == old(sent) + [Emit(SendPublicEvent, PublicDraft(Num(user.id), Str(text)))]
                && pending == old(pending) + [ClientMessage(Str(tempId), Undefined, SenderRef(Num(user.id), Undefined), Str(text), true)]
                && newMessage == ""
    {
      var draft := Draft(newMessage);
      if draft.None? || !connected {
        return;
      }
      sent := sent + [Emit(SendPublicEvent, PublicDraft(Num(user.id), Str(draft.value)))];
      pending := pending + [ClientMessage(Str(tempId), Undefined, SenderRef(Num(user.id), Undefined), Str(draft.value), true)];
      newMessage := "";
    }

    /** `approveMessage`: for an admin with a socket the id is marked in
        flight and then `approve_message` is emitted; otherwise nothing. */
    method ApproveMessage(messageId: JsVal)
      modifies this`processing, this`sent
      ensures !user.isAdmin || !connected ==> processing == old(processing) && sent == old(sent)
      ensures user.isAdmin && connected ==>
                processing == old(processing) + {messageId}
                && sent == old(sent) + [Emit(ApproveEvent, MessageIdArg(messageId))]
    {
      if !user.isAdmin || !connected {
        return;
      }
      processing := processing + {messageId};
      sent := sent + [Emit(ApproveEvent, MessageIdArg(messageId))];
    }

    /** `rejectMessage`, the same with `reject_message`. */
    method RejectMessage(messageId: JsVal)
      modifies this`processing, this`sent
      ensures !user.isAdmin || !connected ==> processing == old(processing) && sent == old(sent)
      ensures user.isAdmin && connected ==>
                processing == old(processing) + {messageId}
                && sent == old(sent) + [Emit(RejectEvent, MessageIdArg(messageId))]
    {
      if !user.isAdmin || !connected {
        return;
      }
      processing := processing + {messageId};
      sent := sent + [Emit(RejectEvent, MessageIdArg(messageId))];
    }
  }

  // ---------------------------------------------------------------------
  // What the reducers do to lists of server messages

  /** For lists of server messages (no `_id`): an approved message joins
      the message list only when the list is empty, and when it is the
      user's own it empties the pending list. */
  lemma ApprovedServerMessage(messages: seq<ClientMessage>, pending: seq<ClientMessage>, m: ClientMessage)
    requires NoObjectIds(messages) && NoObjectIds(pending) && m.objectId == Undefined
    ensures AppendNew(messages, m) == if messages == [] then [m] else messages
    ensures DropApproved(pending, m) == []
  {
    AppendNewWithoutObjectIds(messages, m);
    DropApprovedClears(pending, m);
  }

  /** A draft entry has no `_id`, so the pending list of a page fed only
      by server messages and drafts never has one. */
  lemma DraftEntryWithoutObjectId(pending: seq<ClientMessage>, tempId: string, userId: int, text: string)
    requires NoObjectIds(pending)
    ensures NoObjectIds(pending + [ClientMessage(Str(tempId), Undefined, SenderRef(Num(userId), Undefined), Str(text), true)])
  {
  }
}
