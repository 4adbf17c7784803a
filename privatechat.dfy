/** The private chat page (`PrivateChat.js`) for the conversation with the
    user named by the route's `userId`: the fetched conversation sorted
    oldest first, incoming messages normalised and kept only when they
    belong to this conversation, optimistic sends, and the display rule
    for one's own messages. */
module PrivateChat {
  import opened Js
  import opened Seqs
  import opened ClientMessages
  import opened Sql
  import PrivateMessages
  import Users
  import Http
  import UserController

  /** A `sender` or `recipient` key: a plain value (an id, or nothing), or
      an object with `id` and `username`. Objects are never compared with
      each other on this page, so their identity is not kept. */
  datatype Field = Plain(v: JsVal) | Record(id: JsVal, username: JsVal)

  /** `message.sender` as a value; any object stands for the record. */
  function FieldValue(f: Field): JsVal {
    match f
    case Plain(v) => v
    case Record(_, _) => Obj(0)
  }

  /** `message.sender?.id`: a primitive has no `id` property. */
  function FieldId(f: Field): JsVal {
    match f
    case Plain(_) => Undefined
    case Record(id, _) => id
  }

  function FieldUsername(f: Field): JsVal {
    match f
    case Plain(_) => Undefined
    case Record(_, name) => name
  }

  /** A private message as the page receives or holds it: `id`, `_id`,
      the `sender`/`recipient` keys with their flat alternatives
      (`senderId`, `senderUsername`, ...), `content` and `createdAt`. */
  datatype Entry = Entry(
    id: JsVal,
    objectId: JsVal,
    sender: Field,
    senderId: JsVal,
    senderUsername: JsVal,
    recipient: Field,
    recipientId: JsVal,
    recipientUsername: JsVal,
    content: JsVal,
    createdAt: nat)

  /** A message of `getConversation`, with `sender` and `recipient` as
      `{id, username}` objects. */
  function FromServer(m: PrivateMessages.PrivateMessage): (e: Entry)
    ensures e.sender.Record? && e.recipient.Record? && e.objectId == Undefined
    ensures e.id == Num(m.id) && FieldId(e.sender) == m.sender.id && FieldId(e.recipient) == m.recipient.id
    ensures e.content == m.content && e.createdAt == m.createdAt
  {
    Entry(Num(m.id), Undefined,
          Record(m.sender.id, Str(m.sender.username)), Undefined, Undefined,
          Record(m.recipient.id, Str(m.recipient.username)), Undefined, Undefined,
          m.content, m.createdAt)
  }

  function FromServerAll(ms: seq<PrivateMessages.PrivateMessage>): (r: seq<Entry>)
    ensures |r| == |ms|
    ensures forall i :: 0 <= i < |ms| ==> r[i] == FromServer(ms[i])
  {
    if ms == [] then [] else [FromServer(ms[0])] + FromServerAll(ms[1..])
  }

  function CreatedAt(e: Entry): int { e.createdAt }

  // ---------------------------------------------------------------------
  // Incoming messages

  /** The normalised copy: `sender` becomes `{id: sender?.id || sender ||
      senderId, username: senderUsername || sender?.username}`, and the
      recipient likewise; every other key is kept. */
  function Normalize(m: Entry): (n: Entry)
    ensures n.sender.Record? && n.recipient.Record?
    ensures n.id == m.id && n.content == m.content && n.createdAt == m.createdAt
  {
    m.(sender := Record(Or(Or(FieldId(m.sender), FieldValue(m.sender)), m.senderId),
                        Or(m.senderUsername, FieldUsername(m.sender))),
       recipient := Record(Or(Or(FieldId(m.recipient), FieldValue(m.recipient)), m.recipientId),
                           Or(m.recipientUsername, FieldUsername(m.recipient))))
  }

  /** The three shapes a sender can come in all give the same id: a nested
      object with a truthy `id`, a plain truthy id, or only a flat
      `senderId` (with `sender` absent). */
  lemma NormalizeShapes(m: Entry, v: JsVal)
    requires Truthy(v)
    ensures Normalize(m.(sender := Record(v, Undefined))).sender.id == v
    ensures Normalize(m.(sender := Plain(v))).sender.id == v
    ensures Normalize(m.(sender := Plain(Undefined), senderId := v)).sender.id == v
    ensures Normalize(m.(sender := Plain(Undefined), senderId := Undefined)).sender.id == Undefined
  {
  }

  /** The test of the `receive_private_message` listener: the sender id is
      parsed with `parseInt`, the recipient id is compared as it is. */
  predicate Belongs(userIdParam: string, me: int, n: Entry)
    ensures Belongs(userIdParam, me, n) ==> FieldId(n.recipient).Num? && ParseInt(FieldId(n.sender)).Num?
  {
    var recipientId := ParseInt(Str(userIdParam));
    var senderId := ParseInt(FieldId(n.sender));
    var currentUserId := ParseInt(Num(me));
    (StrictEq(senderId, recipientId) && StrictEq(FieldId(n.recipient), currentUserId))
    || (StrictEq(senderId, currentUserId) && StrictEq(FieldId(n.recipient), recipientId))
  }

  /** With the route naming user `p` and numeric ids on both sides, a
      message belongs here exactly when it goes from `p` to me or from me
      to `p`. */
  lemma BelongsExact(partner: int, me: int, n: Entry, s: int, r: int)
    requires FieldId(n.sender) == Num(s) && FieldId(n.recipient) == Num(r)
    ensures Belongs(DecimalString(partner), me, n) <==> (s == partner && r == me) || (s == me && r == partner)
  {
    ParseIntDecimal(partner);
  }

  /** A sender id given as a decimal string is parsed, so it counts as the
      number it names. */
  lemma BelongsStringSender(partner: int, me: int, n: Entry, s: int, r: int)
    requires FieldId(n.sender) == Str(DecimalString(s)) && FieldId(n.recipient) == Num(r)
    ensures Belongs(DecimalString(partner), me, n) <==> (s == partner && r == me) || (s == me && r == partner)
  {
    ParseIntDecimal(partner);
    ParseIntDecimal(s);
  }

  /** A recipient id that is not a number, such as the string `"5"`, is
      never `===` a parsed id: the message is ignored whoever sent it. */
  lemma NonNumericRecipientIgnored(userIdParam: string, me: int, n: Entry)
    requires !FieldId(n.recipient).Num?
    ensures !Belongs(userIdParam, me, n)
  {
  }

  // ---------------------------------------------------------------------
  // Display

  /** What `formatMessage` returns. */
  datatype Display = Display(id: JsVal, isOwnMessage: bool, content: JsVal, createdAt: nat)

  /** `formatMessage`: the id is `id || _id`; the message is one's own when
      `parseInt(sender?.id || sender) === parseInt(user.id)`. */
  function FormatMessage(m: Entry, me: int): (d: Display)
    ensures d.isOwnMessage <==> ParseInt(Or(FieldId(m.sender), FieldValue(m.sender))) == Num(me)
    ensures d.id == Or(m.id, m.objectId) && d.content == m.content && d.createdAt == m.createdAt
  {
    var senderId := Or(FieldId(m.sender), FieldValue(m.sender));
    Display(Or(m.id, m.objectId), StrictEq(ParseInt(senderId), ParseInt(Num(me))), m.content, m.createdAt)
  }

  /** A sender given as a number, or as its decimal string, nested or
      plain, is one's own exactly when it is the user's id; a sender object
      with a falsy id parses as NaN and is never one's own. */
  lemma OwnExact(m: Entry, me: int, k: int)
    ensures m.sender.Record? && m.sender.id == Num(k) && k != 0 ==> (FormatMessage(m, me).isOwnMessage <==> k == me)
    ensures m.sender == Plain(Num(k)) && k != 0 ==> (FormatMessage(m, me).isOwnMessage <==> k == me)
    ensures m.sender.Record? && m.sender.id == Str(DecimalString(k)) ==>
              (FormatMessage(m, me).isOwnMessage <==> k == me)
    ensures m.sender.Record? && !Truthy(m.sender.id) ==> !FormatMessage(m, me).isOwnMessage
  {
    ParseIntDecimal(k);
    assert DecimalString(k) != [];
  }

  // ---------------------------------------------------------------------
  // Fetching

  /** `error.response?.data?.message || ''` */
  function ReplyNote(reply: Reply): string {
    if reply.None? then ""
    else match reply.value.body
      case Note(n) => n
      case ServerError(_) => Http.ServerErrorNote
      case _ => ""
  }

  const LoadErrorPrefix := "Error loading data. "
  const UserNotFound := "User not found"

  /** A partner who is no user gets a 404 from `GET /api/users/chat/:id`;
      `axios` throws, so the page shows the prefixed server note, never its
      own 'User not found' branch. */
  lemma MissingPartnerMessage(rows: seq<Users.UserRow>, id: string)
    requires Users.FindById(rows, RowKey(Str(id))).None?
    ensures var reply: Reply := Some(UserController.GetUserById(rows, id, None));
            Throws(reply) && ReplyNote(reply) == UserController.UserNotFoundNote
  {
    var r := UserController.GetUserById(rows, id, None);
    assert r == Http.Response(404, false, Http.Note(UserController.UserNotFoundNote));
  }
  const SendErrorDefault := "Error sending message"

  /** The fetched conversation as shown: oldest first, ties in the order
      fetched. */
  function Sorted(ms: seq<PrivateMessages.PrivateMessage>): (r: seq<Entry>)
    ensures |r| == |ms|
    ensures multiset(r) == multiset(FromServerAll(ms))
  {
    SortBy(FromServerAll(ms), CreatedAt)
  }

  /** The shown list is the fetched list rearranged, oldest first. */
  lemma SortedOldestFirst(ms: seq<PrivateMessages.PrivateMessage>)
    ensures |Sorted(ms)| == |ms|
    ensures SortedBy(Sorted(ms), CreatedAt)
    ensures multiset(Sorted(ms)) == multiset(FromServerAll(ms))
  {
    SortBySorted(FromServerAll(ms), CreatedAt);
  }

  /** The page's state for the conversation with `userIdParam`. */
  class PrivateChatPage {
    const user: ClientUser
    const userIdParam: string
    const connected: bool
    var recipientUser: Option<Http.UserView>
    var messages: seq<Entry>
    var newMessage: string
    var error: string
    var loading: bool
    var sent: seq<Request>

    /** Mounting with a route id: the socket is created and
        `user_connected` is emitted; without one nothing starts. */
    constructor (user: ClientUser, userIdParam: string, mounted: bool)
      ensures this.user == user && this.userIdParam == userIdParam
      ensures connected == (mounted && userIdParam != "")
      ensures recipientUser.None? && messages == [] && newMessage == "" && error == "" && loading
      ensures sent == if connected then [Emit(UserConnectedEvent, UserIdArg(Num(user.id)))] else []
    {
      this.user := user;
      this.userIdParam := userIdParam;
      connected := mounted && userIdParam != "";
      recipientUser := None;
      messages := [];
      newMessage := "";
      error := "";
      loading := true;
      sent := if mounted && userIdParam != "" then [Emit(UserConnectedEvent, UserIdArg(Num(user.id)))] else [];
    }

    /** `fetchData` after `GET /api/users/chat/:userId` settled. A thrown
        request shows the reply's message after the prefix (so a missing
        user reads 'Error loading data. User not found'); a resolved reply
        without `success` shows 'User not found'; either ends the fetch.
        Otherwise the user is kept and `next` says the conversation is
        fetched next. */
    method FetchUserResume(reply: Reply) returns (next: bool)
      modifies this`recipientUser, this`error, this`loading
      ensures next <==> Succeeded(reply)
      ensures Throws(reply) ==> error == LoadErrorPrefix + ReplyNote(reply) && !loading && recipientUser == old(recipientUser)
      ensures !Throws(reply) && !reply.value.success ==> error == UserNotFound && !loading && recipientUser == old(recipientUser)
      ensures Succeeded(reply) ==>
                && error == old(error) && loading == old(loading)
                && recipientUser == if reply.value.body.OneUser? then Some(reply.value.body.user) else None
    {
      if Throws(reply) {
        error := LoadErrorPrefix + ReplyNote(reply);
        loading := false;
        return false;
      }
      if !reply.value.success {
        error := UserNotFound;
        loading := false;
        return false;
      }
      recipientUser := if reply.value.body.OneUser? then Some(reply.value.body.user) else None;
      return true;
    }

    /** `fetchData` after `GET /api/messages/private/:userId` settled: a
        successful reply's `messages`, sorted oldest first, replace the
        list. A successful reply without them makes `.sort` throw, which
        the `catch` reports with no note. */
    method FetchMessagesResume(reply: Reply)
      modifies this`messages, this`error, this`loading
      ensures !loading
      ensures Throws(reply) ==> error == LoadErrorPrefix + ReplyNote(reply) && messages == old(messages)
      ensures Succeeded(reply) && reply.value.body.ConversationPage? ==>
                messages == Sorted(reply.value.body.conversation) && error == old(error)
      ensures Succeeded(reply) && !reply.value.body.ConversationPage? ==>
                error == LoadErrorPrefix && messages == old(messages)
      ensures !Throws(reply) && !reply.value.success ==> messages == old(messages) && error == old(error)
    {
      if Throws(reply) {
        error := LoadErrorPrefix + ReplyNote(reply);
      } else if reply.value.success {
        if reply.value.body.ConversationPage? {
          messages := Sorted(reply.value.body.conversation);
        } else {
          error := LoadErrorPrefix;
        }
      }
      loading := false;
    }

    /** The `receive_private_message` listener: the normalised message is
        appended exactly when it belongs to this conversation. */
    method OnReceive(m: Entry)
      modifies this`messages
      ensures Belongs(userIdParam, user.id, Normalize(m)) ==> messages == old(messages) + [Normalize(m)]
      ensures !Belongs(userIdParam, user.id, Normalize(m)) ==> messages == old(messages)
    {
      var normalized := Normalize(m);
      if Belongs(userIdParam, user.id, normalized) {
        messages := messages + [normalized];
      }
    }

    /** The `message_error` listener shows the error, or a default when it
        is empty. */
    method OnMessageError(errorText: string)
      modifies this`error
      ensures error == if errorText != "" then errorText else SendErrorDefault
    {
      error := if errorText != "" then errorText else SendErrorDefault;
    }

    /** `sendMessage`: nothing for a blank input or before the recipient is
        known. Otherwise the trimmed text is emitted to
        `parseInt(userId)`, one optimistic message from the user is
        appended, and the input is cleared. Without a socket the emit
        throws and nothing changes. */
    method SendMessage(tempId: string, now: nat)
      modifies this`messages, this`newMessage, this`sent
      ensures Draft(old(newMessage)).None? || recipientUser.None? || !connected ==>
                messages == old(messages) && newMessage == old(newMessage) && sent == old(sent)
      ensures Draft(old(newMessage)).Some? && recipientUser.Some? && connected ==>
                var text := Draft(old(newMessage)).value;
                var to := ParseInt(Str(userIdParam));
                && sent == old(sent) + [Emit(SendPrivateEvent, PrivateDraft(Num(user.id), to, Str(text)))]
                && messages == old(messages) + [Optimistic(tempId, user, to, Str(recipientUser.value.username), text, now)]
                && newMessage == ""
    {
      var draft := Draft(newMessage);
      if draft.None? || recipientUser.None? || !connected {
        return;
      }
      var to := ParseInt(Str(userIdParam));
      var optimistic := Optimistic(tempId, user, to, Str(recipientUser.value.username), draft.value, now);
      sent := sent + [Emit(SendPrivateEvent, PrivateDraft(Num(user.id), to, Str(draft.value)))];
      messages := messages + [optimistic];
      newMessage := "";
    }
  }

  /** The optimistic message: a temporary id, the user as sender, the
      parsed route id as recipient (named 'User' when the fetched user has
      no name). */
  function Optimistic(tempId: string, user: ClientUser, to: JsVal, name: JsVal, text: string, now: nat): (e: Entry)
    ensures e.id == Str(tempId) && e.sender == Record(Num(user.id), Str(user.username))
    ensures e.recipient.Record? && e.recipient.id == to
    ensures Truthy(e.recipient.username)
    ensures e.content == Str(text) && e.createdAt == now
  {
    Entry(Str(tempId), Undefined, Record(Num(user.id), Str(user.username)), Undefined, Undefined,
          Record(to, Or(name, Str("User"))), Undefined, Undefined, Str(text), now)
  }

  /** An optimistic message is displayed as one's own, and it would pass
      the conversation test for its own route. */
  lemma OptimisticIsOwn(tempId: string, user: ClientUser, partner: int, name: JsVal, text: string, now: nat)
    ensures var m := Optimistic(tempId, user, Num(partner), name, text, now);
            FormatMessage(m, user.id).isOwnMessage == (user.id != 0)
            && Belongs(DecimalString(partner), user.id, m)
  {
    ParseIntDecimal(partner);
  }
}
