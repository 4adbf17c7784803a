/** HTTP responses of the REST controllers and the authenticated request
    user the `protect` gate attaches. */
module Http {
  import opened Js
  import Users
  import Messages
  import PrivateMessages

  /** `req.user`: the user row with `isAdmin` converted to a boolean. */
  datatype ReqUser = ReqUser(
    id: int,
    username: string,
    password: string,
    isAdmin: bool,
    lastSeen: nat,
    createdAt: nat,
    updatedAt: nat)

  /** A user without the password column, `isAdmin` as a boolean. */
  datatype UserView = UserView(id: int, username: string, isAdmin: bool, lastSeen: nat, createdAt: nat, updatedAt: nat)

  /** A `searchUsers` result. */
  datatype UserSummary = UserSummary(id: int, username: string, isAdmin: bool, lastSeen: nat)

  /** An entry of `messageCounts` in the unread summary. */
  datatype SenderCount = SenderCount(id: JsVal, username: JsVal, count: nat)

  datatype Body =
    | MessageList(count: nat, messages: seq<Messages.Formatted>)
    | OneMessage(message: Option<Messages.Formatted>)
    | Note(note: string)
    | ServerError(error: string)
    | ConversationPage(conversationCount: nat, recipient: string, conversation: seq<PrivateMessages.PrivateMessage>)
    | PrivateCreated(privateMessage: Option<PrivateMessages.PrivateMessage>)
    | UnreadSummary(totalCount: nat, messageCounts: seq<SenderCount>)
    | Conversations(conversations: seq<PrivateMessages.Conversation>)
    | UserList(userCount: nat, users: seq<UserView>)
    | OneUser(user: UserView)
    | SearchResult(resultCount: nat, results: seq<UserSummary>)

  /** `res.status(status).json({success, ...body})`; a plain `res.json` is
      status 200. A `Note` body is the `message` field. */
  datatype Response = Response(status: int, success: bool, body: Body)

  const ServerErrorNote := "Server error"

  /** The 500 answer of every controller's `catch`. */
  function Fail500(error: string): Response {
    Response(500, false, ServerError(error))
  }

  /** `{...user, isAdmin: user.isAdmin === 1}` without the password. */
  function ViewOf(u: Users.UserRow): (v: UserView)
    ensures v.id == u.id && v.username == u.username && v.isAdmin == (u.isAdmin == 1)
  {
    UserView(u.id, u.username, u.isAdmin == 1, u.lastSeen, u.createdAt, u.updatedAt)
  }
}
